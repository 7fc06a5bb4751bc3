/** The packets of the UDP tracker (parse.go and announce.go in biz/services/udp_server): what is
    read from a request and what a client reads from a reply. */
module UdpWire {
  import opened Bytes
  import opened Peers
  import opened Adaptor
  import opened Writers
  import opened CompactPeers
  import opened Generations

  const ACTION_CONNECT: nat := 0
  const ACTION_ANNOUNCE: nat := 1
  const ACTION_SCRAPE: nat := 2
  const ACTION_ERROR: nat := 3

  const SOURCE_UDP: int8 := 1

  // ---------- Requests ----------

  /** The fields of an announce after its 16-byte header, as a client puts them. */
  datatype Announce = Announce(infoHash: bytes, peerId: bytes, downloaded: int64, left: int64, uploaded: int64,
    event: nat, ip: bytes, key: bytes, numWant: nat, port: nat)

  ghost predicate Sendable(a: Announce, width: nat) {
    && |a.infoHash| == 20 && |a.peerId| == 20 && |a.ip| == width && |a.key| == 4
    && a.event < 0x1_0000_0000 && a.numWant < 0x1_0000_0000 && a.port < 65536
  }

  function Put(a: Announce): bytes {
    a.infoHash + (a.peerId + (PutBig(IntToUint(a.downloaded), 8) + (PutBig(IntToUint(a.left), 8) + (PutBig(IntToUint(a.uploaded), 8)
    + (PutBig(a.event, 4) + (a.ip + (a.key + (PutBig(a.numWant, 4) + PutBig(a.port, 2)))))))))
  }

  /** common.PeerEvent(uint32) keeps eight bits; zero counts as started. */
  function EventOf(code: nat): PeerEvent {
    var event := ToInt8(code);
    if event == UNKNOWN then STARTED else event
  }

  function Signed(s: bytes): int64
    requires |s| == 8
  {
    BigEndianBound(s);
    assert Pow256(8) == 0x1_0000_0000_0000_0000;
    UintToInt(BigEndian(s))
  }

  function Parse(b: bytes, width: nat): AnnounceRequest
    requires |b| >= 78 + width
  {
    AnnounceRequest(
      b[0..20], b[20..40], EventString(EventOf(BigEndian(b[64..68]))), [],
      None, None, None, None, BigEndian(b[76 + width..78 + width]),
      Signed(b[56..64]), Signed(b[40..48]), Signed(b[48..56]), BigEndian(b[72 + width..76 + width]),
      BITTORRENT, 0, [], None)
  }

  /** An address printed and parsed again is its 16-byte form. */
  function Text(ip: bytes): IP {
    To16(ip)
  }

  function ParseAnnounceRequestV4(b: bytes): AnnounceRequest
    requires |b| >= 82
  {
    Parse(b, 4).(ipv4 := Text(b[68..72]))
  }

  function ParseAnnounceRequestV6(b: bytes): AnnounceRequest
    requires |b| >= 94
  {
    Parse(b, 16).(ipv6 := Text(b[68..84]))
  }

  lemma Peel(b: bytes, i: nat, p: bytes, q: bytes)
    requires i <= |b| && b[i..] == p + q
    ensures i + |p| <= |b| && b[i..i + |p|] == p && b[i + |p|..] == q
  {
    assert b[i..][..|p|] == p && b[i..][|p|..] == q;
  }

  lemma NumberBack(v: nat, w: nat)
    requires v < Pow256(w)
    ensures BigEndian(PutBig(v, w)) == v
  {
    BigEndianOfPut(v, w);
    ModSelf(v, Pow256(w));
  }

  lemma ModSelf(v: nat, p: nat)
    requires v < p
    ensures v % p == v
  {
  }

  lemma Powers()
    ensures Pow256(2) == 65536 && Pow256(4) == 0x1_0000_0000 && Pow256(8) == 0x1_0000_0000_0000_0000
  {
  }

  lemma SignedBack(i: int64)
    ensures Signed(PutBig(IntToUint(i), 8)) == i
  {
    Powers();
    NumberBack(IntToUint(i), 8);
  }

  /** The layout of a request, field by field. */
  lemma Fields(a: Announce, width: nat, b: bytes, rest: bytes)
    requires Sendable(a, width) && b == Put(a) + rest
    ensures |b| >= 78 + width
    ensures b[0..20] == a.infoHash && b[20..40] == a.peerId
    ensures b[40..48] == PutBig(IntToUint(a.downloaded), 8) && b[48..56] == PutBig(IntToUint(a.left), 8)
    ensures b[56..64] == PutBig(IntToUint(a.uploaded), 8) && b[64..68] == PutBig(a.event, 4) && b[68..68 + width] == a.ip
    ensures b[72 + width..76 + width] == PutBig(a.numWant, 4) && b[76 + width..78 + width] == PutBig(a.port, 2)
  {
    var d, l, u := PutBig(IntToUint(a.downloaded), 8), PutBig(IntToUint(a.left), 8), PutBig(IntToUint(a.uploaded), 8);
    var e, n, p := PutBig(a.event, 4), PutBig(a.numWant, 4), PutBig(a.port, 2);
    var t8 := n + (p + rest);
    var t7 := a.key + t8;
    var t6 := a.ip + t7;
    var t5 := e + t6;
    var t4 := u + t5;
    var t3 := l + t4;
    var t2 := d + t3;
    var t1 := a.peerId + t2;
    assert b[0..] == a.infoHash + t1;
    Peel(b, 0, a.infoHash, t1);
    Peel(b, 20, a.peerId, t2);
    Peel(b, 40, d, t3);
    Peel(b, 48, l, t4);
    Peel(b, 56, u, t5);
    Peel(b, 64, e, t6);
    Peel(b, 68, a.ip, t7);
    Peel(b, 68 + width, a.key, t8);
    Peel(b, 72 + width, n, p + rest);
    Peel(b, 76 + width, p, rest);
  }

  /** What the peer store makes of an event code: the repository's own numbering. */
  function StoredEvent(code: nat): PeerEvent {
    match code % 256
    case 0 => STARTED
    case 1 => STARTED
    case 2 => STOPPED
    case 3 => COMPLETED
    case _ => UNKNOWN
  }

  lemma EventBack(code: nat)
    ensures ParsePeerEvent(EventString(EventOf(code))) == StoredEvent(code)
  {
    ParseOfEventString(EventOf(code));
    assert ToInt8(code) == if code % 256 < 128 then code % 256 else code % 256 - 256;
  }

  ghost predicate SameRequest(r: AnnounceRequest, a: Announce) {
    && r.infoHash == a.infoHash && r.peerId == a.peerId
    && r.downloaded == a.downloaded && r.left == a.left && r.uploaded == a.uploaded
    && r.numWant == a.numWant && r.port == a.port
    && ParsePeerEvent(r.event) == StoredEvent(a.event)
  }

  lemma ParseBack(a: Announce, width: nat, b: bytes, rest: bytes)
    requires Sendable(a, width) && b == Put(a) + rest
    ensures |b| >= 78 + width && SameRequest(Parse(b, width), a) && b[68..68 + width] == a.ip
  {
    Fields(a, width, b, rest);
    SignedBack(a.downloaded);
    SignedBack(a.left);
    SignedBack(a.uploaded);
    Powers();
    NumberBack(a.event, 4);
    NumberBack(a.numWant, 4);
    NumberBack(a.port, 2);
    EventBack(a.event);
  }

  /** Both layouts: every request a client can send comes back, whatever follows it. A num_want of
      -1 is read as 4294967295. */
  lemma ParseUndoesPut(a: Announce, rest: bytes)
    ensures var b := Put(a) + rest;
      Sendable(a, 4) ==>
        |b| >= 82 && SameRequest(ParseAnnounceRequestV4(b), a) && ParseAnnounceRequestV4(b).ipv4 == Text(a.ip)
    ensures var b := Put(a) + rest;
      Sendable(a, 16) ==>
        |b| >= 94 && SameRequest(ParseAnnounceRequestV6(b), a) && ParseAnnounceRequestV6(b).ipv6 == Text(a.ip)
  {
    if Sendable(a, 4) { ParseBack(a, 4, Put(a) + rest, rest); }
    if Sendable(a, 16) { ParseBack(a, 16, Put(a) + rest, rest); }
  }

  predicate Zero(ip: bytes) {
    forall i :: 0 <= i < |ip| ==> ip[i] == 0
  }

  predicate IsV4(remote: bytes) {
    To4(remote).Some?
  }

  /** The request a packet body stands for: layout by the remote's family and the length, the remote
      address where none is announced, and the origin. */
  function RequestFor(remote: bytes, b: bytes): AnnounceRequest
    requires |b| >= 82
  {
    var wide := !IsV4(remote) && |b| >= 94;
    Parse(b, if wide then 16 else 4).(
      ipv4 := if IsV4(remote) then Text(if Zero(b[68..72]) then remote else b[68..72]) else None,
      ipv6 := if IsV4(remote) then None else Text(if !wide || Zero(b[68..84]) then remote else b[68..84]),
      clientIp := Some(remote), source := SOURCE_UDP)
  }

  /** The first half of handleAnnounce: pick the layout by the remote address, patch the announced
      address where it is missing, and stamp the origin. */
  method RequestOf(remote: bytes, b: bytes) returns (r: Option<AnnounceRequest>, isIPv6: bool)
    requires |remote| == 4 || |remote| == 16
    ensures r == if |b| < 82 then None else Some(RequestFor(remote, b))
    ensures isIPv6 <==> !IsV4(remote)
    ensures r.Some? ==>
      && r.value.clientIp == Some(remote) && r.value.typ == 0 && r.value.source == 1
      && (r.value.ipv4.Some? <==> IsV4(remote)) && (r.value.ipv6.Some? <==> !IsV4(remote)) && r.value.ip.None?
    ensures r.Some? && IsV4(remote) ==> r.value.ipv4 == Text(if Zero(b[68..72]) then remote else b[68..72])
    ensures r.Some? && !IsV4(remote) ==>
      r.value.ipv6 == Text(if |b| < 94 || Zero(b[68..84]) then remote else b[68..84])
    ensures var width := if IsV4(remote) || |b| < 94 then 4 else 16;
      r.Some? ==> r.value == Parse(b, width).(ipv4 := r.value.ipv4, ipv6 := r.value.ipv6, clientIp := Some(remote), source := SOURCE_UDP)
    ensures r.Some? ==> (InvalidAddress(r.value) <==> !IsV4(remote) && |b| >= 94 && To4(b[68..84]).Some?)
  {
    isIPv6 := false;
    var req;
    if To4(remote).Some? {
      if |b| < 82 {
        return None, isIPv6;
      }
      req := ParseAnnounceRequestV4(b);
      if Zero(b[68..72]) {
        req := req.(ipv4 := Text(remote));
      }
    } else {
      isIPv6 := true;
      if |b| < 94 {
        if |b| >= 82 {
          req := ParseAnnounceRequestV4(b);
          req := req.(ipv4 := None, ipv6 := Text(remote));
        } else {
          return None, isIPv6;
        }
      } else {
        req := ParseAnnounceRequestV6(b);
        if Zero(b[68..84]) {
          req := req.(ipv6 := Text(remote));
        }
      }
    }
    RefusedAddressIff(remote, b, req);
    req := req.(clientIp := Some(remote), typ := BITTORRENT, source := SOURCE_UDP);
    return Some(req), isIPv6;
  }

  lemma TextKeepsFamily(ip: bytes)
    requires |ip| == 4 || |ip| == 16
    ensures Text(ip).Some? && (To4(Text(ip).value).Some? <==> To4(ip).Some?)
  {
    if |ip| == 4 { assert (V4_IN_V6_PREFIX + ip)[..12] == V4_IN_V6_PREFIX; }
  }

  /** The store refuses a UDP announce for its address exactly when a client behind an IPv6 address
      announces an IPv4 address written in 16 bytes. */
  lemma RefusedAddressIff(remote: bytes, b: bytes, r: AnnounceRequest)
    requires (|remote| == 4 || |remote| == 16) && |b| >= 82
    requires r.ipv4 == if IsV4(remote) then Text(if Zero(b[68..72]) then remote else b[68..72]) else None
    requires r.ipv6 == if IsV4(remote) then None else Text(if |b| < 94 || Zero(b[68..84]) then remote else b[68..84])
    ensures InvalidAddress(r) <==> !IsV4(remote) && |b| >= 94 && To4(b[68..84]).Some?
  {
    TextKeepsFamily(remote);
    TextKeepsFamily(b[68..72]);
    if |b| >= 94 {
      TextKeepsFamily(b[68..84]);
      if Zero(b[68..84]) { assert b[68..84][..12][10] == 0; }
    }
  }

  // ---------- Replies ----------

  const TWO_32: int := 0x1_0000_0000

  /** The 32-bit number at an offset. */
  function Word(s: bytes, i: nat): nat
    requires i + 4 <= |s|
  {
    BigEndian(s[i..i + 4])
  }

  lemma WordAppended(s: bytes, v: nat)
    ensures Word(s + PutBig(v, 4), |s|) == v % TWO_32
    ensures forall i: nat :: i + 4 <= |s| ==> Word(s + PutBig(v, 4), i) == Word(s, i)
  {
    var t := s + PutBig(v, 4);
    assert t[|s|..|s| + 4] == PutBig(v, 4);
    BigEndianOfPut(v, 4);
    Powers();
    forall i: nat | i + 4 <= |s|
      ensures Word(t, i) == Word(s, i)
    {
      assert t[i..i + 4] == s[i..i + 4];
    }
  }

  lemma ThreeWords(s: bytes, x: nat, y: nat, z: nat)
    ensures var t := s + PutBig(x, 4) + PutBig(y, 4) + PutBig(z, 4);
      && |t| == |s| + 12
      && Word(t, |s|) == x % TWO_32 && Word(t, |s| + 4) == y % TWO_32 && Word(t, |s| + 8) == z % TWO_32
      && forall i: nat :: i + 4 <= |s| ==> Word(t, i) == Word(s, i)
  {
    WordAppended(s, x);
    WordAppended(s + PutBig(x, 4), y);
    WordAppended(s + PutBig(x, 4) + PutBig(y, 4), z);
  }

  method WriteHeader(w: Writer, action: nat, tid: nat)
    modifies w
    ensures |w.written| == |old(w.written)| + 8 && w.written[..|old(w.written)|] == old(w.written)
    ensures Word(w.written, |old(w.written)|) == action % TWO_32 && Word(w.written, |old(w.written)| + 4) == tid % TWO_32
  {
    WordAppended(w.written, action);
    w.WriteBig(action, 4);
    WordAppended(w.written, tid);
    w.WriteBig(tid, 4);
  }

  function Uint32(x: int): (r: nat)
    ensures r < TWO_32
  {
    x % TWO_32
  }

  function UdpFamily(isIPv6: bool): Family {
    if isIPv6 then Any16 else V4
  }

  /** The reply to an announce. The client reads the counts it asked for, and exactly the peers that
      have an address of its own family, in order. */
  method AnnounceReply(useAnnounceIp: bool, isIPv6: bool, tid: nat, interval: int, scrape: ScrapeFile, res: seq<PeerRecord>)
    returns (reply: bytes)
    ensures |reply| >= 20
    ensures Word(reply, 0) == 1 && Word(reply, 4) == tid % TWO_32 && Word(reply, 8) == interval % TWO_32
    ensures Word(reply, 12) == scrape.incomplete % TWO_32 && Word(reply, 16) == scrape.seeder % TWO_32
    ensures Decode(if isIPv6 then 16 else 4, reply[20..]) == Some(EndpointsIn(UdpFamily(isIPv6), useAnnounceIp, res))
  {
    var buf := new Writer();
    WriteHeader(buf, ACTION_ANNOUNCE, tid);
    ModSelf(Uint32(interval), TWO_32);
    ThreeWords(buf.written, Uint32(interval), scrape.incomplete, scrape.seeder);
    buf.WriteBig(Uint32(interval), 4);
    buf.WriteBig(scrape.incomplete, 4);
    buf.WriteBig(scrape.seeder, 4);
    ghost var head := buf.written;
    ghost var body := PutPeers(useAnnounceIp, isIPv6, res, buf);
    reply := buf.written;
    Prefix(head, body);
  }

  /** The peers that have an address of the client's family. */
  method PutPeers(useAnnounceIp: bool, isIPv6: bool, res: seq<PeerRecord>, buf: Writer) returns (ghost body: bytes)
    modifies buf
    ensures buf.written == old(buf.written) + body && Lists(UdpFamily(isIPv6), useAnnounceIp, res, body)
  {
    ghost var head := buf.written;
    body := [];
    for i := 0 to |res|
      invariant buf.written == head + body
      invariant Lists(UdpFamily(isIPv6), useAnnounceIp, res[..i], body)
    {
      ListsMore(UdpFamily(isIPv6), useAnnounceIp, res, i, body);
      var ip := if isIPv6 then To16(GetIP(useAnnounceIp, res[i])) else To4(GetIP(useAnnounceIp, res[i]));
      if ip.Some? {
        ghost var port := PutBig(Port16(res[i].port), 2);
        buf.Write(ip.value);
        buf.WriteBig(Port16(res[i].port), 2);
        Regroup(head, body, ip.value, port);
        body := body + ip.value + port;
      }
    }
    assert res[..|res|] == res;
  }

  lemma Regroup(a: bytes, b: bytes, x: bytes, y: bytes)
    ensures a + b + x + y == a + (b + x + y)
  {
  }

  lemma Prefix(head: bytes, body: bytes)
    ensures (head + body)[|head|..] == body
    ensures forall i: nat :: i + 4 <= |head| ==> Word(head + body, i) == Word(head, i)
  {
    forall i: nat | i + 4 <= |head|
      ensures Word(head + body, i) == Word(head, i)
    {
      assert (head + body)[i..i + 4] == head[i..i + 4];
    }
  }

  /** The whole 20-byte hashes of a scrape request, and what the reply says of the first of them. */
  function HashAt(b: bytes, k: nat): bytes
    requires 20 * k + 20 <= |b|
  {
    b[20 * k..20 * k + 20]
  }

  ghost predicate Answers(res: bytes, k: nat, file: ScrapeFile)
    requires 8 + 12 * k + 12 <= |res|
  {
    && Word(res, 8 + 12 * k) == file.seeder % TWO_32
    && Word(res, 12 + 12 * k) == file.complete % TWO_32
    && Word(res, 16 + 12 * k) == file.incomplete % TWO_32
  }

  method HashesOf(b: bytes) returns (infoHash: seq<bytes>)
    ensures |infoHash| == |b| / 20
    ensures forall k :: 0 <= k < |infoHash| ==> infoHash[k] == HashAt(b, k)
  {
    var n := |b|;
    infoHash := [];
    var i := 20;
    while i <= n
      invariant i == 20 * |infoHash| + 20 && i <= n + 20
      invariant forall k :: 0 <= k < |infoHash| ==> infoHash[k] == HashAt(b, k)
    {
      infoHash := infoHash + [b[i - 20..i]];
      i := i + 20;
    }
  }

  lemma AnswersAppended(s: bytes, file: ScrapeFile, n: nat)
    requires |s| == 8 + 12 * n
    ensures var t := s + PutBig(file.seeder, 4) + PutBig(file.complete, 4) + PutBig(file.incomplete, 4);
      && |t| == 8 + 12 * (n + 1)
      && Answers(t, n, file)
      && Word(t, 0) == Word(s, 0) && Word(t, 4) == Word(s, 4)
      && forall k: nat, f :: k < n && Answers(s, k, f) ==> Answers(t, k, f)
  {
    ThreeWords(s, file.seeder, file.complete, file.incomplete);
  }

  /** The reply to a scrape: 8 bytes and 12 for each whole hash, seeders, completed and leechers of
      one hash after the other; a failed lookup fails the request. */
  method HandleScrape(scrape: bytes -> Option<ScrapeFile>, tid: nat, b: bytes) returns (reply: Option<bytes>)
    ensures reply.None? <==> exists k :: 0 <= k < |b| / 20 && scrape(HashAt(b, k)).None?
    ensures reply.Some? ==> |reply.value| == 8 + 12 * (|b| / 20)
    ensures reply.Some? ==> Word(reply.value, 0) == 2 && Word(reply.value, 4) == tid % TWO_32
    ensures reply.Some? ==> forall k :: 0 <= k < |b| / 20 ==> Answers(reply.value, k, scrape(HashAt(b, k)).value)
  {
    var infoHash := HashesOf(b);
    var res := new Writer();
    WriteHeader(res, ACTION_SCRAPE, tid);
    for i := 0 to |infoHash|
      invariant fresh(res) && |res.written| == 8 + 12 * i
      invariant Word(res.written, 0) == ACTION_SCRAPE && Word(res.written, 4) == tid % TWO_32
      invariant forall k :: 0 <= k < i ==> scrape(infoHash[k]).Some? && Answers(res.written, k, scrape(infoHash[k]).value)
    {
      var file := scrape(infoHash[i]);
      if file.None? {
        return None;
      }
      AnswersAppended(res.written, file.value, i);
      res.WriteBig(file.value.seeder, 4);
      res.WriteBig(file.value.complete, 4);
      res.WriteBig(file.value.incomplete, 4);
    }
    return Some(res.written);
  }
}
