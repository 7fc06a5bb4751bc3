/** Peers, their addresses and events (biz/services/peer/common/peer.go) and the
    announce request they are built from (biz/model/http.go). */
module Peers {
  import opened Bytes

  type int8 = x: int | -128 <= x < 128
  type uint64 = x: int | 0 <= x < MAX_UINT64 + 1
  type int64 = x: int | -0x8000_0000_0000_0000 <= x < 0x8000_0000_0000_0000

  const MAX_UINT64: int := 0xFFFF_FFFF_FFFF_FFFF

  // ---------- Addresses ----------

  /** net.IP: nil, or a byte slice that is meant to be 4 or 16 bytes long. */
  type IP = Option<bytes>

  const V4_IN_V6_PREFIX: bytes := [0, 0, 0, 0, 0, 0, 0, 0, 0, 0, 255, 255]

  function To4(ip: bytes): (r: IP)
    ensures r.Some? ==> |r.value| == 4
  {
    if |ip| == 4 then Some(ip)
    else if |ip| == 16 && ip[..12] == V4_IN_V6_PREFIX then Some(ip[12..])
    else None
  }

  function To16(ip: bytes): (r: IP)
    ensures r.Some? ==> |r.value| == 16
  {
    if |ip| == 4 then Some(V4_IN_V6_PREFIX + ip)
    else if |ip| == 16 then Some(ip)
    else None
  }

  predicate IsPrivate(ip: bytes) {
    match To4(ip)
    case Some(v4) => v4[0] == 10 || (v4[0] == 172 && v4[1] / 16 == 1) || (v4[0] == 192 && v4[1] == 168)
    case None => |ip| == 16 && ip[0] / 2 == 126
  }

  const V6_LOOPBACK: bytes := [0, 0, 0, 0, 0, 0, 0, 0, 0, 0, 0, 0, 0, 0, 0, 1]

  predicate IsLoopback(ip: bytes) {
    match To4(ip)
    case Some(v4) => v4[0] == 127
    case None => ip == V6_LOOPBACK
  }

  // ---------- Events and types ----------

  type PeerEvent = int8
  const UNKNOWN: PeerEvent := 0
  const STARTED: PeerEvent := 1
  const STOPPED: PeerEvent := 2
  const COMPLETED: PeerEvent := 3

  type PeerType = int8
  const BITTORRENT: PeerType := 0
  const WEBTORRENT: PeerType := 1

  function ParsePeerEvent(s: bytes): PeerEvent {
    if s == Ascii("started") then STARTED
    else if s == Ascii("stopped") then STOPPED
    else if s == Ascii("completed") then COMPLETED
    else UNKNOWN
  }

  function EventString(e: PeerEvent): bytes {
    if e == STARTED then Ascii("started")
    else if e == STOPPED then Ascii("stopped")
    else if e == COMPLETED then Ascii("completed")
    else Ascii("unknown")
  }

  /** Parsing undoes printing on the four named events; every other int8 becomes unknown. */
  lemma ParseOfEventString(e: PeerEvent)
    ensures ParsePeerEvent(EventString(e)) == if UNKNOWN <= e <= COMPLETED then e else UNKNOWN
  {
    assert |Ascii("started")| == 7 && |Ascii("stopped")| == 7 && |Ascii("completed")| == 9 && |Ascii("unknown")| == 7;
    assert Ascii("started")[2] == 97 && Ascii("stopped")[2] == 111 && Ascii("unknown")[2] == 107;
  }

  // ---------- Peers ----------

  datatype Offer = Offer(offerId: bytes, kind: bytes, sdp: bytes)

  /** What a *common.Peer points to at one moment. Times are nanoseconds since the epoch;
      conn names the web socket, if there is one. */
  datatype PeerRecord = PeerRecord(
    ip: IP, ipv4: IP, ipv6: IP, clientIp: IP,
    offers: seq<Offer>, id: bytes, userAgent: bytes, port: int,
    typ: PeerType, source: int8,
    lastSeen: int, left: uint64, uploaded: uint64, downloaded: uint64,
    event: PeerEvent, conn: Option<int>)

  function GetIP(useAnnounceIp: bool, p: PeerRecord): bytes {
    if useAnnounceIp && p.ip.Some? then p.ip.value
    else if useAnnounceIp && p.ipv4.Some? then p.ipv4.value
    else if useAnnounceIp && p.ipv6.Some? then p.ipv6.value
    else if p.clientIp.Some? then p.clientIp.value
    else []
  }

  predicate IsPeerConnectable(useAnnounceIp: bool, p: PeerRecord) {
    if p.typ == BITTORRENT then
      var ip := GetIP(useAnnounceIp, p);
      !(IsPrivate(ip) || IsLoopback(ip) || p.port == 0 || p.port == 1)
    else if p.typ == WEBTORRENT then
      |p.offers| > 0
    else
      false
  }

  /** What an update task leaves of a known peer: the counters, the event and the time of the
      new announce, everything else as it was. */
  function Refresh(known: PeerRecord, latest: PeerRecord): PeerRecord {
    known.(uploaded := latest.uploaded, downloaded := latest.downloaded, lastSeen := latest.lastSeen,
           event := latest.event, left := latest.left)
  }

  /** Same address, port, offers, type: the part of a peer no update task touches. */
  predicate SameIdentity(p: PeerRecord, q: PeerRecord) {
    && p.ip == q.ip && p.ipv4 == q.ipv4 && p.ipv6 == q.ipv6 && p.clientIp == q.clientIp
    && p.offers == q.offers && p.id == q.id && p.userAgent == q.userAgent && p.port == q.port
    && p.typ == q.typ && p.source == q.source && p.conn == q.conn
  }

  /** Same counters, event and time: the part of a peer an update task replaces. */
  predicate SameProgress(p: PeerRecord, q: PeerRecord) {
    && p.lastSeen == q.lastSeen && p.left == q.left && p.uploaded == q.uploaded
    && p.downloaded == q.downloaded && p.event == q.event
  }

  // ---------- The request ----------

  /** model.AnnounceRequest. The three announced addresses are given as net.ParseIP returns
      them (nil when the text is no address). */
  datatype AnnounceRequest = AnnounceRequest(
    infoHash: bytes, peerId: bytes, event: bytes, userAgent: bytes,
    ip: IP, ipv4: IP, ipv6: IP, clientIp: IP, port: int,
    uploaded: int64, downloaded: int64, left: int64, numWant: int,
    typ: PeerType, source: int8, offers: seq<Offer>, conn: Option<int>)

  /** The peer an announce describes; a negative left means "unknown" and becomes the maximum. */
  function PeerOf(req: AnnounceRequest, now: int): PeerRecord {
    PeerRecord(
      req.ip, req.ipv4, req.ipv6, req.clientIp, req.offers, req.peerId, req.userAgent, req.port,
      req.typ, req.source, now,
      if req.left >= 0 then req.left else MAX_UINT64,
      if req.uploaded >= 0 then req.uploaded else 0,
      if req.downloaded >= 0 then req.downloaded else 0,
      ParsePeerEvent(req.event), req.conn)
  }

  /** An ipv4 parameter that is not IPv4, or an ipv6 parameter that is. */
  predicate InvalidAddress(req: AnnounceRequest) {
    || (req.ipv4.Some? && To4(req.ipv4.value).None?)
    || (req.ipv6.Some? && To4(req.ipv6.value).Some?)
  }

  // ---------- What these mean, in numbers ----------

  /** Ten zero bytes and two of 255 make 16 bytes stand for an IPv4 address. */
  predicate IsMapped(ip: bytes) {
    |ip| == 16 && (forall i :: 0 <= i < 10 ==> ip[i] == 0) && ip[10] == 255 && ip[11] == 255
  }

  lemma To4Meaning(ip: bytes)
    ensures To4(ip) == if |ip| == 4 then Some(ip) else if IsMapped(ip) then Some(ip[12..]) else None
  {
    if IsMapped(ip) {
      assert ip[..12] == V4_IN_V6_PREFIX;
    }
    if |ip| == 16 && ip[..12] == V4_IN_V6_PREFIX {
      forall i | 0 <= i < 10
        ensures ip[i] == 0
      {
        assert ip[i] == ip[..12][i] == V4_IN_V6_PREFIX[i];
      }
      assert ip[10] == ip[..12][10] && ip[11] == ip[..12][11];
    }
  }

  lemma To16Meaning(ip: bytes)
    ensures |ip| == 4 ==> To16(ip).Some? && IsMapped(To16(ip).value) && To4(To16(ip).value) == Some(ip)
    ensures |ip| == 16 ==> To16(ip) == Some(ip)
    ensures |ip| != 4 && |ip| != 16 ==> To16(ip) == None
  {
    if |ip| == 4 {
      To4Meaning(To16(ip).value);
    }
  }

  /** 10.0.0.0/8, 172.16.0.0/12, 192.168.0.0/16 and 127.0.0.0/8, as ranges of one number. */
  lemma IPv4Ranges(v4: bytes)
    requires |v4| == 4
    ensures var a := BigEndian(v4);
      && (IsPrivate(v4) <==> 0x0A00_0000 <= a <= 0x0AFF_FFFF || 0xAC10_0000 <= a <= 0xAC1F_FFFF || 0xC0A8_0000 <= a <= 0xC0A8_FFFF)
      && (IsLoopback(v4) <==> 0x7F00_0000 <= a <= 0x7FFF_FFFF)
  {
    FourBytes(v4);
  }

  /** fc00::/7 and ::1; a mapped address is judged as the IPv4 address it stands for. */
  lemma IPv6Ranges(ip: bytes)
    requires |ip| == 16
    ensures IsMapped(ip) ==> IsPrivate(ip) == IsPrivate(ip[12..]) && IsLoopback(ip) == IsLoopback(ip[12..])
    ensures !IsMapped(ip) ==> (IsPrivate(ip) <==> ip[0] == 0xFC || ip[0] == 0xFD)
    ensures !IsMapped(ip) ==> (IsLoopback(ip) <==> ip[15] == 1 && forall i :: 0 <= i < 15 ==> ip[i] == 0)
  {
    To4Meaning(ip);
    if !IsMapped(ip) && ip[15] == 1 && forall i :: 0 <= i < 15 ==> ip[i] == 0 {
      assert ip == V6_LOOPBACK;
    }
  }

  lemma NoAddress(ip: bytes)
    requires |ip| != 4 && |ip| != 16
    ensures !IsPrivate(ip) && !IsLoopback(ip)
  {
  }

  function FirstPresent(ips: seq<IP>): bytes {
    if ips == [] then [] else if ips[0].Some? then ips[0].value else FirstPresent(ips[1..])
  }

  /** The announced addresses count, in this order, only if the configuration says so; the address
      the announce came from is the last resort, and no address is an empty one. */
  lemma AddressOrder(useAnnounceIp: bool, p: PeerRecord)
    ensures GetIP(useAnnounceIp, p) ==
      FirstPresent(if useAnnounceIp then [p.ip, p.ipv4, p.ipv6, p.clientIp] else [p.clientIp])
  {
    FirstOfMore(p.ip, [p.ipv4, p.ipv6, p.clientIp]);
    FirstOfMore(p.ipv4, [p.ipv6, p.clientIp]);
    FirstOfMore(p.ipv6, [p.clientIp]);
    FirstOfMore(p.clientIp, []);
    assert [p.ip] + [p.ipv4, p.ipv6, p.clientIp] == [p.ip, p.ipv4, p.ipv6, p.clientIp];
    assert [p.ipv4] + [p.ipv6, p.clientIp] == [p.ipv4, p.ipv6, p.clientIp];
    assert [p.ipv6] + [p.clientIp] == [p.ipv6, p.clientIp] && [p.clientIp] + [] == [p.clientIp];
  }

  lemma FirstOfMore(ip: IP, ips: seq<IP>)
    ensures FirstPresent([ip] + ips) == if ip.Some? then ip.value else FirstPresent(ips)
  {
    assert ([ip] + ips)[1..] == ips;
  }

  /** A BitTorrent peer (type 0) needs a public address and a port above 1, or one outside the port
      range; a WebTorrent peer (type 1) needs an offer; nothing else is connectable. */
  lemma ConnectableIff(useAnnounceIp: bool, p: PeerRecord)
    ensures IsPeerConnectable(useAnnounceIp, p) <==>
      || (p.typ == 0 && !IsPrivate(GetIP(useAnnounceIp, p)) && !IsLoopback(GetIP(useAnnounceIp, p)) && p.port != 0 && p.port != 1)
      || (p.typ == 1 && p.offers != [])
  {
  }

  /** The number an announced event counts as: started 1, stopped 2, completed 3, any other text 0. */
  function EventNumber(text: bytes): int {
    if text == Ascii("started") then 1 else if text == Ascii("stopped") then 2 else if text == Ascii("completed") then 3 else 0
  }

  function AtLeastZero(x: int): int {
    if x < 0 then 0 else x
  }

  /** The progress an announce reports: what is negative counts as zero, an unknown left as 2^64 - 1. */
  predicate ReportsOf(p: PeerRecord, req: AnnounceRequest, now: int) {
    && p.lastSeen == now && p.event == EventNumber(req.event)
    && p.uploaded == AtLeastZero(req.uploaded) && p.downloaded == AtLeastZero(req.downloaded)
    && p.left == if req.left < 0 then 0xFFFF_FFFF_FFFF_FFFF else req.left
  }

  /** Who announces, from where, and with what to offer. */
  predicate ComesFrom(p: PeerRecord, req: AnnounceRequest) {
    && p.id == req.peerId && p.port == req.port && p.typ == req.typ && p.source == req.source
    && p.ip == req.ip && p.ipv4 == req.ipv4 && p.ipv6 == req.ipv6 && p.clientIp == req.clientIp
    && p.offers == req.offers && p.userAgent == req.userAgent && p.conn == req.conn
  }

  lemma PeerOfMeaning(req: AnnounceRequest, now: int)
    ensures ReportsOf(PeerOf(req, now), req, now) && ComesFrom(PeerOf(req, now), req)
    ensures STOPPED == 2
  {
  }
}
