/** Compact peer lists (PeersToCompact in biz/services/peer/common/peer.go; BEP 23 and BEP 7):
    addresses and ports one after the other, and what a client reads back. */
module CompactPeers {
  import opened Bytes
  import opened Peers

  datatype Endpoint = Endpoint(ip: bytes, port: int)

  /** Which address of a peer goes into a list: its IPv4 address, its IPv6 address if it has no
      IPv4 one, or its address in 16 bytes whatever it is. */
  datatype Family = V4 | V6 | Any16

  function Width(f: Family): nat {
    if f == V4 then 4 else 16
  }

  function AddressIn(f: Family, ip: bytes): (r: IP)
    ensures r.Some? ==> |r.value| == Width(f)
  {
    match f
    case V4 => To4(ip)
    case V6 => if To4(ip).Some? then None else To16(ip)
    case Any16 => To16(ip)
  }

  /** uint16(port). */
  function Port16(port: int): (r: nat)
    ensures r < 65536 && (0 <= port < 65536 ==> r == port)
  {
    port % 65536
  }

  /** The peers that have an address in the family, in order. */
  function EndpointsIn(f: Family, useAnnounceIp: bool, ps: seq<PeerRecord>): (es: seq<Endpoint>)
    ensures forall e :: e in es ==> |e.ip| == Width(f) && 0 <= e.port < 65536
  {
    if ps == [] then [] else
      var p := ps[|ps| - 1];
      var address := AddressIn(f, GetIP(useAnnounceIp, p));
      var before := EndpointsIn(f, useAnnounceIp, ps[..|ps| - 1]);
      if address.Some? then before + [Endpoint(address.value, Port16(p.port))] else before
  }

  lemma EndpointsSnoc(f: Family, useAnnounceIp: bool, ps: seq<PeerRecord>, i: nat)
    requires i < |ps|
    ensures var address := AddressIn(f, GetIP(useAnnounceIp, ps[i]));
      var before := EndpointsIn(f, useAnnounceIp, ps[..i]);
      EndpointsIn(f, useAnnounceIp, ps[..i + 1]) ==
        if address.Some? then before + [Endpoint(address.value, Port16(ps[i].port))] else before
  {
    assert ps[..i + 1][..i] == ps[..i];
  }

  // ---------- Reading a list ----------

  /** A client: strides of an address and a port, nothing left over. */
  function Decode(width: nat, s: bytes): Option<seq<Endpoint>>
    decreases |s|
  {
    if s == [] then Some([])
    else if |s| < width + 2 then None
    else
      match Decode(width, s[width + 2..])
      case None => None
      case Some(rest) => Some([Endpoint(s[..width], BigEndian(s[width..width + 2]))] + rest)
  }

  ghost predicate Reads(width: nat, s: bytes, es: seq<Endpoint>) {
    Decode(width, s) == Some(es)
  }

  /** A list with one more endpoint at its end reads as one more endpoint. */
  lemma {:induction false} ReadsMore(width: nat, s: bytes, es: seq<Endpoint>, e: Endpoint)
    requires Reads(width, s, es) && |e.ip| == width && 0 <= e.port < 65536
    ensures Reads(width, s + e.ip + PutBig(e.port, 2), es + [e])
    decreases |s|
  {
    var t := s + e.ip + PutBig(e.port, 2);
    if s == [] {
      assert t[..width] == e.ip && t[width..width + 2] == PutBig(e.port, 2) && t[width + 2..] == [];
      BigEndianOfPut(e.port, 2);
      assert Pow256(2) == 65536;
      assert [e] + [] == es + [e];
    } else {
      var s' := s[width + 2..];
      assert t[width + 2..] == s' + e.ip + PutBig(e.port, 2);
      assert t[..width] == s[..width] && t[width..width + 2] == s[width..width + 2];
      ReadsMore(width, s', es[1..], e);
      assert es + [e] == [es[0]] + (es[1..] + [e]);
    }
  }

  /** The list reads as the endpoints of these peers. */
  ghost predicate Lists(f: Family, useAnnounceIp: bool, ps: seq<PeerRecord>, s: bytes) {
    var es := EndpointsIn(f, useAnnounceIp, ps);
    Reads(Width(f), s, es) && |s| == (Width(f) + 2) * |es|
  }

  lemma ListsMore(f: Family, useAnnounceIp: bool, ps: seq<PeerRecord>, i: nat, s: bytes)
    requires i < |ps| && Lists(f, useAnnounceIp, ps[..i], s)
    ensures var address := AddressIn(f, GetIP(useAnnounceIp, ps[i]));
      Lists(f, useAnnounceIp, ps[..i + 1], if address.Some? then s + address.value + PutBig(Port16(ps[i].port), 2) else s)
  {
    var address := AddressIn(f, GetIP(useAnnounceIp, ps[i]));
    EndpointsSnoc(f, useAnnounceIp, ps, i);
    if address.Some? {
      ReadsMore(Width(f), s, EndpointsIn(f, useAnnounceIp, ps[..i]), Endpoint(address.value, Port16(ps[i].port)));
    }
  }

  /** The two lists are order-preserving and disjoint: every peer with an IPv4 address is read from
      the first, every other peer with an IPv6 address from the second. */
  method PeersToCompact(useAnnounceIp: bool, peerList: seq<PeerRecord>) returns (peers: bytes, peers6: bytes)
    ensures Decode(4, peers) == Some(EndpointsIn(V4, useAnnounceIp, peerList))
    ensures Decode(16, peers6) == Some(EndpointsIn(V6, useAnnounceIp, peerList))
    ensures |peers| == 6 * |EndpointsIn(V4, useAnnounceIp, peerList)|
    ensures |peers6| == 18 * |EndpointsIn(V6, useAnnounceIp, peerList)|
  {
    peers, peers6 := [], [];
    for i := 0 to |peerList|
      invariant Lists(V4, useAnnounceIp, peerList[..i], peers)
      invariant Lists(V6, useAnnounceIp, peerList[..i], peers6)
    {
      ListsMore(V4, useAnnounceIp, peerList, i, peers);
      ListsMore(V6, useAnnounceIp, peerList, i, peers6);
      var ip := GetIP(useAnnounceIp, peerList[i]);
      var port := PutBig(Port16(peerList[i].port), 2);
      if To4(ip).Some? {
        peers := peers + To4(ip).value + port;
      } else if To16(ip).Some? {
        peers6 := peers6 + To16(ip).value + port;
      }
    }
    assert peerList[..|peerList|] == peerList;
  }

  predicate HasAddress(useAnnounceIp: bool, p: PeerRecord) {
    |GetIP(useAnnounceIp, p)| == 4 || |GetIP(useAnnounceIp, p)| == 16
  }

  function Addressed(useAnnounceIp: bool, ps: seq<PeerRecord>): (r: seq<PeerRecord>)
    ensures forall p :: p in r <==> p in ps && HasAddress(useAnnounceIp, p)
    ensures (forall p :: p in ps ==> HasAddress(useAnnounceIp, p)) ==> |r| == |ps|
  {
    if ps == [] then [] else
      var n := |ps| - 1;
      assert ps == ps[..n] + [ps[n]];
      Addressed(useAnnounceIp, ps[..n]) + if HasAddress(useAnnounceIp, ps[n]) then [ps[n]] else []
  }

  /** Every peer with an address of 4 or 16 bytes is in exactly one of the lists, the others in none. */
  lemma {:induction false} ListsPartition(useAnnounceIp: bool, ps: seq<PeerRecord>)
    ensures |EndpointsIn(V4, useAnnounceIp, ps)| + |EndpointsIn(V6, useAnnounceIp, ps)| == |Addressed(useAnnounceIp, ps)|
    ensures |EndpointsIn(Any16, useAnnounceIp, ps)| == |Addressed(useAnnounceIp, ps)|
  {
    if ps != [] {
      ListsPartition(useAnnounceIp, ps[..|ps| - 1]);
    }
  }

  // ---------- The lists byte by byte ----------

  /** Endpoint i is read from stride i: the address, then the port, high byte first. */
  lemma DecodeAt(width: nat, s: bytes, es: seq<Endpoint>, i: nat)
    requires Decode(width, s) == Some(es) && i < |es|
    ensures |s| == (width + 2) * |es|
    ensures EndpointAt(width, s, (width + 2) * i, es[i])
  {
    StrideLength(width, s, es);
    ReadAt(width, s, es, i);
    StrideStart(width, i);
  }

  predicate EndpointAt(width: nat, s: bytes, at: nat, e: Endpoint) {
    at + width + 2 <= |s| && e.ip == s[at..at + width] && e.port == 256 * (s[at + width] as int) + s[at + width + 1] as int
  }

  function Start(width: nat, i: nat): nat {
    if i == 0 then 0 else width + 2 + Start(width, i - 1)
  }

  lemma {:induction false} StrideStart(width: nat, i: nat)
    ensures Start(width, i) == (width + 2) * i
  {
    if i > 0 {
      StrideStart(width, i - 1);
      NextStride(width + 2, i);
    }
  }

  lemma {:induction false} ReadAt(width: nat, s: bytes, es: seq<Endpoint>, i: nat)
    requires Decode(width, s) == Some(es) && i < |es|
    ensures EndpointAt(width, s, Start(width, i), es[i])
    decreases i
  {
    FirstStride(width, s, es);
    if i > 0 {
      ReadAt(width, s[width + 2..], es[1..], i - 1);
      Shifted(s, width + 2, Start(width, i - 1), width);
    }
  }

  lemma FirstStride(width: nat, s: bytes, es: seq<Endpoint>)
    requires Decode(width, s) == Some(es) && es != []
    ensures |s| >= width + 2 && Decode(width, s[width + 2..]) == Some(es[1..])
    ensures es[0] == Endpoint(s[..width], 256 * (s[width] as int) + s[width + 1] as int)
  {
    TwoBytes(s[width..width + 2]);
  }

  lemma NextStride(stride: nat, i: nat)
    requires i > 0
    ensures stride * i == stride * (i - 1) + stride
  {
  }

  lemma Shifted(s: bytes, step: nat, at: nat, width: nat)
    requires step + at + width + 2 <= |s|
    ensures var rest := s[step..];
      && rest[at..at + width] == s[step + at..step + at + width]
      && rest[at + width] == s[step + at + width] && rest[at + width + 1] == s[step + at + width + 1]
  {
  }

  lemma {:induction false} StrideLength(width: nat, s: bytes, es: seq<Endpoint>)
    requires Decode(width, s) == Some(es)
    ensures |s| == (width + 2) * |es|
    decreases |s|
  {
    if s != [] {
      StrideLength(width, s[width + 2..], es[1..]);
      assert (width + 2) * |es| == (width + 2) * |es[1..]| + width + 2;
    }
  }

  lemma TwoBytes(b: bytes)
    requires |b| == 2
    ensures BigEndian(b) == 256 * (b[0] as int) + b[1] as int
  {
    assert b[..1][..0] == [] && BigEndian(b[..1]) == b[0];
  }

  /** Whether a peer goes into a list, by the address it has: 4 bytes, or 16 that stand for 4, or any
      other 16. */
  predicate Goes(f: Family, ip: bytes) {
    match f
    case V4 => |ip| == 4 || IsMapped(ip)
    case V6 => |ip| == 16 && !IsMapped(ip)
    case Any16 => |ip| == 4 || |ip| == 16
  }

  /** The address written is the peer's own, the last 4 bytes of a mapped one, or the mapped form. */
  predicate WrittenAs(ip: bytes, written: bytes) {
    || written == ip
    || (IsMapped(ip) && written == ip[12..])
    || (IsMapped(written) && written[12..] == ip)
  }

  function Going(f: Family, useAnnounceIp: bool, ps: seq<PeerRecord>): seq<PeerRecord> {
    if ps == [] then [] else
      var n := |ps| - 1;
      Going(f, useAnnounceIp, ps[..n]) + if Goes(f, GetIP(useAnnounceIp, ps[n])) then [ps[n]] else []
  }

  lemma AddressMeaning(f: Family, ip: bytes)
    ensures AddressIn(f, ip).Some? <==> Goes(f, ip)
    ensures AddressIn(f, ip).Some? ==> |AddressIn(f, ip).value| == (if f == V4 then 4 else 16) && WrittenAs(ip, AddressIn(f, ip).value)
  {
    To4Meaning(ip);
    To16Meaning(ip);
    if |ip| == 4 { assert To16(ip).value[12..] == ip; }
  }

  /** A list has one endpoint for each such peer, in order, with its address and the low 16 bits of its
      port. */
  lemma {:induction false} EndpointsExactly(f: Family, useAnnounceIp: bool, ps: seq<PeerRecord>)
    ensures var es, qs := EndpointsIn(f, useAnnounceIp, ps), Going(f, useAnnounceIp, ps);
      && |es| == |qs|
      && forall i :: 0 <= i < |es| ==>
           |es[i].ip| == (if f == V4 then 4 else 16) && WrittenAs(GetIP(useAnnounceIp, qs[i]), es[i].ip) && es[i].port == qs[i].port % 65536
  {
    if ps != [] {
      var n := |ps| - 1;
      EndpointsExactly(f, useAnnounceIp, ps[..n]);
      AddressMeaning(f, GetIP(useAnnounceIp, ps[n]));
    }
  }
}
