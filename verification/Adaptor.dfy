/** The conversions between peers and their IDL form (biz/services/peer/rpc/adaptor.go), with Go's
    integer casts written out. */
module Adaptor {
  import opened Bytes
  import opened Peers

  const TWO_63: int := 0x8000_0000_0000_0000
  const TWO_64: int := 0x1_0000_0000_0000_0000
  const SECOND: int := 1_000_000_000

  type int32 = x: int | -0x8000_0000 <= x < 0x8000_0000

  function UintToInt(u: uint64): int64 {
    if u < TWO_63 then u else u - TWO_64
  }

  function IntToUint(i: int64): uint64 {
    if i >= 0 then i else i + TWO_64
  }

  function ToInt32(x: int): int32 {
    (x + 0x8000_0000) % 0x1_0000_0000 - 0x8000_0000
  }

  function ToInt8(x: int): int8 {
    (x + 128) % 256 - 128
  }

  /** trunker.Peer: enums are 64-bit, times are whole seconds. */
  datatype IdlPeer = IdlPeer(
    ip: IP, ipv4: IP, ipv6: IP, clientIp: IP,
    lastSeen: int, offers: seq<Offer>, id: bytes, userAgent: bytes, port: int32,
    uploaded: int64, downloaded: int64, left: int64,
    typ: int64, event: int64, source: int64)

  function PeerCommonToIDL(p: PeerRecord): IdlPeer {
    IdlPeer(p.ip, p.ipv4, p.ipv6, p.clientIp, p.lastSeen / SECOND, p.offers, p.id, p.userAgent,
            ToInt32(p.port), UintToInt(p.uploaded), UintToInt(p.downloaded), UintToInt(p.left),
            p.typ, p.event, p.source)
  }

  function PeerIDLToCommon(q: IdlPeer): PeerRecord {
    PeerRecord(q.ip, q.ipv4, q.ipv6, q.clientIp, q.offers, q.id, q.userAgent, q.port,
               ToInt8(q.typ), ToInt8(q.source), q.lastSeen * SECOND,
               IntToUint(q.left), IntToUint(q.uploaded), IntToUint(q.downloaded),
               ToInt8(q.event), None)
  }

  lemma CastsInvert(u: uint64, e: int8)
    ensures IntToUint(UintToInt(u)) == u && ToInt8(e) == e
  {
  }

  lemma Int32Exact(x: int)
    ensures ToInt32(x) == x <==> -0x8000_0000 <= x < 0x8000_0000
  {
  }

  /** A cast keeps the low bits: what it gives differs by a multiple of the power of two. */
  lemma WideCastsKeepLowBits(u: uint64, i: int64)
    ensures UintToInt(u) == u || UintToInt(u) == u - 0x1_0000_0000_0000_0000
    ensures IntToUint(i) == i || IntToUint(i) == i + 0x1_0000_0000_0000_0000
  {
  }

  lemma NarrowCastsKeepLowBits(x: int)
    ensures exists n :: ToInt8(x) == x + 256 * n
    ensures exists n :: ToInt32(x) == x + 0x1_0000_0000 * n
  {
    assert ToInt8(x) == x + 256 * -((x + 128) / 256);
    assert ToInt32(x) == x + 0x1_0000_0000 * -((x + 0x8000_0000) / 0x1_0000_0000);
  }

  function WholeSeconds(t: int): int {
    t / SECOND * SECOND
  }

  /** A peer comes back with its time cut to the second and without its socket; everything else,
      counters of the full unsigned range included, survives exactly when the port fits 32 bits. */
  lemma RoundTrip(p: PeerRecord)
    ensures var back := PeerIDLToCommon(PeerCommonToIDL(p));
      && back.id == p.id
      && (back == p.(lastSeen := p.lastSeen / 1_000_000_000 * 1_000_000_000, conn := None) <==> -0x8000_0000 <= p.port < 0x8000_0000)
  {
    CastsInvert(p.left, p.event);
    CastsInvert(p.uploaded, p.typ);
    CastsInvert(p.downloaded, p.source);
    Int32Exact(p.port);
    var back := PeerIDLToCommon(PeerCommonToIDL(p));
    assert back == p.(lastSeen := WholeSeconds(p.lastSeen), conn := None, port := ToInt32(p.port));
  }
}
