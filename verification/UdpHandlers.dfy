/** The UDP handlers as wholes (biz/services/udp_server/announce.go and the dispatch of server.go):
    from a packet over the ban lists and the torrents to the packet sent back. */
module UdpHandlers {
  import opened Bytes
  import opened Peers
  import opened Generations
  import opened BanList
  import opened CompactPeers
  import opened MuxLocal
  import opened UdpWire
  import opened UdpServer
  import Torrents

  datatype Handled = Failed(reason: bytes) | Sent(packet: bytes)

  /** The clocks of one request: when the peer is stamped, when the list is scanned, when the counts
      are taken; and the interval told to the client. */
  datatype Times = Times(now: int, scanTime: int, scrapeTime: int, interval: int)

  /** Why an announce fails, if it does. */
  function Refused(bans: Bans, remote: bytes, b: bytes): Option<bytes> {
    if |b| < 82 then Some(Ascii("invalid announce request"))
    else if bans.infoHash then Some(Ascii("banned info_hash"))
    else if bans.peerId then Some(Ascii("banned peer_id"))
    else if bans.ip then Some(Ascii("banned ip"))
    else if Peers.InvalidAddress(RequestFor(remote, b)) then Some(Ascii("invalid address"))
    else None
  }

  /** A reply with the counts of the torrent after the announce and the peers a client of that family
      can use, out of those the torrents before it answer with. */
  ghost predicate Replies(c: Config, before: Torrents.Directory, after: Torrents.Directory, remote: bytes, b: bytes, t: Times, tid: nat, packet: bytes)
    requires Torrents.Inv(before) && Torrents.Inv(after) && |b| >= 82
  {
    var req := RequestFor(remote, b);
    var file := Torrents.Scraped(c.ttl, t.scrapeTime, after, req.infoHash);
    && |packet| >= 20
    && Word(packet, 0) == 1 && Word(packet, 4) == tid && Word(packet, 8) == t.interval % TWO_32
    && Torrents.CountedAs(after, req.infoHash, c.ttl, t.scrapeTime, file)
    && Word(packet, 12) == file.incomplete % TWO_32 && Word(packet, 16) == file.seeder % TWO_32
    && Decode(if IsV4(remote) then 4 else 16, packet[20..]) ==
       Some(EndpointsIn(UdpFamily(!IsV4(remote)), c.useAnnounceIp, Torrents.Answer(c, before, req, t.now, t.scanTime)))
  }

  /** What handleAnnounce does, given the answers of the ban lists. */
  ghost predicate Handles(c: Config, before: Torrents.Directory, after: Torrents.Directory, bans: Bans,
                          remote: bytes, b: bytes, t: Times, tid: nat, h: Handled)
  {
    && Torrents.Inv(before) && Torrents.Inv(after)
    && match Refused(bans, remote, b)
       case Some(reason) => h == Failed(reason) && after == before
       case None =>
         && after == Torrents.Announced(c, before, RequestFor(remote, b), t.now)
         && Torrents.AtOnce(c, before, after, RequestFor(remote, b), t.now)
         && h.Sent? && Replies(c, before, after, remote, b, t, tid, h.packet)
  }

  /** A key the ban list must find. */
  ghost predicate Banned(item: BanItem, key: bytes)
    reads item
  {
    item.history.Some? && item.earlier <= |item.history.value| && Findable(item.history.value, item.earlier, key)
  }

  /** The ban lists' answers for one request. */
  method TestBans(infoHashBans: BanItem, peerIdBans: BanItem, ipBanned: bool, req: AnnounceRequest) returns (bans: Bans)
    requires infoHashBans.Valid() && peerIdBans.Valid()
    ensures bans == Bans(infoHashBans.Hits(req.infoHash), peerIdBans.Hits(req.peerId), ipBanned)
    ensures Banned(infoHashBans, req.infoHash) ==> bans.infoHash
    ensures Banned(peerIdBans, req.peerId) ==> bans.peerId
    ensures infoHashBans.filter.members == {} ==> !bans.infoHash
    ensures peerIdBans.filter.members == {} ==> !bans.peerId
  {
    var hashBanned := infoHashBans.Test(req.infoHash);
    var peerBanned := peerIdBans.Test(req.peerId);
    bans := Bans(hashBanned, peerBanned, ipBanned);
  }

  /** The reply once the torrents have answered. */
  method Answered(c: Config, mux: MuxLocalManager, ghost before: Torrents.Directory, remote: bytes, b: bytes, resp: seq<PeerRecord>,
                  t: Times, tid: nat) returns (packet: bytes)
    requires mux.Valid() && |b| >= 82 && tid < TWO_32 && Torrents.Inv(before)
    requires resp == Torrents.Answer(c, before, RequestFor(remote, b), t.now, t.scanTime)
    ensures Torrents.Inv(Union(mux.localList)) && Replies(c, before, Union(mux.localList), remote, b, t, tid, packet)
  {
    var infoHash := RequestFor(remote, b).infoHash;
    ScrapeOfUnion(mux.localList, c.ttl, t.scrapeTime, infoHash);
    Torrents.ScrapedExactly(c.ttl, t.scrapeTime, Union(mux.localList), infoHash);
    var file := ScrapeOf(mux.localList, c.ttl, t.scrapeTime, infoHash);
    packet := AnnounceReply(c.useAnnounceIp, !IsV4(remote), tid, t.interval, file, resp);
  }

  /** The announce of a well-formed request. */
  method Announce(c: Config, mux: MuxLocalManager, bans: Bans, remote: bytes, tid: nat, b: bytes, t: Times) returns (h: Handled)
    requires mux.Valid() && |b| >= 82 && tid < TWO_32
    modifies mux
    ensures mux.Valid() && Handles(c, Union(old(mux.localList)), Union(mux.localList), bans, remote, b, t, tid, h)
  {
    UnionSound(mux.localList);
    ghost var before := Union(mux.localList);
    var res := mux.HandleAnnouncePeer(c, bans, RequestFor(remote, b), t.now, t.scanTime);
    UnionSound(mux.localList);
    match res
    case BannedInfoHash => h := Failed(Ascii("banned info_hash"));
    case BannedPeerId => h := Failed(Ascii("banned peer_id"));
    case BannedIp => h := Failed(Ascii("banned ip"));
    case InvalidAddress => h := Failed(Ascii("invalid address"));
    case Peers(resp, _, _) =>
      var packet := Answered(c, mux, before, remote, b, resp, t, tid);
      h := Sent(packet);
  }

  /** The bans of a request are what the lists say of its torrent and its peer, and of its address: in
      particular every key a list must find is found, and an empty list bans nobody. */
  ghost predicate AnsweredBy(infoHashBans: BanItem, peerIdBans: BanItem, ipBanned: bool, req: AnnounceRequest, bans: Bans)
    reads infoHashBans, infoHashBans.filter, peerIdBans, peerIdBans.filter
  {
    && bans == Bans(infoHashBans.Hits(req.infoHash), peerIdBans.Hits(req.peerId), ipBanned)
    && (Banned(infoHashBans, req.infoHash) ==> bans.infoHash) && (Banned(peerIdBans, req.peerId) ==> bans.peerId)
    && (infoHashBans.filter.members == {} ==> !bans.infoHash) && (peerIdBans.filter.members == {} ==> !bans.peerId)
  }

  ghost predicate NobodyBanned(infoHashBans: BanItem, peerIdBans: BanItem, ipBanned: bool)
    reads infoHashBans, infoHashBans.filter, peerIdBans, peerIdBans.filter
  {
    infoHashBans.filter.members == {} && peerIdBans.filter.members == {} && !ipBanned
  }

  /** handleAnnounce over the ban lists and the torrents. A banned key gets no further. */
  method HandleAnnounce(c: Config, mux: MuxLocalManager, infoHashBans: BanItem, peerIdBans: BanItem, ipBanned: bool,
                        remote: bytes, tid: nat, b: bytes, t: Times) returns (h: Handled, ghost bans: Bans)
    requires mux.Valid() && infoHashBans.Valid() && peerIdBans.Valid()
    requires (|remote| == 4 || |remote| == 16) && tid < TWO_32
    modifies mux
    ensures mux.Valid()
    ensures Handles(c, Union(old(mux.localList)), Union(mux.localList), bans, remote, b, t, tid, h)
    ensures |b| >= 82 ==> old(AnsweredBy(infoHashBans, peerIdBans, ipBanned, RequestFor(remote, b), bans))
    ensures old(NobodyBanned(infoHashBans, peerIdBans, ipBanned)) && h.Failed? ==>
      h.reason == if |b| < 82 then Ascii("invalid announce request") else Ascii("invalid address")
  {
    var r, _ := RequestOf(remote, b);
    if r.None? {
      UnionSound(mux.localList);
      return Failed(Ascii("invalid announce request")), Bans(false, false, false);
    }
    var answers := TestBans(infoHashBans, peerIdBans, ipBanned, r.value);
    bans := answers;
    h := Announce(c, mux, answers, remote, tid, b, t);
  }

  /** What goes back to the client: the handler's packet, or an error packet with its reason. */
  ghost predicate Delivers(h: Handled, tid: nat, packet: bytes) {
    match h
    case Failed(reason) => IsError(packet, tid, reason)
    case Sent(sent) => packet == sent
  }

  method Deliver(h: Handled, tid: nat) returns (packet: bytes)
    requires tid < TWO_32
    ensures Delivers(h, tid, packet)
  {
    match h
    case Failed(reason) => packet := ResponseError(tid, reason);
    case Sent(sent) => packet := sent;
  }

  /** The reply to a scrape says of each whole hash what one manager with all torrents would. */
  ghost predicate Scrapes(m: Torrents.Directory, ttl: int, now: int, tid: nat, b: bytes, packet: bytes)
    requires Torrents.Inv(m)
  {
    && |packet| == 8 + 12 * (|b| / 20) && Word(packet, 0) == 2 && Word(packet, 4) == tid
    && forall k :: 0 <= k < |b| / 20 ==> 
         Answers(packet, k, Torrents.Scraped(ttl, now, m, HashAt(b, k)))
         && Torrents.CountedAs(m, HashAt(b, k), ttl, now, Torrents.Scraped(ttl, now, m, HashAt(b, k)))
  }

  method ScrapeAll(mux: MuxLocalManager, ttl: int, now: int, tid: nat, b: bytes) returns (packet: bytes)
    requires mux.Valid() && tid < TWO_32
    ensures Torrents.Inv(Union(mux.localList)) && Scrapes(Union(mux.localList), ttl, now, tid, b, packet)
  {
    var shards := mux.localList;
    UnionSound(shards);
    var reply := HandleScrape(h => Some(ScrapeOf(shards, ttl, now, h)), tid, b);
    packet := reply.value;
    forall k | 0 <= k < |b| / 20
      ensures Answers(packet, k, Torrents.Scraped(ttl, now, Union(shards), HashAt(b, k)))
      ensures Torrents.CountedAs(Union(shards), HashAt(b, k), ttl, now, Torrents.Scraped(ttl, now, Union(shards), HashAt(b, k)))
    {
      Torrents.ScrapedExactly(ttl, now, Union(shards), HashAt(b, k));
      ScrapeOfUnion(shards, ttl, now, HashAt(b, k));
    }
  }

  /** A connect for which the generator has an id. */
  predicate Connects(packet: bytes, newId: Option<uint64>) {
    |packet| >= 16 && IsConnect(packet) && newId.Some?
  }

  /** handleRequest as a whole: only an announce of a recognised client changes the torrents, and each
      request is answered as its handler, or the reason it failed, has it. */
  method Serve(server: UDPServer, c: Config, mux: MuxLocalManager, infoHashBans: BanItem, peerIdBans: BanItem, ipBanned: bool,
               remoteAddr: bytes, remote: bytes, packet: bytes, newId: Option<uint64>, t: Times)
    returns (out: Option<bytes>, ghost bans: Bans, ghost h: Handled)
    requires server.Valid() && mux.Valid() && infoHashBans.Valid() && peerIdBans.Valid()
    requires |remote| == 4 || |remote| == 16
    modifies server, mux
    ensures server.Valid() && mux.Valid()
    ensures Connects(packet, newId) ==>
      && server.events == old(server.events) + [Connect(newId.value, remoteAddr, t.now)]
      && out.Some? && IsConnected(out.value, Word(packet, 12), newId.value)
    ensures !Connects(packet, newId) ==> server.events == old(server.events)
    ensures |packet| < 16 || (IsConnect(packet) && newId.None?) ==> out == None
    ensures Admitted(old(server.events), remoteAddr, packet, 1) ==>
      && Handles(c, Union(old(mux.localList)), Union(mux.localList), bans, remote, packet[16..], t, Word(packet, 12), h)
      && out.Some? && Delivers(h, Word(packet, 12), out.value)
    ensures Admitted(old(server.events), remoteAddr, packet, 1) && |packet| >= 98 ==>
      old(AnsweredBy(infoHashBans, peerIdBans, ipBanned, RequestFor(remote, packet[16..]), bans))
    ensures Admitted(old(server.events), remoteAddr, packet, 1) && old(NobodyBanned(infoHashBans, peerIdBans, ipBanned)) && h.Failed? ==>
      h.reason == if |packet| < 98 then Ascii("invalid announce request") else Ascii("invalid address")
    ensures Admitted(old(server.events), remoteAddr, packet, 2) ==>
      && Torrents.Inv(Union(mux.localList)) && out.Some?
      && Scrapes(Union(mux.localList), c.ttl, t.scrapeTime, Word(packet, 12), packet[16..], out.value)
    ensures !Admitted(old(server.events), remoteAddr, packet, 1) ==> mux.localList == old(mux.localList)
    ensures |packet| >= 16 && !IsConnect(packet) && Refusal(old(server.events), remoteAddr, packet).Some? ==>
      out.Some? && IsError(out.value, Word(packet, 12), Refusal(old(server.events), remoteAddr, packet).value)
  {
    bans, h := Bans(false, false, false), Failed([]);
    var o := server.HandleRequest(remoteAddr, packet, newId, t.now);
    match o
    case InvalidRequest => out := None;
    case NoId => out := None;
    case Reply(reply) => out := Some(reply);
    case ToScrape(tid, body) =>
      WordBound(packet, 12);
      var reply := ScrapeAll(mux, c.ttl, t.scrapeTime, tid, body);
      out := Some(reply);
    case ToAnnounce(tid, body) =>
      WordBound(packet, 12);
      var handled;
      handled, bans := HandleAnnounce(c, mux, infoHashBans, peerIdBans, ipBanned, remote, tid, body, t);
      h := handled;
      var reply := Deliver(handled, tid);
      out := Some(reply);
  }

  lemma WordBound(s: bytes, i: nat)
    requires i + 4 <= |s|
    ensures Word(s, i) < TWO_32
  {
    BigEndianBound(s[i..i + 4]);
    Powers();
  }
}
