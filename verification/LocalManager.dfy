/** local.Manager in memory: torrents by info hash, each an InfoHashRoot object. */
module LocalManager {
  import opened Bytes
  import opened Peers
  import opened Generations
  import opened PeerStore
  import Torrents

  /** What an announce or a scrape hands to the goroutine pool. */
  datatype Task = Update(root: InfoHashRoot, peer: Peer) | Expire(root: InfoHashRoot, keys: seq<bytes>)

  datatype AnnounceResult = InvalidAddress | Answered(resp: seq<Peer>)

  class Manager {
    var infoHashMap: map<bytes, InfoHashRoot>
    ghost var contents: Torrents.Directory  // the value this object stands for

    constructor ()
      ensures Valid() && contents == map[]
    {
      infoHashMap, contents := map[], map[];
    }

    ghost function Roots(): set<InfoHashRoot>
      reads this
    {
      infoHashMap.Values
    }

    ghost function Held(): set<Peer>
      reads this, Roots()
    {
      set h, p | h in infoHashMap && p in infoHashMap[h].held :: p
    }

    ghost predicate Valid()
      reads this, Roots(), Held()
    {
      && infoHashMap.Keys == contents.Keys
      && forall h :: h in infoHashMap ==> infoHashMap[h].infoHash == h && infoHashMap[h].Value() == Some(contents[h])
    }

    /** The synchronous part of an announce; the tasks are what it leaves to the pool. */
    method HandleAnnouncePeer(c: Config, req: AnnounceRequest, now: int, scanTime: int)
      returns (reply: AnnounceResult, tasks: seq<Task>)
      requires Valid()
      modifies this, Roots()
      ensures Valid() && contents == Torrents.Announced(c, old(contents), req, now)
      ensures Torrents.Inv(old(contents)) && Torrents.Inv(contents) && Torrents.AtOnce(c, old(contents), contents, req, now)
      ensures reply.InvalidAddress? <==> Peers.InvalidAddress(req)
      ensures reply.Answered? ==> Records(reply.resp) == Torrents.Answer(c, old(contents), req, now, scanTime)
      ensures Torrents.Active(old(contents), req) ==>
        && reply.Answered? && req.infoHash in infoHashMap && |tasks| >= 1 && tasks[0].Update?
        && fresh(tasks[0].peer) && tasks[0].peer.Record() == PeerOf(req, now) && tasks[0].peer.torrent == req.infoHash
        && Leaves(ExpiredIn(c.ttl, scanTime, old(contents)[req.infoHash]), infoHashMap[req.infoHash], tasks[0].peer,
                  |reply.resp| < req.numWant, tasks)
      ensures !Torrents.Active(old(contents), req) ==> tasks == []
    {
      ContentsSound();
      Torrents.AnnouncedExactly(c, contents, req, now);
      reply, tasks := TakeIn(c, req, now, scanTime);
    }

    /** The same, case by case. */
    method TakeIn(c: Config, req: AnnounceRequest, now: int, scanTime: int)
      returns (reply: AnnounceResult, tasks: seq<Task>)
      requires Valid()
      modifies this, Roots()
      ensures Valid() && contents == Torrents.Announced(c, old(contents), req, now)
      ensures reply.InvalidAddress? <==> Peers.InvalidAddress(req)
      ensures reply.Answered? ==> Records(reply.resp) == Torrents.Answer(c, old(contents), req, now, scanTime)
      ensures Torrents.Active(old(contents), req) ==>
        && reply.Answered? && req.infoHash in infoHashMap && |tasks| >= 1 && tasks[0].Update?
        && fresh(tasks[0].peer) && tasks[0].peer.Record() == PeerOf(req, now) && tasks[0].peer.torrent == req.infoHash
        && Leaves(ExpiredIn(c.ttl, scanTime, old(contents)[req.infoHash]), infoHashMap[req.infoHash], tasks[0].peer,
                  |reply.resp| < req.numWant, tasks)
      ensures !Torrents.Active(old(contents), req) ==> tasks == []
    {
      if Peers.InvalidAddress(req) {
        return InvalidAddress, [];
      }
      var peer := new Peer(PeerOf(req, now), req.infoHash);
      RecordFields(peer);
      if req.infoHash !in infoHashMap {
        CreateTorrent(c, peer, req.infoHash, now);
        return Answered([]), [];
      }
      if peer.event == STOPPED {
        StopPeer(req.infoHash, peer.id);
        return Answered([]), [];
      }
      var resp;
      resp, tasks := AnswerAnnounce(c, req.infoHash, peer, req.numWant, scanTime);
      reply := Answered(resp);
    }

    /** A torrent seen for the first time: its peer is stored at once, if it may be. */
    method CreateTorrent(c: Config, peer: Peer, infoHash: bytes, now: int)
      requires Valid() && infoHash !in infoHashMap && peer.torrent == infoHash
      modifies this
      ensures Valid()
      ensures contents == old(contents)[infoHash := Torrents.FirstSeen(c, peer.Record(), now)]
    {
      var root := NewTorrent(c, peer, infoHash, now);
      infoHashMap := infoHashMap[infoHash := root];
      contents := contents[infoHash := root.contents];
      OthersKept(infoHash);
    }

    method StoreIn(infoHash: bytes, peer: Peer)
      requires Valid() && infoHash in infoHashMap && peer.torrent == infoHash && Shape(contents[infoHash])
      requires peer.id !in contents[infoHash].gens[Previous(contents[infoHash].active)]
      modifies this`contents, infoHashMap[infoHash]
      ensures Valid() && infoHashMap == old(infoHashMap)
      ensures contents == old(contents)[infoHash := Stored(old(contents)[infoHash], old(peer.Record()).id, old(peer.Record()))]
    {
      RecordFields(peer);
      var root := infoHashMap[infoHash];
      Apart(infoHash);
      root.StoreSoundly(peer);
      Adopt(infoHash, root.contents);
    }

    /** DirectStore: no check. Before any rotation its one condition holds of every peer. */
    method DirectStore(infoHash: bytes, peer: Peer, now: int)
      requires Valid() && peer.torrent == infoHash
      requires infoHash in contents ==>
        Shape(contents[infoHash]) && peer.id !in contents[infoHash].gens[Previous(contents[infoHash].active)]
      modifies this, Roots()
      ensures Valid() && Torrents.Inv(old(contents))
      ensures contents == Torrents.DirectlyStored(old(contents), infoHash, old(peer.Record()), now)
    {
      ContentsSound();
      if infoHash in infoHashMap {
        StoreIn(infoHash, peer);
      } else {
        StoreInNew(infoHash, peer, now);
      }
    }

    method StoreInNew(infoHash: bytes, peer: Peer, now: int)
      requires Valid() && infoHash !in infoHashMap && peer.torrent == infoHash
      modifies this
      ensures Valid()
      ensures contents == old(contents)[infoHash := Stored(NewRoot(now), old(peer.Record()).id, old(peer.Record()))]
    {
      var root := NewTorrentWith(peer, infoHash, now);
      infoHashMap := infoHashMap[infoHash := root];
      contents := contents[infoHash := root.contents];
      OthersKept(infoHash);
    }

    /** A stop takes the peer out at once. */
    method StopPeer(infoHash: bytes, id: bytes)
      requires Valid() && infoHash in infoHashMap
      modifies this`contents, infoHashMap[infoHash]
      ensures Valid() && infoHashMap == old(infoHashMap)
      ensures contents == old(contents)[infoHash := Removed(old(contents)[infoHash], id)]
    {
      var root := infoHashMap[infoHash];
      Apart(infoHash);
      root.RemoveStopped(id);
      Adopt(infoHash, root.contents);
    }

    /** The test of the rotation check. */
    lemma FullIsFull(c: Config, h: bytes)
      requires Valid() && h in infoHashMap
      ensures Shape(contents[h]) && infoHashMap[h].currentActive < |infoHashMap[h].peerMap|
      ensures infoHashMap[h].IsFull(c) == Full(c, contents[h])
    {
      assert infoHashMap[h].Value() == Some(contents[h]);
      infoHashMap[h].IsFullIsFull(c);
    }

    /** The rotation. */
    method Advance(infoHash: bytes)
      requires Valid() && infoHash in infoHashMap
      modifies this`contents, infoHashMap[infoHash]
      ensures Valid() && infoHashMap == old(infoHashMap)
      ensures contents == old(contents)[infoHash := RotatedAnyway(old(contents)[infoHash])]
    {
      var root := infoHashMap[infoHash];
      Apart(infoHash);
      root.Rotate();
      Adopt(infoHash, root.contents);
    }

    /** The peer list of a known torrent. */
    method ListPeers(c: Config, infoHash: bytes, peer: Peer, numWant: int, scanTime: int)
      returns (resp: seq<Peer>, expiredPeer: seq<bytes>)
      requires Valid() && infoHash in infoHashMap
      ensures Valid()
      ensures Records(resp) == Generations.Reply(c.ttl, scanTime, peer.Record(), numWant, contents[infoHash])
      ensures SetOf(expiredPeer) <= ExpiredIn(c.ttl, scanTime, contents[infoHash])
      ensures |resp| < numWant ==> SetOf(expiredPeer) == ExpiredIn(c.ttl, scanTime, contents[infoHash])
    {
      var root := infoHashMap[infoHash];
      ghost var r := contents[infoHash];
      assert root.Value() == Some(r) && root.contents == r;
      resp, expiredPeer := root.Scan(peer, numWant, c.ttl, scanTime);
    }

    /** A rotation leaves the peers as they are. */
    method AdvanceAround(infoHash: bytes, ghost ps: seq<Peer>, ghost rs: seq<PeerRecord>)
      requires Valid() && infoHash in infoHashMap && Records(ps) == rs
      modifies this`contents, infoHashMap[infoHash]
      ensures Valid() && infoHashMap == old(infoHashMap) && Records(ps) == rs
      ensures contents == old(contents)[infoHash := RotatedAnyway(old(contents)[infoHash])]
    {
      Advance(infoHash);
      forall i | 0 <= i < |ps|
        ensures ps[i].Record() == rs[i]
      {
        assert unchanged(ps[i]);
      }
      RecordsAre(ps, rs);
    }

    /** The rotation check. */
    method RotateAround(c: Config, infoHash: bytes, ghost ps: seq<Peer>, ghost rs: seq<PeerRecord>)
      requires Valid() && infoHash in infoHashMap && Records(ps) == rs
      modifies this`contents, infoHashMap[infoHash]
      ensures Valid() && infoHashMap == old(infoHashMap) && Records(ps) == rs
      ensures contents == old(contents)[infoHash := Rotated(c, old(contents)[infoHash])]
      ensures Torrents.RotatesAboveHalf(c, old(contents), contents, infoHash)
    {
      FullIsFull(c, infoHash);
      RotatedOrNot(c, contents, infoHash);
      FullIff(c, contents[infoHash]);
      if infoHashMap[infoHash].IsFull(c) {
        AdvanceAround(infoHash, ps, rs);
      }
    }

    /** The peer list, then the rotation check, which leaves the listed peers as they are. */
    method ListThenRotate(c: Config, infoHash: bytes, peer: Peer, numWant: int, scanTime: int)
      returns (resp: seq<Peer>, expiredPeer: seq<bytes>)
      requires Valid() && infoHash in infoHashMap
      modifies this`contents, infoHashMap[infoHash]
      ensures Valid() && infoHashMap == old(infoHashMap)
      ensures contents == old(contents)[infoHash := Rotated(c, old(contents)[infoHash])]
      ensures Records(resp) == Generations.Reply(c.ttl, scanTime, old(peer.Record()), numWant, old(contents)[infoHash])
      ensures SetOf(expiredPeer) <= ExpiredIn(c.ttl, scanTime, old(contents)[infoHash])
      ensures |resp| < numWant ==> SetOf(expiredPeer) == ExpiredIn(c.ttl, scanTime, old(contents)[infoHash])
    {
      resp, expiredPeer := ListPeers(c, infoHash, peer, numWant, scanTime);
      RotateAround(c, infoHash, resp, Records(resp));
    }

    /** The answer, and the tasks that go to the pool. */
    method AnswerAnnounce(c: Config, infoHash: bytes, peer: Peer, numWant: int, scanTime: int)
      returns (resp: seq<Peer>, tasks: seq<Task>)
      requires Valid() && infoHash in infoHashMap && peer.torrent == infoHash
      modifies this`contents, infoHashMap[infoHash]
      ensures Valid() && infoHashMap == old(infoHashMap)
      ensures contents == old(contents)[infoHash := Rotated(c, old(contents)[infoHash])]
      ensures Records(resp) == Generations.Reply(c.ttl, scanTime, old(peer.Record()), numWant, old(contents)[infoHash])
      ensures Leaves(ExpiredIn(c.ttl, scanTime, old(contents)[infoHash]), infoHashMap[infoHash], peer, |resp| < numWant, tasks)
    {
      ghost var expired := ExpiredIn(c.ttl, scanTime, contents[infoHash]);
      var expiredPeer;
      resp, expiredPeer := ListThenRotate(c, infoHash, peer, numWant, scanTime);
      tasks := PoolTasks(infoHashMap[infoHash], peer, expiredPeer);
      LeavesTasks(expired, infoHashMap[infoHash], peer, |resp| < numWant, expiredPeer);
    }

    /** Different torrents' roots, and the peers they may reach, are different objects. */
    lemma Apart(h0: bytes)
      requires Valid() && h0 in infoHashMap
      ensures forall h :: h in infoHashMap && h != h0 ==>
        infoHashMap[h] != infoHashMap[h0] && infoHashMap[h].held !! infoHashMap[h0].held
    {
      forall h | h in infoHashMap && h != h0
        ensures infoHashMap[h] != infoHashMap[h0] && infoHashMap[h].held !! infoHashMap[h0].held
      {
        assert infoHashMap[h].Value() == Some(contents[h]);
        assert infoHashMap[h0].Value() == Some(contents[h0]);
      }
    }

    /** The pool runs the update task of an announce, the root still being in the map. */
    method RunUpdateTask(c: Config, infoHash: bytes, peer: Peer)
      requires Valid() && infoHash in infoHashMap && peer.torrent == infoHash
      modifies this`contents, infoHashMap[infoHash], infoHashMap[infoHash].held
      ensures Valid() && infoHashMap == old(infoHashMap)
      ensures contents == old(contents)[infoHash := Updated(c, old(contents)[infoHash], old(peer.Record()))]
    {
      Apart(infoHash);
      var root := infoHashMap[infoHash];
      assert root.Value() == Some(contents[infoHash]) && root.contents == contents[infoHash];
      root.Update(c, peer);
      Adopt(infoHash, root.contents);
    }

    /** The pool runs the expiry task of an announce or a scrape, the root still being in the map. */
    method RunExpireTask(infoHash: bytes, keys: seq<bytes>)
      requires Valid() && infoHash in infoHashMap
      modifies this`contents, infoHashMap[infoHash]
      ensures Valid() && infoHashMap == old(infoHashMap)
      ensures contents == old(contents)[infoHash := RemovedSet(old(contents)[infoHash], SetOf(keys))]
    {
      var root := infoHashMap[infoHash];
      assert root.Value() == Some(contents[infoHash]) && root.contents == contents[infoHash];
      Apart(infoHash);
      root.Expire(keys);
      Adopt(infoHash, root.contents);
    }

    /** The sweep of one torrent's peers. */
    method SweepTorrent(infoHash: bytes, ttl: int, now: int) returns (n: nat)
      requires Valid() && infoHash in infoHashMap
      modifies this`contents, infoHashMap[infoHash], infoHashMap[infoHash].held
      ensures Valid() && infoHashMap == old(infoHashMap)
      ensures forall r :: r in Roots() ==> r.held == old(r.held)
      ensures contents == old(contents)[infoHash := Swept(ttl, now, old(contents)[infoHash])]
      ensures n == Generations.Len(old(contents)[infoHash]) - Generations.Len(contents[infoHash])
    {
      Apart(infoHash);
      var root := infoHashMap[infoHash];
      assert root.Value() == Some(contents[infoHash]) && root.contents == contents[infoHash];
      n := root.Sweep(ttl, now);
      Adopt(infoHash, root.contents);
    }

    /** cleanUp: sweep a torrent, and drop it if it was due and nothing of it is left. */
    method CleanUp(infoHash: bytes, ttl: int, now: int) returns (n: nat)
      requires Valid() && infoHash in infoHashMap
      modifies this, infoHashMap[infoHash], infoHashMap[infoHash].held
      ensures Valid() && Roots() <= old(Roots()) && Held() <= old(Held())
      ensures Shape(old(contents)[infoHash])
      ensures contents == Torrents.Put(old(contents), infoHash, Torrents.OutcomeOf(ttl, now, old(contents)[infoHash]))
      ensures n == Generations.Len(old(contents)[infoHash]) - Generations.Len(Swept(ttl, now, old(contents)[infoHash]))
    {
      RootFacts(infoHash);
      ghost var m := contents;
      var due := !(infoHashMap[infoHash].lastClean + ttl > now);
      n := SweepKeeping(infoHash, ttl, now);
      PutOutcome(ttl, now, m, infoHash);
      if due {
        DropEmpty(infoHash);
      }
    }

    method SweepKeeping(infoHash: bytes, ttl: int, now: int) returns (n: nat)
      requires Valid() && infoHash in infoHashMap
      modifies this`contents, infoHashMap[infoHash], infoHashMap[infoHash].held
      ensures Valid() && infoHashMap == old(infoHashMap) && Held() <= old(Held())
      ensures contents == old(contents)[infoHash := Swept(ttl, now, old(contents)[infoHash])]
      ensures n == Generations.Len(old(contents)[infoHash]) - Generations.Len(contents[infoHash])
    {
      HeldBound();
      ghost var peers := Held();
      n := SweepTorrent(infoHash, ttl, now);
      StillHeld(Roots(), peers);
    }

    lemma HeldBound()
      ensures forall r :: r in Roots() ==> r.held <= Held()
    {
      forall r, p | r in Roots() && p in r.held
        ensures p in Held()
      {
        var h :| h in infoHashMap && infoHashMap[h] == r;
        assert p in infoHashMap[h].held;
      }
    }

    /** The visit of a sweep to one torrent. */
    method Visit(h: bytes, ttl: int, now: int) returns (n: nat)
      requires Valid() && h in infoHashMap
      modifies this, infoHashMap[h], infoHashMap[h].held
      ensures Valid() && Roots() <= old(Roots()) && Held() <= old(Held())
      ensures contents == Torrents.AfterVisit(ttl, now, old(contents), h) && n == Torrents.TakenAt(ttl, now, old(contents), h)
    {
      n := CleanUp(h, ttl, now);
    }

    /** The visits of a sweep, one after the other. */
    method VisitAll(hs: seq<bytes>, ttl: int, now: int) returns (count: int)
      requires Valid() && Ascending(hs) && forall h :: h in hs ==> h in contents
      modifies this, Roots(), Held()
      ensures Valid()
      ensures contents == Torrents.AfterVisits(ttl, now, old(contents), hs)
      ensures count == Torrents.Taken(ttl, now, old(contents), hs)
    {
      ghost var m := contents;
      count := 0;
      for i := 0 to |hs|
        invariant Valid() && Roots() <= old(Roots()) && Held() <= old(Held())
        invariant contents == Torrents.AfterVisits(ttl, now, m, hs[..i])
        invariant count == Torrents.Taken(ttl, now, m, hs[..i])
      {
        Torrents.ToVisit(ttl, now, m, hs, i);
        Torrents.VisitsSnoc(ttl, now, m, hs, i);
        HeldOf(hs[i]);
        var n := Visit(hs[i], ttl, now);
        count := count + n;
      }
      assert hs[..|hs|] == hs;
    }

    lemma HeldOf(h: bytes)
      requires h in infoHashMap
      ensures infoHashMap[h] in Roots() && infoHashMap[h].held <= Held()
    {
    }

    lemma StillHeld(roots: set<InfoHashRoot>, peers: set<Peer>)
      requires Roots() <= roots && forall r :: r in roots ==> r.held <= peers
      ensures Held() <= peers
    {
    }

    /** Clean: sweep every torrent in range order; the count is the drop in stored peers. */
    method Clean(ttl: int, now: int) returns (count: int)
      requires Valid()
      modifies this, Roots(), Held()
      ensures Valid() && Torrents.Inv(old(contents)) && Torrents.Inv(contents)
      ensures contents == Torrents.Cleaned(ttl, now, old(contents))
      ensures count == |Torrents.AllPairs(old(contents))| - |Torrents.AllPairs(contents)|
    {
      ContentsSound();
      var hs := Sorted(infoHashMap.Keys);
      Torrents.VisitsAreSweep(ttl, now, contents);
      count := VisitAll(hs, ttl, now);
    }

    method DropEmpty(infoHash: bytes)
      requires Valid() && infoHash in infoHashMap
      modifies this`infoHashMap, this`contents
      ensures Valid() && Shape(old(contents)[infoHash])
      ensures contents == if Generations.Len(old(contents)[infoHash]) == 0 then old(contents) - {infoHash} else old(contents)
      ensures Roots() <= old(Roots()) && Held() <= old(Held())
    {
      RootFacts(infoHash);
      if infoHashMap[infoHash].Size() == 0 {
        DeleteInfoHash(infoHash);
      }
    }

    lemma RootFacts(h: bytes)
      requires Valid() && h in infoHashMap
      ensures Shape(contents[h]) && infoHashMap[h].lastClean == contents[h].lastClean
      ensures |infoHashMap[h].peerMap| == 3 && infoHashMap[h].Size() == Generations.Len(contents[h])
    {
      assert infoHashMap[h].Value() == Some(contents[h]);
      infoHashMap[h].SizeIsLen();
    }

    method Scrape(infoHash: bytes, ttl: int, now: int) returns (file: ScrapeFile, tasks: seq<Task>)
      requires Valid()
      ensures file == Torrents.Scraped(ttl, now, contents, infoHash)
      ensures Torrents.Inv(contents) && Torrents.CountedAs(contents, infoHash, ttl, now, file)
      ensures infoHash !in contents ==> tasks == []
      ensures infoHash in contents ==>
        var expired := ExpiredIn(ttl, now, contents[infoHash]);
        if expired == {} then tasks == []
        else |tasks| == 1 && tasks[0].Expire? && tasks[0].root == infoHashMap[infoHash] && SetOf(tasks[0].keys) == expired
    {
      tasks := [];
      ContentsSound();
      Torrents.ScrapedExactly(ttl, now, contents, infoHash);
      if infoHash !in infoHashMap {
        return ScrapeFile(0, 0, 0, 0), [];
      }
      var root := infoHashMap[infoHash];
      assert root.Value() == Some(contents[infoHash]) && root.contents == contents[infoHash];
      var expiredPeer;
      file, expiredPeer := root.Count(ttl, now);
      if |expiredPeer| > 0 {
        assert expiredPeer[0] in SetOf(expiredPeer);
        tasks := [Expire(root, expiredPeer)];
      } else {
        assert SetOf(expiredPeer) == {};
      }
    }

    lemma ContentsSound()
      requires Valid()
      ensures Torrents.Inv(contents)
    {
      forall h | h in contents ensures Inv(contents[h]) {
        assert infoHashMap[h].Value() == Some(contents[h]);
      }
    }

    lemma RootSizes()
      requires Valid()
      ensures forall h :: h in infoHashMap ==>
        |infoHashMap[h].peerMap| == 3 && infoHashMap[h].Size() == Torrents.LenAt(contents, h)
    {
      forall h | h in infoHashMap
        ensures |infoHashMap[h].peerMap| == 3 && infoHashMap[h].Size() == Torrents.LenAt(contents, h)
      {
        assert infoHashMap[h].Value() == Some(contents[h]);
        infoHashMap[h].SizeIsLen();
      }
    }

    /** Adding up Len over the torrents. */
    method AddUp(hs: seq<bytes>, ghost m: Torrents.Directory) returns (peerCount: nat)
      requires forall h :: h in hs ==> h in infoHashMap
      requires forall h :: h in infoHashMap ==>
        |infoHashMap[h].peerMap| == 3 && infoHashMap[h].Size() == Torrents.LenAt(m, h)
      ensures peerCount == Torrents.SumLen(m, hs)
    {
      peerCount := 0;
      for i := 0 to |hs|
        invariant peerCount == Torrents.SumLen(m, hs[..i])
      {
        assert hs[i] in hs;
        Torrents.SumLenSnoc(m, hs, i);
        peerCount := peerCount + infoHashMap[hs[i]].Size();
      }
      assert hs[..|hs|] == hs;
    }

    /** Totals over all torrents. */
    method GetStatistic() returns (totalTorrents: nat, totalPeers: nat)
      requires Valid()
      ensures totalTorrents == |contents| && totalPeers == |Torrents.AllPairs(contents)|
    {
      ContentsSound();
      Torrents.SumLenAll(contents);
      RootSizes();
      assert |infoHashMap| == |infoHashMap.Keys| && |contents| == |contents.Keys|;
      totalTorrents := |infoHashMap|;
      totalPeers := AddUp(Sorted(infoHashMap.Keys), contents);
    }

    method DeleteInfoHash(infoHash: bytes)
      requires Valid()
      modifies this`infoHashMap, this`contents
      ensures Valid() && contents == old(contents) - {infoHash} && infoHashMap == old(infoHashMap) - {infoHash}
      ensures Roots() <= old(Roots()) && Held() <= old(Held())
    {
      infoHashMap := infoHashMap - {infoHash};
      contents := contents - {infoHash};
      forall h | h in infoHashMap
        ensures infoHashMap[h].infoHash == h && infoHashMap[h].Value() == Some(contents[h])
      {
        assert old(infoHashMap[h].Value() == Some(contents[h]));
      }
    }

    /** Every root but the one under h0 has its value. */
    ghost predicate ValidBut(h0: bytes)
      reads this, Roots(), Held()
    {
      && infoHashMap.Keys == contents.Keys
      && forall h :: h in infoHashMap ==>
           infoHashMap[h].infoHash == h && (h != h0 ==> infoHashMap[h].Value() == Some(contents[h]))
    }

    /** Take up the value a root has come to have. */
    ghost method Adopt(h0: bytes, after: Root)
      requires h0 in infoHashMap && ValidBut(h0) && infoHashMap[h0].Value() == Some(after)
      modifies this`contents
      ensures Valid() && contents == old(contents)[h0 := after]
    {
      contents := contents[h0 := after];
    }

    /** Every root but the one under h0 is as it was, so its value is. */
    twostate lemma OthersKept(h0: bytes)
      requires old(Valid()) && h0 in infoHashMap && h0 in contents
      requires infoHashMap == old(infoHashMap)[h0 := infoHashMap[h0]] && contents == old(contents)[h0 := contents[h0]]
      requires infoHashMap[h0].infoHash == h0 && infoHashMap[h0].Value() == Some(contents[h0])
      requires forall h :: h in old(infoHashMap) && h != h0 ==> unchanged(infoHashMap[h]) && unchanged(infoHashMap[h].held)
      ensures Valid()
    {
      forall h | h in infoHashMap
        ensures infoHashMap[h].infoHash == h && infoHashMap[h].Value() == Some(contents[h])
      {
        if h != h0 {
          assert old(infoHashMap[h].Value() == Some(contents[h]));
        }
      }
    }
  }

  lemma PutOutcome(ttl: int, now: int, m: Torrents.Directory, h: bytes)
    requires h in m && Shape(m[h]) && Shape(Swept(ttl, now, m[h]))
    ensures var swept := Swept(ttl, now, m[h]);
      Torrents.Put(m, h, Torrents.OutcomeOf(ttl, now, m[h])) ==
      if !Throttled(ttl, now, m[h]) && Generations.Len(swept) == 0 then m[h := swept] - {h} else m[h := swept]
  {
    assert m[h := Swept(ttl, now, m[h])] - {h} == m - {h};
  }

  lemma RotatedOrNot(c: Config, m: Torrents.Directory, h: bytes)
    requires h in m && Shape(m[h])
    ensures m[h := Rotated(c, m[h])] == if Full(c, m[h]) then m[h := RotatedAnyway(m[h])] else m
  {
  }

  lemma RecordsAre(ps: seq<Peer>, rs: seq<PeerRecord>)
    requires |ps| == |rs| && forall i :: 0 <= i < |ps| ==> ps[i].Record() == rs[i]
    ensures Records(ps) == rs
  {
  }

  /** One update task with the announced peer, and a delete of expired peers of this torrent if
      any were met: all of them, when the range was not cut short. */
  ghost predicate Leaves(expired: set<bytes>, root: InfoHashRoot, peer: Peer, wasComplete: bool, tasks: seq<Task>) {
    if |tasks| == 1 then
      tasks == [Update(root, peer)] && (wasComplete ==> expired == {})
    else
      && |tasks| == 2 && tasks[0] == Update(root, peer)
      && tasks[1].Expire? && tasks[1].root == root && tasks[1].keys != []
      && SetOf(tasks[1].keys) <= expired
      && (wasComplete ==> SetOf(tasks[1].keys) == expired)
  }

  function PoolTasks(root: InfoHashRoot, peer: Peer, expiredPeer: seq<bytes>): seq<Task> {
    [Update(root, peer)] + if |expiredPeer| > 0 then [Expire(root, expiredPeer)] else []
  }

  lemma LeavesTasks(expired: set<bytes>, root: InfoHashRoot, peer: Peer, wasComplete: bool, keys: seq<bytes>)
    requires SetOf(keys) <= expired && (wasComplete ==> SetOf(keys) == expired)
    ensures Leaves(expired, root, peer, wasComplete, PoolTasks(root, peer, keys))
  {
    assert keys == [] ==> SetOf(keys) == {};
  }

  method NewTorrent(c: Config, peer: Peer, infoHash: bytes, now: int) returns (root: InfoHashRoot)
    requires peer.torrent == infoHash
    ensures fresh(root) && root.infoHash == infoHash && root.Value() == Some(root.contents)
    ensures root.contents == Torrents.FirstSeen(c, peer.Record(), now)
  {
    root := new InfoHashRoot(infoHash, now);
    StoreFresh(NewRoot(now), peer.id, peer.Record());
    RecordFields(peer);
    if IsPeerConnectable(c.useAnnounceIp, peer.Record()) {
      if peer.event != STOPPED {
        var _, _ := root.LoadOrStore(peer.id, peer);
      }
    }
  }

  method NewTorrentWith(peer: Peer, infoHash: bytes, now: int) returns (root: InfoHashRoot)
    requires peer.torrent == infoHash
    ensures fresh(root) && root.infoHash == infoHash && root.Value() == Some(root.contents)
    ensures root.contents == Stored(NewRoot(now), peer.Record().id, peer.Record())
  {
    root := new InfoHashRoot(infoHash, now);
    RecordFields(peer);
    root.StoreSoundly(peer);
  }
}
