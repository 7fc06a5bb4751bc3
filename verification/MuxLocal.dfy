/** MuxLocalManager (biz/services/peer/mux_local/mux_manager.go): torrents spread over local
    managers by info hash, and its refinement to one manager holding them all. */
module MuxLocal {
  import opened Bytes
  import opened Peers
  import opened Generations
  import Torrents

  /** pickWorker: the low 64 bits of the info hash read as one big-endian number, mod the shards. */
  function PickWorker(infoHash: bytes, n: nat): (i: nat)
    requires n > 0
    ensures i < n
  {
    BigEndian(infoHash) % Pow256(8) % n
  }

  lemma {:induction false} PrefixTimesPow(a: bytes, b: bytes)
    requires |b| == 8
    ensures BigEndian(a + b) % Pow256(8) == BigEndian(b)
  {
    BigEndianAppend(a, b);
    BigEndianBound(b);
    assert Pow256(8) * BigEndian(a) == BigEndian(a) * Pow256(8);
    DivModUnique(BigEndian(a + b), Pow256(8), BigEndian(a), BigEndian(b));
  }

  /** Only the last eight bytes decide; a shorter hash counts in full. */
  lemma PickWorkerIsLastEight(infoHash: bytes, n: nat)
    requires n > 0
    ensures PickWorker(infoHash, n) ==
      BigEndian(if |infoHash| >= 8 then infoHash[|infoHash| - 8..] else infoHash) % n
  {
    if |infoHash| >= 8 {
      var k := |infoHash| - 8;
      assert infoHash == infoHash[..k] + infoHash[k..];
      PrefixTimesPow(infoHash[..k], infoHash[k..]);
    } else {
      BigEndianBound(infoHash);
      PowMonotone(|infoHash|, 8);
      SmallMod(BigEndian(infoHash), Pow256(8));
    }
  }

  lemma SmallMod(v: nat, d: nat)
    requires v < d
    ensures v % d == v
  {
  }

  lemma {:induction false} PowMonotone(a: nat, b: nat)
    requires a <= b
    ensures Pow256(a) <= Pow256(b)
  {
    if a < b { PowMonotone(a, b - 1); }
  }

  type Shards = seq<Torrents.Directory>

  /** Each info hash lives only where pickWorker looks for it. */
  ghost predicate Routed(shards: Shards) {
    && |shards| > 0
    && forall i :: 0 <= i < |shards| ==>
         Torrents.Inv(shards[i]) && forall h :: h in shards[i] ==> PickWorker(h, |shards|) == i
  }

  /** The one manager the shards stand for. */
  ghost function Union(shards: Shards): Torrents.Directory {
    if shards == [] then map[] else Union(shards[..|shards| - 1]) + shards[|shards| - 1]
  }

  lemma {:induction false} UnionLookup(shards: Shards, h: bytes, w: nat)
    requires w < |shards| && forall i :: 0 <= i < |shards| && i != w ==> h !in shards[i]
    ensures Torrents.Lookup(Union(shards), h) == Torrents.Lookup(shards[w], h)
  {
    var n := |shards| - 1;
    if w < n {
      UnionLookup(shards[..n], h, w);
    } else {
      UnionAbsent(shards[..n], h);
    }
  }

  lemma {:induction false} UnionAbsent(shards: Shards, h: bytes)
    requires forall i :: 0 <= i < |shards| ==> h !in shards[i]
    ensures h !in Union(shards)
  {
    if shards != [] { UnionAbsent(shards[..|shards| - 1], h); }
  }

  /** Asking the picked worker is asking the one manager. */
  lemma RoutedLookup(shards: Shards, h: bytes)
    requires Routed(shards)
    ensures Torrents.Lookup(Union(shards), h) == Torrents.Lookup(shards[PickWorker(h, |shards|)], h)
  {
    UnionLookup(shards, h, PickWorker(h, |shards|));
  }

  lemma UnionSound(shards: Shards)
    requires Routed(shards)
    ensures Torrents.Inv(Union(shards))
  {
    forall h | h in Union(shards)
      ensures Generations.Inv(Union(shards)[h])
    {
      RoutedLookup(shards, h);
    }
  }

  /** Changing one torrent at its worker changes it in the one manager, and nothing else. */
  lemma RoutedPut(shards: Shards, h: bytes, r: Option<Root>)
    requires Routed(shards) && (r.Some? ==> Generations.Inv(r.value))
    ensures var w := PickWorker(h, |shards|);
      var shards' := shards[w := Torrents.Put(shards[w], h, r)];
      Routed(shards') && Union(shards') == Torrents.Put(Union(shards), h, r)
  {
    var w := PickWorker(h, |shards|);
    var shards' := shards[w := Torrents.Put(shards[w], h, r)];
    var a, b := Union(shards'), Torrents.Put(Union(shards), h, r);
    forall h'
      ensures Torrents.Lookup(a, h') == Torrents.Lookup(b, h')
    {
      RoutedLookup(shards, h');
      RoutedLookup(shards', h');
      Torrents.LookupOfPut(shards[w], h, r, h');
      Torrents.LookupOfPut(Union(shards), h, r, h');
    }
    Torrents.LookupsDetermine(a, b);
  }

  /** An announce looks at and changes only the torrent it names. */
  lemma AnnounceIsLocal(c: Config, a: Torrents.Directory, b: Torrents.Directory, req: AnnounceRequest, now: int, scanTime: int)
    requires Torrents.Inv(a) && Torrents.Inv(b)
    requires Torrents.Lookup(a, req.infoHash) == Torrents.Lookup(b, req.infoHash)
    ensures Torrents.Answer(c, a, req, now, scanTime) == Torrents.Answer(c, b, req, now, scanTime)
    ensures Torrents.Lookup(Torrents.Announced(c, a, req, now), req.infoHash) ==
            Torrents.Lookup(Torrents.Announced(c, b, req, now), req.infoHash)
  {
  }

  lemma KeysAreLocal(c: Config, a: Torrents.Directory, b: Torrents.Directory, req: AnnounceRequest, scanTime: int, replied: nat, expired: seq<bytes>)
    requires Torrents.Inv(a) && Torrents.Inv(b)
    requires Torrents.Lookup(a, req.infoHash) == Torrents.Lookup(b, req.infoHash)
    ensures Torrents.LeavesKeys(c, a, req, scanTime, replied, expired) == Torrents.LeavesKeys(c, b, req, scanTime, replied, expired)
  {
  }

  lemma AnnouncePuts(c: Config, m: Torrents.Directory, req: AnnounceRequest, now: int)
    requires Torrents.Inv(m)
    ensures Torrents.Announced(c, m, req, now) ==
            Torrents.Put(m, req.infoHash, Torrents.Lookup(Torrents.Announced(c, m, req, now), req.infoHash))
  {
    PutSame(m, req.infoHash);
  }

  lemma PutSame(m: Torrents.Directory, h: bytes)
    ensures Torrents.Put(m, h, Torrents.Lookup(m, h)) == m
  {
  }

  // ---------- Over all shards ----------

  lemma UnionSnoc(shards: Shards, i: nat)
    requires i < |shards|
    ensures Union(shards[..i + 1]) == Union(shards[..i]) + shards[i]
  {
    assert shards[..i + 1][..i] == shards[..i];
  }

  /** The shards before i share no torrent with shard i. */
  lemma PrefixApart(shards: Shards, i: nat)
    requires Routed(shards) && i < |shards|
    ensures Union(shards[..i]).Keys !! shards[i].Keys
    ensures Torrents.Inv(Union(shards[..i]))
  {
    forall h | h in Union(shards[..i])
      ensures h !in shards[i] && Generations.Inv(Union(shards[..i])[h])
    {
      var w := PickWorker(h, |shards|);
      if w < i {
        UnionLookup(shards[..i], h, w);
      } else {
        UnionAbsent(shards[..i], h);
      }
    }
  }

  ghost function PairsOf(ks: map<bytes, set<bytes>>): set<(bytes, bytes)> {
    set h, k | h in ks && k in ks[h] :: (h, k)
  }

  ghost function KeysByTorrent(m: Torrents.Directory): map<bytes, set<bytes>> {
    map h | h in m :: Torrents.KeysOf(m[h])
  }

  lemma PairsByTorrent(m: Torrents.Directory)
    ensures PairsOf(KeysByTorrent(m)) == Torrents.AllPairs(m)
  {
  }

  lemma PairsOfUnion(a: map<bytes, set<bytes>>, b: map<bytes, set<bytes>>)
    requires a.Keys !! b.Keys
    ensures PairsOf(a + b) == PairsOf(a) + PairsOf(b) && PairsOf(a) !! PairsOf(b)
  {
  }

  lemma UnionInv(a: Torrents.Directory, b: Torrents.Directory)
    requires Torrents.Inv(a) && Torrents.Inv(b)
    ensures Torrents.Inv(a + b)
  {
    assert forall h :: h in a + b ==> (a + b)[h] == if h in b then b[h] else a[h];
  }

  lemma PairsSplit(a: Torrents.Directory, b: Torrents.Directory)
    requires a.Keys !! b.Keys
    ensures Torrents.AllPairs(a + b) == Torrents.AllPairs(a) + Torrents.AllPairs(b)
    ensures Torrents.AllPairs(a) !! Torrents.AllPairs(b)
  {
    KeysOfUnion(a, b);
    PairsOfUnion(KeysByTorrent(a), KeysByTorrent(b));
    PairsByTorrent(a);
    PairsByTorrent(b);
    PairsByTorrent(a + b);
  }

  lemma KeysOfUnion(a: Torrents.Directory, b: Torrents.Directory)
    ensures KeysByTorrent(a + b) == KeysByTorrent(a) + KeysByTorrent(b)
  {
  }

  /** Totals of disjoint torrent maps add up. */
  lemma TotalsAdd(a: Torrents.Directory, b: Torrents.Directory)
    requires a.Keys !! b.Keys
    ensures |a + b| == |a| + |b|
    ensures |Torrents.AllPairs(a + b)| == |Torrents.AllPairs(a)| + |Torrents.AllPairs(b)|
  {
    DisjointSize(a, b);
    PairsSplit(a, b);
    PartitionSize(Torrents.AllPairs(a), Torrents.AllPairs(b), Torrents.AllPairs(a + b));
  }

  lemma DisjointSize<V>(a: map<bytes, V>, b: map<bytes, V>)
    requires a.Keys !! b.Keys
    ensures |a + b| == |a| + |b|
  {
    assert (a + b).Keys == a.Keys + b.Keys;
    PartitionSize(a.Keys, b.Keys, (a + b).Keys);
  }

  /** Sweeping disjoint torrent maps is sweeping them together. */
  lemma CleanedAdds(ttl: int, now: int, a: Torrents.Directory, b: Torrents.Directory)
    requires Torrents.Inv(a) && Torrents.Inv(b) && a.Keys !! b.Keys && Torrents.Inv(a + b)
    ensures Torrents.Cleaned(ttl, now, a + b) == Torrents.Cleaned(ttl, now, a) + Torrents.Cleaned(ttl, now, b)
  {
    var whole, parts := Torrents.Cleaned(ttl, now, a + b), Torrents.Cleaned(ttl, now, a) + Torrents.Cleaned(ttl, now, b);
    forall h
      ensures Torrents.Lookup(whole, h) == Torrents.Lookup(parts, h)
    {
      Torrents.LookupCleaned(ttl, now, a + b, h);
      Torrents.LookupCleaned(ttl, now, a, h);
      Torrents.LookupCleaned(ttl, now, b, h);
      LookupOfUnion(a, b, h);
      LookupOfUnion(Torrents.Cleaned(ttl, now, a), Torrents.Cleaned(ttl, now, b), h);
    }
    Torrents.LookupsDetermine(whole, parts);
  }

  lemma LookupOfUnion(a: Torrents.Directory, b: Torrents.Directory, h: bytes)
    ensures Torrents.Lookup(a + b, h) == if h in b then Some(b[h]) else Torrents.Lookup(a, h)
  {
  }

  lemma TorrentsStep(shards: Shards, i: nat)
    requires Routed(shards) && i < |shards|
    ensures |Union(shards[..i + 1])| == |Union(shards[..i])| + |shards[i]|
  {
    PrefixApart(shards, i);
    UnionSnoc(shards, i);
    DisjointSize(Union(shards[..i]), shards[i]);
  }

  lemma PeersStep(shards: Shards, i: nat)
    requires Routed(shards) && i < |shards|
    ensures |Torrents.AllPairs(Union(shards[..i + 1]))| ==
            |Torrents.AllPairs(Union(shards[..i]))| + |Torrents.AllPairs(shards[i])|
  {
    PrefixApart(shards, i);
    UnionSnoc(shards, i);
    TotalsAdd(Union(shards[..i]), shards[i]);
  }

  /** GetStatistic of one shard. */
  method ShardStatistic(m: Torrents.Directory) returns (info: (nat, nat))
    requires Torrents.Inv(m)
    ensures info == (|m|, |Torrents.AllPairs(m)|)
  {
    Torrents.SumLenAll(m);
    info := (|m|, Torrents.SumLen(m, Sorted(m.Keys)));
  }

  ghost predicate StatisticsOf(shards: Shards, infos: seq<(nat, nat)>) {
    |infos| == |shards| && forall i :: 0 <= i < |infos| ==> infos[i] == (|shards[i]|, |Torrents.AllPairs(shards[i])|)
  }

  lemma StatisticsSnoc(shards: Shards, infos: seq<(nat, nat)>, i: nat, info: (nat, nat))
    requires i < |shards| && StatisticsOf(shards[..i], infos) && info == (|shards[i]|, |Torrents.AllPairs(shards[i])|)
    ensures StatisticsOf(shards[..i + 1], infos + [info])
  {
  }

  /** The ban lists as the requests find them. */
  datatype Bans = Bans(infoHash: bool, peerId: bool, ip: bool)

  datatype Outcome = BannedInfoHash | BannedPeerId | BannedIp | InvalidAddress | 
    Peers(resp: seq<PeerRecord>, update: Option<PeerRecord>, expired: seq<bytes>)

  /** The scrape of one torrent, at the shard picked for it. */
  function ScrapeOf(shards: Shards, ttl: int, now: int, infoHash: bytes): ScrapeFile
    requires |shards| > 0
  {
    var worker := shards[PickWorker(infoHash, |shards|)];
    if infoHash in worker && Shape(worker[infoHash]) then Tally(ttl, now, RangeUpto(worker[infoHash], 3))
    else ScrapeFile(0, 0, 0, 0)
  }

  lemma ScrapeOfUnion(shards: Shards, ttl: int, now: int, infoHash: bytes)
    requires Routed(shards)
    ensures Torrents.Inv(Union(shards)) && ScrapeOf(shards, ttl, now, infoHash) == Torrents.Scraped(ttl, now, Union(shards), infoHash)
  {
    UnionSound(shards);
    RoutedLookup(shards, infoHash);
    var worker := shards[PickWorker(infoHash, |shards|)];
    if infoHash in worker { TallyAll(ttl, now, worker[infoHash]); }
  }

  class MuxLocalManager {
    var localList: Shards

    ghost predicate Valid()
      reads this
    {
      Routed(localList)
    }

    constructor (num: nat)
      requires num > 0
      ensures Valid() && |localList| == num && Union(localList) == map[]
    {
      localList := seq(num, _ => map[]);
      new;
      if Union(localList) != map[] {
        var h :| h in Union(localList);
        RoutedLookup(localList, h);
      }
    }

    method HandleAnnouncePeer(c: Config, bans: Bans, req: AnnounceRequest, now: int, scanTime: int) returns (r: Outcome)
      requires Valid()
      modifies this
      ensures Valid() && |localList| == old(|localList|) && Torrents.Inv(Union(old(localList)))
      ensures r.BannedInfoHash? <==> bans.infoHash
      ensures r.BannedPeerId? <==> !bans.infoHash && bans.peerId
      ensures r.BannedIp? <==> !bans.infoHash && !bans.peerId && req.clientIp.Some? && bans.ip
      ensures r.InvalidAddress? || r.Peers? ==>
        && (r.InvalidAddress? <==> Peers.InvalidAddress(req))
        && Union(localList) == Torrents.Announced(c, Union(old(localList)), req, now)
        && Torrents.Inv(Union(localList)) && Torrents.AtOnce(c, Union(old(localList)), Union(localList), req, now)
        && (r.Peers? ==> r.resp == Torrents.Answer(c, Union(old(localList)), req, now, scanTime))
        && (r.Peers? ==> r.update == if Torrents.Active(Union(old(localList)), req) then Some(PeerOf(req, now)) else None)
        && (r.Peers? ==> Torrents.LeavesKeys(c, Union(old(localList)), req, scanTime, |r.resp|, r.expired))
      ensures !(r.InvalidAddress? || r.Peers?) ==> localList == old(localList)
    {
      UnionSound(localList);
      if bans.infoHash { return BannedInfoHash; }
      if bans.peerId { return BannedPeerId; }
      if req.clientIp.Some? && bans.ip { return BannedIp; }
      var worker := PickWorker(req.infoHash, |localList|);
      ghost var shards := localList;
      var before := localList[worker];
      var resp, expired := Torrents.ListPeers(c, before, req, now, scanTime);
      var after := Torrents.Announced(c, before, req, now);
      RoutedLookup(shards, req.infoHash);
      KeysAreLocal(c, before, Union(shards), req, scanTime, |resp|, expired);
      AnnounceIsLocal(c, before, Union(shards), req, now, scanTime);
      AnnouncePuts(c, before, req, now);
      AnnouncePuts(c, Union(shards), req, now);
      Torrents.AnnouncedExactly(c, Union(shards), req, now);
      Torrents.AnnouncedKeepsInv(c, before, req, now);
      RoutedPut(shards, req.infoHash, Torrents.Lookup(after, req.infoHash));
      localList := localList[worker := after];
      if Peers.InvalidAddress(req) { return InvalidAddress; }
      return Peers(resp, if Torrents.Active(before, req) then Some(PeerOf(req, now)) else None, expired);
    }

    /** The counts, and the keys of the expiry task left to the pool. */
    method Scrape(infoHash: bytes, ttl: int, now: int) returns (file: ScrapeFile, expired: seq<bytes>)
      requires Valid()
      ensures Torrents.Inv(Union(localList)) && file == Torrents.Scraped(ttl, now, Union(localList), infoHash)
      ensures Torrents.CountedAs(Union(localList), infoHash, ttl, now, file)
      ensures infoHash !in Union(localList) ==> expired == []
      ensures infoHash in Union(localList) ==>
        SetOf(expired) == ExpiredIn(ttl, now, Union(localList)[infoHash]) && |expired| == |SetOf(expired)|
    {
      UnionSound(localList);
      Torrents.ScrapedExactly(ttl, now, Union(localList), infoHash);
      RoutedLookup(localList, infoHash);
      var worker := localList[PickWorker(infoHash, |localList|)];
      if infoHash !in worker { return ScrapeFile(0, 0, 0, 0), []; }
      TallyAll(ttl, now, worker[infoHash]);
      LapsedKeysAll(ttl, now, worker[infoHash]);
      var passed := RangeUpto(worker[infoHash], 3);
      return Tally(ttl, now, passed), LapsedKeys(ttl, now, passed);
    }

    /** All stored peers of a torrent, in range order. */
    method GetPeers(infoHash: bytes) returns (peers: seq<PeerRecord>)
      requires Valid()
      ensures DistinctIds(peers)
      ensures forall p :: p in peers <==>
        infoHash in Union(localList) && Shape(Union(localList)[infoHash]) &&
        p.id in AsMap(Union(localList)[infoHash]) && AsMap(Union(localList)[infoHash])[p.id] == p
    {
      RoutedLookup(localList, infoHash);
      var worker := localList[PickWorker(infoHash, |localList|)];
      if infoHash !in worker { return []; }
      RangeVisitsOnce(worker[infoHash]);
      return RangeOrder(worker[infoHash]);
    }

    /** Also what remains of BanInfoHash once the hash is on the ban list. */
    method DeleteInfoHash(infoHash: bytes)
      requires Valid()
      modifies this
      ensures Valid() && |localList| == old(|localList|)
      ensures Union(localList) == Union(old(localList)) - {infoHash}
    {
      var worker := PickWorker(infoHash, |localList|);
      RoutedPut(localList, infoHash, None);
      localList := localList[worker := localList[worker] - {infoHash}];
    }

    /** The totals over the shards are those of the one manager; shards has each shard's own. */
    method GetStatistic() returns (totalTorrents: nat, totalPeers: nat, shards: seq<(nat, nat)>)
      requires Valid()
      ensures totalTorrents == |Union(localList)|
      ensures totalPeers == |Torrents.AllPairs(Union(localList))|
      ensures StatisticsOf(localList, shards)
    {
      totalTorrents, totalPeers, shards := 0, 0, [];
      for i := 0 to |localList|
        invariant totalTorrents == |Union(localList[..i])|
        invariant totalPeers == |Torrents.AllPairs(Union(localList[..i]))|
        invariant StatisticsOf(localList[..i], shards)
      {
        TorrentsStep(localList, i);
        PeersStep(localList, i);
        var info := ShardStatistic(localList[i]);
        StatisticsSnoc(localList, shards, i, info);
        totalTorrents := totalTorrents + info.0;
        totalPeers := totalPeers + info.1;
        shards := shards + [info];
      }
      assert localList[..|localList|] == localList;
    }

    /** Sweeping shard by shard sweeps the one manager; the total is the drop in stored peers. */
    method Clean(ttl: int, now: int) returns (total: int)
      requires Valid()
      modifies this
      ensures Valid() && Torrents.Inv(Union(old(localList)))
      ensures Union(localList) == Torrents.Cleaned(ttl, now, Union(old(localList)))
      ensures total == |Torrents.AllPairs(Union(old(localList)))| - |Torrents.AllPairs(Union(localList))|
    {
      ghost var was := localList;
      total := 0;
      for i := 0 to |localList|
        invariant Routed(localList) && |localList| == |was|
        invariant forall j :: i <= j < |was| ==> localList[j] == was[j]
        invariant Torrents.Inv(Union(was[..i])) && Torrents.Inv(Union(localList[..i]))
        invariant Union(localList[..i]) == Torrents.Cleaned(ttl, now, Union(was[..i]))
        invariant total == |Torrents.AllPairs(Union(was[..i]))| - |Torrents.AllPairs(Union(localList[..i]))|
      {
        var swept, count := Torrents.Clean(localList[i], ttl, now);
        CleanStep(ttl, now, was, localList, i, swept);
        localList := localList[i := swept];
        total := total + count;
      }
      assert localList[..|localList|] == localList && was[..|was|] == was;
    }
  }

  lemma RoutedCleaned(ttl: int, now: int, shards: Shards, i: nat, swept: Torrents.Directory)
    requires Routed(shards) && i < |shards| && Torrents.Inv(swept) && swept.Keys <= shards[i].Keys
    ensures Routed(shards[i := swept])
  {
  }

  lemma CleanStep(ttl: int, now: int, was: Shards, shards: Shards, i: nat, swept: Torrents.Directory)
    requires Routed(was) && Routed(shards) && |shards| == |was| && i < |was| && shards[i] == was[i]
    requires swept == Torrents.Cleaned(ttl, now, was[i]) && Torrents.Inv(swept)
    requires Torrents.Inv(Union(was[..i])) && Torrents.Inv(Union(shards[..i]))
    requires Union(shards[..i]) == Torrents.Cleaned(ttl, now, Union(was[..i]))
    ensures var next := shards[i := swept];
      && Routed(next)
      && Torrents.Inv(Union(was[..i + 1])) && Torrents.Inv(Union(next[..i + 1]))
      && Union(next[..i + 1]) == Torrents.Cleaned(ttl, now, Union(was[..i + 1]))
      && |Torrents.AllPairs(Union(was[..i + 1]))| == |Torrents.AllPairs(Union(was[..i]))| + |Torrents.AllPairs(was[i])|
      && |Torrents.AllPairs(Union(next[..i + 1]))| == |Torrents.AllPairs(Union(shards[..i]))| + |Torrents.AllPairs(swept)|
  {
    var next := shards[i := swept];
    assert next[..i] == shards[..i];
    RoutedCleaned(ttl, now, shards, i, swept);
    PrefixApart(was, i);
    PrefixApart(next, i);
    UnionSnoc(was, i);
    UnionSnoc(next, i);
    var a, b, d := Union(was[..i]), was[i], Union(shards[..i]);
    UnionInv(a, b);
    UnionInv(d, swept);
    TotalsAdd(a, b);
    TotalsAdd(d, swept);
    CleanedAdds(ttl, now, a, b);
  }
}
