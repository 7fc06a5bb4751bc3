/** Saving all shards and loading the files into any number of shards: what comes back. */
module Resharding {
  import opened Bytes
  import opened Peers
  import opened Generations
  import opened Adaptor
  import opened Frames
  import opened Persist
  import opened BufferedReader
  import Torrents
  import opened MuxLocal

  // ---------- Saving ----------

  function RecordsOf(h: bytes, ps: seq<PeerRecord>): (rs: seq<StoreRecord>)
    ensures |rs| == |ps|
    ensures forall i :: 0 <= i < |ps| ==> rs[i] == StoreRecord(h, PeerCommonToIDL(ps[i]))
  {
    seq(|ps|, i requires 0 <= i < |ps| => StoreRecord(h, PeerCommonToIDL(ps[i])))
  }

  /** The records of these torrents, each torrent's peers in range order. */
  function RecordsUpto(m: Torrents.Directory, hs: seq<bytes>): seq<StoreRecord>
    requires forall h :: h in hs ==> h in m && Shape(m[h])
  {
    if hs == [] then [] else
      var h := hs[|hs| - 1];
      RecordsUpto(m, hs[..|hs| - 1]) + RecordsOf(h, RangeOrder(m[h]))
  }

  function AllRecords(m: Torrents.Directory): seq<StoreRecord>
    requires forall h :: h in m ==> Shape(m[h])
  {
    RecordsUpto(m, Sorted(m.Keys))
  }

  lemma {:induction false} FileOfAppend(codec: Codec, a: seq<StoreRecord>, b: seq<StoreRecord>)
    ensures FileOf(codec, a + b) == FileOf(codec, a) + FileOf(codec, b)
  {
    if a == [] {
      assert a + b == b;
    } else {
      assert (a + b)[1..] == a[1..] + b;
      FileOfAppend(codec, a[1..], b);
    }
  }

  lemma FileUptoSnoc(codec: Codec, m: Torrents.Directory, hs: seq<bytes>, i: nat)
    requires i < |hs| && forall h :: h in hs ==> h in m && Shape(m[h])
    ensures var here := RecordsOf(hs[i], RangeOrder(m[hs[i]]));
      && FileOf(codec, RecordsUpto(m, hs[..i + 1])) == FileOf(codec, RecordsUpto(m, hs[..i])) + FileOf(codec, here)
      && |RecordsUpto(m, hs[..i + 1])| == |RecordsUpto(m, hs[..i])| + |here|
  {
    assert hs[..i + 1][..i] == hs[..i];
    FileOfAppend(codec, RecordsUpto(m, hs[..i]), RecordsOf(hs[i], RangeOrder(m[hs[i]])));
  }

  /** The writer's loops for one shard. */
  method StoreFile(codec: Codec, m: Torrents.Directory) returns (file: bytes, count: nat)
    requires forall h :: h in m ==> Shape(m[h])
    ensures file == FileOf(codec, AllRecords(m)) && count == |AllRecords(m)|
  {
    file, count := [], 0;
    var hs := Sorted(m.Keys);
    for i := 0 to |hs|
      invariant file == FileOf(codec, RecordsUpto(m, hs[..i])) && count == |RecordsUpto(m, hs[..i])|
    {
      assert hs[i] in hs;
      FileUptoSnoc(codec, m, hs, i);
      var written, n := StoreTorrent(codec, hs[i], RangeOrder(m[hs[i]]));
      file, count := file + written, count + n;
    }
    assert hs[..|hs|] == hs;
  }

  method StoreTorrent(codec: Codec, h: bytes, ps: seq<PeerRecord>) returns (file: bytes, count: nat)
    ensures file == FileOf(codec, RecordsOf(h, ps)) && count == |ps|
  {
    file, count := [], 0;
    for j := 0 to |ps|
      invariant file == FileOf(codec, RecordsOf(h, ps)[..j]) && count == j
    {
      var obj := StoreRecord(h, PeerCommonToIDL(ps[j]));
      var c := codec.encode(obj);
      assert RecordsOf(h, ps)[..j + 1] == RecordsOf(h, ps)[..j] + [obj];
      FileOfAppend(codec, RecordsOf(h, ps)[..j], [obj]);
      assert FileOf(codec, [obj]) == Frame(codec, obj) + FileOf(codec, []);
      file := file + PutLittle(|c|, 4) + c;
      count := count + 1;
    }
    assert RecordsOf(h, ps)[..|ps|] == RecordsOf(h, ps);
  }

  /** What is stored under a torrent and a peer id. */
  function At(m: Torrents.Directory, h: bytes, k: bytes): Option<PeerRecord> {
    if h in m && Shape(m[h]) && k in AsMap(m[h]) then Some(AsMap(m[h])[k]) else None
  }

  /** This record is a stored peer of its torrent. */
  ghost predicate Records(m: Torrents.Directory, x: StoreRecord)
    requires Torrents.Inv(m)
  {
    At(m, x.infoHash, x.peer.id).Some? && x.peer == PeerCommonToIDL(At(m, x.infoHash, x.peer.id).value)
  }

  lemma RecordsOfMember(m: Torrents.Directory, h: bytes, x: StoreRecord)
    requires Torrents.Inv(m) && h in m
    ensures x in RecordsOf(h, RangeOrder(m[h])) <==> x.infoHash == h && Records(m, x)
  {
    RangeVisitsOnce(m[h]);
    AsMapOwnIds(m[h]);
    MemberOf(h, RangeOrder(m[h]), AsMap(m[h]), x);
  }

  lemma MemberOf(h: bytes, ps: seq<PeerRecord>, stored: PeerMap, x: StoreRecord)
    requires OwnIds(stored) && forall p :: p in ps <==> p.id in stored && stored[p.id] == p
    ensures x in RecordsOf(h, ps) <==> x.infoHash == h && x.peer.id in stored && x.peer == PeerCommonToIDL(stored[x.peer.id])
  {
    if x.infoHash == h && x.peer.id in stored && x.peer == PeerCommonToIDL(stored[x.peer.id]) {
      assert stored[x.peer.id] in ps;
      var i :| 0 <= i < |ps| && ps[i] == stored[x.peer.id];
      assert RecordsOf(h, ps)[i] == x;
    }
    if x in RecordsOf(h, ps) {
      var i :| 0 <= i < |ps| && RecordsOf(h, ps)[i] == x;
      assert ps[i] in ps;
    }
  }

  lemma JoinMembership(before: seq<StoreRecord>, here: seq<StoreRecord>, hs: seq<bytes>, x: StoreRecord, stored: bool)
    requires hs != []
    requires x in before <==> x.infoHash in hs[..|hs| - 1] && stored
    requires x in here <==> x.infoHash == hs[|hs| - 1] && stored
    ensures x in before + here <==> x.infoHash in hs && stored
  {
    assert hs == hs[..|hs| - 1] + [hs[|hs| - 1]];
  }

  lemma {:induction false} RecordsMembership(m: Torrents.Directory, hs: seq<bytes>, x: StoreRecord)
    requires Torrents.Inv(m) && forall h :: h in hs ==> h in m
    ensures x in RecordsUpto(m, hs) <==> x.infoHash in hs && Records(m, x)
  {
    if hs != [] {
      var n := |hs| - 1;
      RecordsMembership(m, hs[..n], x);
      RecordsOfMember(m, hs[n], x);
      JoinMembership(RecordsUpto(m, hs[..n]), RecordsOf(hs[n], RangeOrder(m[hs[n]])), hs, x, Records(m, x));
    }
  }

  /** A shard's file holds one record for each stored peer, and nothing else. */
  lemma AllRecordsMembership(m: Torrents.Directory, x: StoreRecord)
    requires Torrents.Inv(m)
    ensures x in AllRecords(m) <==> Records(m, x)
  {
    RecordsMembership(m, Sorted(m.Keys), x);
  }

  // ---------- Loading ----------

  /** Before any rotation everything is in generation 0. */
  ghost predicate Unrotated(m: Torrents.Directory) {
    forall h :: h in m ==> InFirst(m[h])
  }

  ghost predicate InFirst(r: Root) {
    Generations.Inv(r) && r.active == 0 && r.gens[1] == map[] && r.gens[2] == map[]
  }

  lemma StoreInFirst(r: Root, p: PeerRecord)
    requires InFirst(r)
    ensures InFirst(Stored(r, p.id, p)) && AsMap(Stored(r, p.id, p)) == AsMap(r)[p.id := p]
  {
  }

  lemma DirectStoreKeeps(m: Torrents.Directory, h: bytes, p: PeerRecord, now: int)
    requires Unrotated(m)
    ensures Torrents.Inv(m) && Unrotated(Torrents.DirectlyStored(m, h, p, now))
    ensures forall h', k' :: At(Torrents.DirectlyStored(m, h, p, now), h', k') == (if h' == h && k' == p.id then Some(p) else At(m, h', k'))
  {
    StoreInFirst(if h in m then m[h] else NewRoot(now), p);
  }

  /** The peer the latest of these records restores under a torrent and a peer id. */
  function Restored(order: seq<StoreRecord>, h: bytes, k: bytes): Option<PeerRecord> {
    if order == [] then None else
      var n := |order| - 1;
      if order[n].infoHash == h && order[n].peer.id == k then Some(PeerIDLToCommon(order[n].peer))
      else Restored(order[..n], h, k)
  }

  lemma RestoredSnoc(order: seq<StoreRecord>, i: nat, h: bytes, k: bytes)
    requires i < |order|
    ensures Restored(order[..i + 1], h, k) ==
      (if order[i].infoHash == h && order[i].peer.id == k then Some(PeerIDLToCommon(order[i].peer)) else Restored(order[..i], h, k))
  {
    assert order[..i + 1][..i] == order[..i];
  }

  /** One DirectStore on the manager pickWorker names is one on the union. */
  lemma RoutedStore(shards: Shards, h: bytes, p: PeerRecord, now: int)
    requires Routed(shards) && Unrotated(Union(shards))
    ensures var w := PickWorker(h, |shards|);
      && Torrents.Inv(Union(shards))
      && Routed(shards[w := Torrents.DirectlyStored(shards[w], h, p, now)])
      && Union(shards[w := Torrents.DirectlyStored(shards[w], h, p, now)]) == Torrents.DirectlyStored(Union(shards), h, p, now)
  {
    var w := PickWorker(h, |shards|);
    RoutedLookup(shards, h);
    DirectStoreKeeps(Union(shards), h, p, now);
    var r := Stored(if h in shards[w] then shards[w][h] else NewRoot(now), p.id, p);
    StoreInFirst(if h in Union(shards) then Union(shards)[h] else NewRoot(now), p);
    RoutedPut(shards, h, Some(r));
  }

  /** All DirectStore calls of a start with so many shards, in the order the loads make them. */
  method DirectStoreAll(order: seq<StoreRecord>, num: nat, now: int) returns (localList: Shards)
    requires num > 0
    ensures |localList| == num && Routed(localList)
    ensures forall h, k :: At(Union(localList), h, k) == Restored(order, h, k)
  {
    localList := seq(num, _ => map[]);
    NothingStored(localList);
    for i := 0 to |order|
      invariant |localList| == num && Routed(localList) && Unrotated(Union(localList))
      invariant forall h, k :: At(Union(localList), h, k) == Restored(order[..i], h, k)
    {
      var infoHash, peer := order[i].infoHash, PeerIDLToCommon(order[i].peer);
      RoutedStore(localList, infoHash, peer, now);
      DirectStoreKeeps(Union(localList), infoHash, peer, now);
      var worker := PickWorker(infoHash, num);
      var root := if infoHash in localList[worker] then localList[worker][infoHash] else NewRoot(now);
      localList := localList[worker := localList[worker][infoHash := Stored(root, peer.id, peer)]];
      forall h, k
        ensures At(Union(localList), h, k) == Restored(order[..i + 1], h, k)
      {
        RestoredSnoc(order, i, h, k);
      }
    }
    assert order[..|order|] == order;
  }

  lemma {:induction false} NothingStored(shards: Shards)
    requires forall i :: 0 <= i < |shards| ==> shards[i] == map[]
    ensures Union(shards) == map[]
  {
    if shards != [] { NothingStored(shards[..|shards| - 1]); }
  }

  // ---------- Save, then load ----------

  /** Each goroutine reads its own clock once, then loads its file. */
  function Given(codec: Codec, files: seq<bytes>, ttl: int, nows: seq<int>, i: nat): seq<StoreRecord>
    requires i < |files| == |nows|
  {
    Surviving(ttl, nows[i], Parse(codec.decode, files[i]).records)
  }

  /** Any interleaving of the goroutines' DirectStore calls makes just the calls of the files. */
  ghost predicate CallsOf(order: seq<StoreRecord>, codec: Codec, files: seq<bytes>, ttl: int, nows: seq<int>)
    requires |files| == |nows|
  {
    CallsUpto(order, codec, files, ttl, nows, |files|)
  }

  ghost predicate CallsUpto(order: seq<StoreRecord>, codec: Codec, files: seq<bytes>, ttl: int, nows: seq<int>, n: nat)
    requires n <= |files| == |nows|
  {
    forall x :: x in order <==> exists i :: 0 <= i < n && x in Given(codec, files, ttl, nows, i)
  }

  lemma CallsMore(order: seq<StoreRecord>, codec: Codec, files: seq<bytes>, ttl: int, nows: seq<int>, n: nat)
    requires n < |files| == |nows| && CallsUpto(order, codec, files, ttl, nows, n)
    ensures CallsUpto(order + Given(codec, files, ttl, nows, n), codec, files, ttl, nows, n + 1)
  {
    forall x
      ensures x in order + Given(codec, files, ttl, nows, n) <==> exists i :: 0 <= i < n + 1 && x in Given(codec, files, ttl, nows, i)
    {
      if x in Given(codec, files, ttl, nows, n) {
      } else {
        assert x in order + Given(codec, files, ttl, nows, n) <==> x in order;
      }
    }
  }

  /** What should become of a stored peer. */
  function Expected(found: Option<PeerRecord>, ttl: int, now: int): Option<PeerRecord> {
    if found.None? || WholeSeconds(found.value.lastSeen) + ttl < now then None
    else Some(PeerIDLToCommon(PeerCommonToIDL(found.value)))
  }

  /** The same, field by field: a peer whose time, cut to the second, is not past the TTL comes back with
      that time and without its socket, and with its port if that fits 32 bits. */
  ghost predicate ComesBack(found: Option<PeerRecord>, ttl: int, now: int, back: Option<PeerRecord>) {
    if found.None? || found.value.lastSeen / 1_000_000_000 * 1_000_000_000 + ttl < now then back.None?
    else
      && back.Some?
      && back.value == found.value.(lastSeen := found.value.lastSeen / 1_000_000_000 * 1_000_000_000, conn := None, port := back.value.port)
      && (-0x8000_0000 <= found.value.port < 0x8000_0000 ==> back.value.port == found.value.port)
  }

  lemma ExpectedMeaning(found: Option<PeerRecord>, ttl: int, now: int)
    ensures ComesBack(found, ttl, now, Expected(found, ttl, now))
  {
    if found.Some? {
      var p := found.value;
      CastsInvert(p.left, p.event);
      CastsInvert(p.uploaded, p.typ);
      CastsInvert(p.downloaded, p.source);
      Int32Exact(p.port);
    }
  }

  lemma WholeFile(codec: Codec, rs: seq<StoreRecord>)
    requires forall x :: x in rs ==> Fits(codec, x)
    ensures Parse(codec.decode, FileOf(codec, rs)) == Loaded(rs, EndOfFile)
  {
    var file := FileOf(codec, rs);
    assert file[..|file|] == file;
    TruncationSafe(codec, rs, |file|);
  }

  /** Each shard's file is complete, and every record fits the read buffers. */
  ghost predicate SavedAs(codec: Codec, saved: Shards, files: seq<bytes>) {
    && Routed(saved) && |files| == |saved|
    && forall i :: 0 <= i < |saved| ==>
         files[i] == FileOf(codec, AllRecords(saved[i])) && forall r :: r in AllRecords(saved[i]) ==> Fits(codec, r)
  }

  lemma GivenMeaning(codec: Codec, saved: Shards, files: seq<bytes>, ttl: int, nows: seq<int>, i: nat, x: StoreRecord)
    requires SavedAs(codec, saved, files) && |files| == |nows| && i < |saved|
    ensures x in Given(codec, files, ttl, nows, i) <==> Survives(ttl, nows[i], x) && Records(saved[i], x)
  {
    WholeFile(codec, AllRecords(saved[i]));
    AllRecordsMembership(saved[i], x);
  }

  lemma CallMeaning(codec: Codec, saved: Shards, files: seq<bytes>, ttl: int, nows: seq<int>, order: seq<StoreRecord>, x: StoreRecord)
    requires SavedAs(codec, saved, files) && |files| == |nows| && CallsOf(order, codec, files, ttl, nows)
    ensures x in order <==>
      Survives(ttl, nows[PickWorker(x.infoHash, |saved|)], x) && Records(saved[PickWorker(x.infoHash, |saved|)], x)
  {
    var w := PickWorker(x.infoHash, |saved|);
    forall i | 0 <= i < |saved|
      ensures x in Given(codec, files, ttl, nows, i) <==> Survives(ttl, nows[i], x) && i == w && Records(saved[w], x)
    {
      GivenMeaning(codec, saved, files, ttl, nows, i, x);
    }
  }

  lemma {:induction false} RestoredFrom(order: seq<StoreRecord>, h: bytes, k: bytes)
    ensures match Restored(order, h, k)
      case None => forall x :: x in order ==> (x.infoHash, x.peer.id) != (h, k)
      case Some(p) => exists x :: x in order && x.infoHash == h && x.peer.id == k && p == PeerIDLToCommon(x.peer)
  {
    if order != [] {
      var n := |order| - 1;
      assert order == order[..n] + [order[n]];
      RestoredFrom(order[..n], h, k);
      assert order[n] in order;
    }
  }

  /** The records with a key are those of one stored peer, unless it has expired. */
  lemma RestoredIs(order: seq<StoreRecord>, found: Option<PeerRecord>, ttl: int, now: int, h: bytes, k: bytes)
    requires found.Some? ==> found.value.id == k
    requires forall x: StoreRecord :: x.infoHash == h && x.peer.id == k ==>
      (x in order <==> Survives(ttl, now, x) && found.Some? && x.peer == PeerCommonToIDL(found.value))
    ensures Restored(order, h, k) == Expected(found, ttl, now)
  {
    RestoredFrom(order, h, k);
    if found.Some? {
      assert StoreRecord(h, PeerCommonToIDL(found.value)).peer.id == k;
    }
  }

  /** Saving with n shards and starting with any number of shards keeps the torrents' peers:
      whatever the order of the files and the interleaving of their loads, what is found under a
      torrent and a peer id is the saved peer with its time cut to the second, its socket dropped
      and its port cast, unless that time had expired when the file was opened. */
  lemma SaveThenLoad(codec: Codec, saved: Shards, files: seq<bytes>, ttl: int, nows: seq<int>, order: seq<StoreRecord>, h: bytes, k: bytes)
    requires SavedAs(codec, saved, files) && |files| == |nows| && CallsOf(order, codec, files, ttl, nows)
    ensures Restored(order, h, k) == Expected(At(Union(saved), h, k), ttl, nows[PickWorker(h, |saved|)])
  {
    var w := PickWorker(h, |saved|);
    SameAt(saved, h, k);
    forall x: StoreRecord | x.infoHash == h && x.peer.id == k
      ensures x in order <==>
        Survives(ttl, nows[w], x) && At(saved[w], h, k).Some? && x.peer == PeerCommonToIDL(At(saved[w], h, k).value)
    {
      CallMeaning(codec, saved, files, ttl, nows, order, x);
    }
    RestoredIs(order, At(saved[w], h, k), ttl, nows[w], h, k);
  }

  lemma SameAt(saved: Shards, h: bytes, k: bytes)
    requires Routed(saved)
    ensures var w := PickWorker(h, |saved|);
      && At(Union(saved), h, k) == At(saved[w], h, k)
      && (At(saved[w], h, k).Some? ==> At(saved[w], h, k).value.id == k)
  {
    RoutedLookup(saved, h);
    var w := PickWorker(h, |saved|);
    assert Torrents.Lookup(Union(saved), h) == Torrents.Lookup(saved[w], h);
    if h in saved[w] { AsMapOwnIds(saved[w][h]); }
  }

  /** A start that makes these DirectStore calls, in any order the goroutines happen to make them:
      the managers it leaves hold what was saved. */
  method LoadInOrder(codec: Codec, saved: Shards, files: seq<bytes>, ttl: int, nows: seq<int>,
                     order: seq<StoreRecord>, num: nat, now: int) returns (localList: Shards)
    requires SavedAs(codec, saved, files) && |files| == |nows| && CallsOf(order, codec, files, ttl, nows) && num > 0
    ensures |localList| == num && Routed(localList)
    ensures forall h, k :: At(Union(localList), h, k) == Expected(At(Union(saved), h, k), ttl, nows[PickWorker(h, |saved|)])
    ensures forall h, k :: ComesBack(At(Union(saved), h, k), ttl, nows[PickWorker(h, |saved|)], At(Union(localList), h, k))
  {
    localList := DirectStoreAll(order, num, now);
    forall h, k
      ensures At(Union(localList), h, k) == Expected(At(Union(saved), h, k), ttl, nows[PickWorker(h, |saved|)])
    {
      SaveThenLoad(codec, saved, files, ttl, nows, order, h, k);
    }
    forall h, k
      ensures ComesBack(At(Union(saved), h, k), ttl, nows[PickWorker(h, |saved|)], At(Union(localList), h, k))
    {
      ExpectedMeaning(At(Union(saved), h, k), ttl, nows[PickWorker(h, |saved|)]);
    }
  }

  /** StoreToPersist over all shards. */
  method SaveFiles(codec: Codec, localList: Shards) returns (files: seq<bytes>)
    requires Routed(localList)
    ensures |files| == |localList|
    ensures forall i :: 0 <= i < |files| ==> files[i] == FileOf(codec, AllRecords(localList[i]))
  {
    files := [];
    for i := 0 to |localList|
      invariant |files| == i
      invariant forall j :: 0 <= j < i ==> files[j] == FileOf(codec, AllRecords(localList[j]))
    {
      var file, _ := StoreFile(codec, localList[i]);
      files := files + [file];
    }
  }

  /** Loading every file, one after the other; a panic in one ends the process and all loads. */
  method LoadFiles(codec: Codec, files: seq<bytes>, ttl: int, nows: seq<int>) returns (order: Option<seq<StoreRecord>>)
    requires |files| == |nows|
    ensures order.None? <==> exists i :: 0 <= i < |files| && Parse(codec.decode, files[i]).status == Panicked
    ensures order.Some? ==> CallsOf(order.value, codec, files, ttl, nows)
  {
    var calls: seq<StoreRecord> := [];
    for i := 0 to |files|
      invariant forall j :: 0 <= j < i ==> Parse(codec.decode, files[j]).status != Panicked
      invariant CallsUpto(calls, codec, files, ttl, nows, i)
    {
      var reader := new Reader(files[i]);
      var stored, _, status := LoadFile(codec.decode, reader, ttl, nows[i]);
      if status == Panicked {
        return None;
      }
      assert stored == Given(codec, files, ttl, nows, i);
      CallsMore(calls, codec, files, ttl, nows, i);
      calls := calls + stored;
    }
    return Some(calls);
  }

  /** A whole restart: save every shard, load every file, with any number of shards afterwards. */
  method Restart(codec: Codec, saved: Shards, ttl: int, nows: seq<int>, num: nat, now: int) returns (localList: Shards)
    requires Routed(saved) && |nows| == |saved| && num > 0
    requires forall i :: 0 <= i < |saved| ==> forall r :: r in AllRecords(saved[i]) ==> Fits(codec, r)
    ensures |localList| == num && Routed(localList)
    ensures forall h, k :: At(Union(localList), h, k) == Expected(At(Union(saved), h, k), ttl, nows[PickWorker(h, |saved|)])
    ensures forall h, k :: ComesBack(At(Union(saved), h, k), ttl, nows[PickWorker(h, |saved|)], At(Union(localList), h, k))
  {
    var files := SaveFiles(codec, saved);
    var order := LoadFiles(codec, files, ttl, nows);
    assert order.Some? by {
      forall i | 0 <= i < |files|
        ensures Parse(codec.decode, files[i]).status != Panicked
      {
        WholeFile(codec, AllRecords(saved[i]));
      }
    }
    localList := LoadInOrder(codec, saved, files, ttl, nows, order.value, num, now);
  }
}
