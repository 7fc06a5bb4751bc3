/** The torrents of one local manager as a value: what local.Manager's methods compute. */
module Torrents {
  import opened Bytes
  import opened Peers
  import opened Generations

  type Directory = map<bytes, Root>

  ghost predicate Inv(m: Directory) {
    forall h :: h in m ==> Generations.Inv(m[h])
  }

  function Lookup(m: Directory, h: bytes): Option<Root> {
    if h in m then Some(m[h]) else None
  }

  function Put(m: Directory, h: bytes, r: Option<Root>): Directory {
    if r.Some? then m[h := r.value] else m - {h}
  }

  /** The store the first announce of a torrent creates. */
  function FirstSeen(c: Config, p: PeerRecord, now: int): Root {
    if IsPeerConnectable(c.useAnnounceIp, p) && p.event != STOPPED then StoredIfAbsent(NewRoot(now), p.id, p)
    else NewRoot(now)
  }

  /** The synchronous effect of an announce: an unknown torrent is created with the peer, a stop
      removes the peer, anything else makes only the rotation check and leaves the peer to a task. */
  function Announced(c: Config, m: Directory, req: AnnounceRequest, now: int): Directory
    requires Inv(m)
  {
    var p := PeerOf(req, now);
    if InvalidAddress(req) then m
    else if req.infoHash !in m then
      m[req.infoHash := FirstSeen(c, p, now)]
    else if p.event == STOPPED then m[req.infoHash := Removed(m[req.infoHash], p.id)]
    else m[req.infoHash := Rotated(c, m[req.infoHash])]
  }

  /** An announce that is answered and leaves an update task. */
  predicate Active(m: Directory, req: AnnounceRequest) {
    !InvalidAddress(req) && req.infoHash in m && ParsePeerEvent(req.event) != STOPPED
  }

  function Answer(c: Config, m: Directory, req: AnnounceRequest, now: int, scanTime: int): seq<PeerRecord>
    requires Inv(m)
  {
    if Active(m, req) then Reply(c.ttl, scanTime, PeerOf(req, now), req.numWant, m[req.infoHash]) else []
  }

  ghost function Scraped(ttl: int, now: int, m: Directory, infoHash: bytes): ScrapeFile
    requires Inv(m)
  {
    if infoHash in m then Counts(ttl, now, AsMap(m[infoHash])) else ScrapeFile(0, 0, 0, 0)
  }

  /** Start-up loading puts a peer straight into the active generation. */
  ghost function DirectlyStored(m: Directory, infoHash: bytes, p: PeerRecord, now: int): Directory
    requires Inv(m)
  {
    m[infoHash := Stored(if infoHash in m then m[infoHash] else NewRoot(now), p.id, p)]
  }

  /** A sweep drops a torrent exactly when it was due for cleaning and nothing of it is left. */
  predicate Emptied(ttl: int, now: int, r: Root)
    requires Shape(r)
  {
    !Throttled(ttl, now, r) && Len(Swept(ttl, now, r)) == 0
  }

  /** What a sweep makes of one torrent: its new store, or nothing. */
  function OutcomeOf(ttl: int, now: int, r: Root): Option<Root>
    requires Shape(r)
  {
    if Emptied(ttl, now, r) then None else Some(Swept(ttl, now, r))
  }

  ghost function Cleaned(ttl: int, now: int, m: Directory): Directory
    requires Inv(m)
  {
    map h | h in m && !Emptied(ttl, now, m[h]) :: Swept(ttl, now, m[h])
  }

  lemma CleanedKeepsInv(ttl: int, now: int, m: Directory)
    requires Inv(m)
    ensures Inv(Cleaned(ttl, now, m))
  {
    forall h | h in Cleaned(ttl, now, m)
      ensures Generations.Inv(Cleaned(ttl, now, m)[h])
    {
      SweepRefines(ttl, now, m[h]);
    }
  }

  lemma AnnouncedKeepsInv(c: Config, m: Directory, req: AnnounceRequest, now: int)
    requires Inv(m)
    ensures Inv(Announced(c, m, req, now))
  {
    var p := PeerOf(req, now);
    if req.infoHash in m {
      RemoveRefines(m[req.infoHash], p.id);
      RotationRefines(c, m[req.infoHash]);
      InvPut(m, req.infoHash, Removed(m[req.infoHash], p.id));
      InvPut(m, req.infoHash, Rotated(c, m[req.infoHash]));
    } else {
      FirstSeenStores(c, p, now);
      InvPut(m, req.infoHash, FirstSeen(c, p, now));
    }
  }

  lemma InvPut(m: Directory, h: bytes, r: Root)
    requires Inv(m) && Generations.Inv(r)
    ensures Inv(m[h := r])
  {
  }

  // ---------- The range that answers an announce ----------

  /** Ranging over one generation; stopping ends only this one. */
  method ScanGeneration(ttl: int, now: int, caller: PeerRecord, numWant: int, r: Root, i: nat, soFar: seq<PeerRecord>, expiredSoFar: seq<bytes>)
    returns (resp: seq<PeerRecord>, expired: seq<bytes>)
    requires Shape(r) && i < 3
    requires soFar == ReplyUpto(ttl, now, caller, numWant, RangeUpto(r, i))
    requires SetOf(expiredSoFar) <= LapsedSet(ttl, now, RangeUpto(r, i))
    requires |soFar| < numWant ==> expiredSoFar == LapsedKeys(ttl, now, RangeUpto(r, i))
    ensures resp == ReplyUpto(ttl, now, caller, numWant, RangeUpto(r, i + 1))
    ensures SetOf(expired) <= LapsedSet(ttl, now, RangeUpto(r, i + 1))
    ensures |resp| < numWant ==> expired == LapsedKeys(ttl, now, RangeUpto(r, i + 1))
  {
    resp, expired := soFar, expiredSoFar;
    var ps := Listed(r.gens[i]);
    PassGeneration(r, i);
    for j := 0 to |ps|
      invariant resp == ReplyUpto(ttl, now, caller, numWant, Passed(r, i, j))
      invariant SetOf(expired) <= LapsedSet(ttl, now, Passed(r, i, j))
      invariant |resp| < numWant ==> expired == LapsedKeys(ttl, now, Passed(r, i, j))
    {
      var verdict := Judge(ttl, now, caller, numWant, |resp|, ps[j]);
      JudgeAt(ttl, now, caller, numWant, r, i, j, ps[j], resp, verdict);
      SetOfSnoc(expired, ps[j].id);
      if verdict == EndRange {
        return;
      }
      expired := if verdict == NoteExpired then expired + [ps[j].id] else expired;
      resp := if verdict == Include then resp + [ps[j]] else resp;
    }
  }

  /** The reply, and the expired keys met on the way. */
  method Scan(ttl: int, now: int, caller: PeerRecord, numWant: int, r: Root) returns (resp: seq<PeerRecord>, expired: seq<bytes>)
    requires Generations.Inv(r)
    ensures resp == Reply(ttl, now, caller, numWant, r)
    ensures SetOf(expired) <= ExpiredIn(ttl, now, r)
    ensures |resp| < numWant ==> SetOf(expired) == ExpiredIn(ttl, now, r)
  {
    resp, expired := [], [];
    for i := 0 to 3
      invariant resp == ReplyUpto(ttl, now, caller, numWant, RangeUpto(r, i))
      invariant SetOf(expired) <= LapsedSet(ttl, now, RangeUpto(r, i))
      invariant |resp| < numWant ==> expired == LapsedKeys(ttl, now, RangeUpto(r, i))
    {
      resp, expired := ScanGeneration(ttl, now, caller, numWant, r, i, resp, expired);
    }
    RangeUptoAll(r);
    LapsedKeysAll(ttl, now, r);
  }

  /** The keys an announce leaves to an expiry task: expired ones of its torrent, all of them when
      the range was not cut short. */
  ghost predicate LeavesKeys(c: Config, m: Directory, req: AnnounceRequest, scanTime: int, replied: nat, expired: seq<bytes>)
    requires Inv(m)
  {
    if Active(m, req) then
      && SetOf(expired) <= ExpiredIn(c.ttl, scanTime, m[req.infoHash])
      && (replied < req.numWant ==> SetOf(expired) == ExpiredIn(c.ttl, scanTime, m[req.infoHash]))
    else expired == []
  }

  method ListPeers(c: Config, m: Directory, req: AnnounceRequest, now: int, scanTime: int)
    returns (resp: seq<PeerRecord>, expired: seq<bytes>)
    requires Inv(m)
    ensures resp == Answer(c, m, req, now, scanTime) && LeavesKeys(c, m, req, scanTime, |resp|, expired)
  {
    if !Active(m, req) {
      return [], [];
    }
    resp, expired := Scan(c.ttl, scanTime, PeerOf(req, now), req.numWant, m[req.infoHash]);
  }

  // ---------- Totals ----------

  ghost function KeysOf(r: Root): set<bytes> {
    if Shape(r) then AsMap(r).Keys else {}
  }

  /** Which peer is stored under which of these torrents. */
  ghost function Pairs(m: Directory, hs: set<bytes>): set<(bytes, bytes)> {
    set h, k | h in hs && h in m && k in KeysOf(m[h]) :: (h, k)
  }

  ghost function AllPairs(m: Directory): set<(bytes, bytes)> {
    Pairs(m, m.Keys)
  }

  function LenAt(m: Directory, h: bytes): nat {
    if h in m && Shape(m[h]) then Len(m[h]) else 0
  }

  /** The running total after these torrents. */
  function SumLen(m: Directory, hs: seq<bytes>): nat {
    if hs == [] then 0 else SumLen(m, hs[..|hs| - 1]) + LenAt(m, hs[|hs| - 1])
  }

  lemma SumLenSnoc(m: Directory, hs: seq<bytes>, i: nat)
    requires i < |hs|
    ensures SumLen(m, hs[..i + 1]) == SumLen(m, hs[..i]) + LenAt(m, hs[i])
  {
    assert hs[..i + 1][..i] == hs[..i];
  }

  lemma {:induction false} SumLenCountsPairs(m: Directory, hs: seq<bytes>)
    requires Inv(m) && Ascending(hs)
    ensures SumLen(m, hs) == |Pairs(m, SetOf(hs))|
  {
    if hs == [] {
      assert Pairs(m, SetOf(hs)) == {};
    } else {
      var before, h := hs[..|hs| - 1], hs[|hs| - 1];
      assert hs == before + [h];
      SumLenCountsPairs(m, before);
      SetOfSnoc(before, h);
      if h in m {
        PairsOneMore(m, SetOf(before), h);
      } else {
        PairsNoMore(m, SetOf(before), h);
      }
    }
  }

  /** Adding up the torrents counts every stored peer once. */
  lemma SumLenAll(m: Directory)
    requires Inv(m)
    ensures SumLen(m, Sorted(m.Keys)) == |AllPairs(m)|
  {
    var hs := Sorted(m.Keys);
    assert SetOf(hs) == m.Keys;
    SumLenCountsPairs(m, hs);
  }

  lemma PairsNoMore(m: Directory, hs: set<bytes>, h: bytes)
    requires h !in m
    ensures Pairs(m, hs + {h}) == Pairs(m, hs)
  {
  }

  lemma PairsOneMore(m: Directory, hs: set<bytes>, h: bytes)
    requires Inv(m) && h in m && h !in hs
    ensures |Pairs(m, hs + {h})| == |Pairs(m, hs)| + Len(m[h])
  {
    var here := set k | k in KeysOf(m[h]) :: (h, k);
    assert Pairs(m, hs + {h}) == Pairs(m, hs) + here;
    PartitionSize(Pairs(m, hs), here, Pairs(m, hs + {h}));
    TaggedSize(h, KeysOf(m[h]));
    LenAgrees(m[h]);
  }

  lemma {:induction false} TaggedSize(h: bytes, ks: set<bytes>)
    ensures |set k | k in ks :: (h, k)| == |ks|
  {
    if ks != {} {
      var x :| x in ks;
      TaggedSize(h, ks - {x});
      assert (set k | k in ks :: (h, k)) == (set k | k in ks - {x} :: (h, k)) + {(h, x)};
    }
  }

  /** What the sweeps of the first torrents report adds up to what they removed. */
  ghost function SumRemoved(ttl: int, now: int, m: Directory, hs: seq<bytes>): int
    requires Inv(m)
  {
    SumLen(m, hs) - SumLen(Cleaned(ttl, now, m), hs)
  }

  lemma SumRemovedSnoc(ttl: int, now: int, m: Directory, hs: seq<bytes>, i: nat)
    requires Inv(m) && i < |hs| && hs[i] in m
    ensures SumRemoved(ttl, now, m, hs[..i + 1]) ==
            SumRemoved(ttl, now, m, hs[..i]) + Len(m[hs[i]]) - Len(Swept(ttl, now, m[hs[i]]))
  {
    SumLenSnoc(m, hs, i);
    SumLenSnoc(Cleaned(ttl, now, m), hs, i);
  }

  lemma SumRemovedAll(ttl: int, now: int, m: Directory)
    requires Inv(m)
    ensures Inv(Cleaned(ttl, now, m))
    ensures SumRemoved(ttl, now, m, Sorted(m.Keys)) == |AllPairs(m)| - |AllPairs(Cleaned(ttl, now, m))|
  {
    var hs := Sorted(m.Keys);
    var t := Cleaned(ttl, now, m);
    CleanedKeepsInv(ttl, now, m);
    SortedKeys(m);
    SumLenCountsPairs(m, hs);
    SumLenCountsPairs(t, hs);
    PairsBeyond(t, SetOf(hs));
  }

  lemma SortedKeys(m: Directory)
    ensures SetOf(Sorted(m.Keys)) == m.Keys
  {
  }

  lemma PairsBeyond(m: Directory, hs: set<bytes>)
    requires m.Keys <= hs
    ensures Pairs(m, hs) == AllPairs(m)
  {
  }

  /** What the visit of a sweep to one torrent leaves, and how many peers it takes. */
  function AfterVisit(ttl: int, now: int, t: Directory, h: bytes): Directory {
    if h in t && Shape(t[h]) then Put(t, h, OutcomeOf(ttl, now, t[h])) else t
  }

  function TakenAt(ttl: int, now: int, t: Directory, h: bytes): int {
    if h in t && Shape(t[h]) then Len(t[h]) - Len(Swept(ttl, now, t[h])) else 0
  }

  /** What visits to these torrents leave, one after the other, and how many peers they take. */
  function AfterVisits(ttl: int, now: int, m: Directory, hs: seq<bytes>): Directory {
    if hs == [] then m else AfterVisit(ttl, now, AfterVisits(ttl, now, m, hs[..|hs| - 1]), hs[|hs| - 1])
  }

  function Taken(ttl: int, now: int, m: Directory, hs: seq<bytes>): int {
    if hs == [] then 0
    else Taken(ttl, now, m, hs[..|hs| - 1]) + TakenAt(ttl, now, AfterVisits(ttl, now, m, hs[..|hs| - 1]), hs[|hs| - 1])
  }

  lemma VisitsSnoc(ttl: int, now: int, m: Directory, hs: seq<bytes>, i: nat)
    requires i < |hs|
    ensures var t := AfterVisits(ttl, now, m, hs[..i]);
      && AfterVisits(ttl, now, m, hs[..i + 1]) == AfterVisit(ttl, now, t, hs[i])
      && Taken(ttl, now, m, hs[..i + 1]) == Taken(ttl, now, m, hs[..i]) + TakenAt(ttl, now, t, hs[i])
  {
    assert hs[..i + 1][..i] == hs[..i];
  }

  lemma {:induction false} NotVisited(ttl: int, now: int, m: Directory, hs: seq<bytes>, h: bytes)
    requires h !in hs
    ensures Lookup(AfterVisits(ttl, now, m, hs), h) == Lookup(m, h)
  {
    if hs != [] {
      assert hs[|hs| - 1] in hs;
      NotVisited(ttl, now, m, hs[..|hs| - 1], h);
    }
  }

  lemma ToVisit(ttl: int, now: int, m: Directory, hs: seq<bytes>, i: nat)
    requires i < |hs| && Ascending(hs) && hs[i] in m
    ensures hs[i] in AfterVisits(ttl, now, m, hs[..i])
  {
    NotVisited(ttl, now, m, hs[..i], hs[i]);
  }

  lemma LookupOfPut(m: Directory, h: bytes, r: Option<Root>, h': bytes)
    ensures Lookup(Put(m, h, r), h') == if h' == h then r else Lookup(m, h')
  {
  }

  lemma LookupsDetermine(a: Directory, b: Directory)
    requires forall h :: Lookup(a, h) == Lookup(b, h)
    ensures a == b
  {
    assert forall h :: h in a <==> Lookup(a, h).Some?;
    assert forall h :: h in b <==> Lookup(b, h).Some?;
    assert forall h :: h in a ==> Lookup(a, h) == Some(a[h]);
    assert forall h :: h in b ==> Lookup(b, h) == Some(b[h]);
  }

  lemma LookupAfterVisit(ttl: int, now: int, t: Directory, h: bytes, h': bytes)
    requires h in t && Shape(t[h])
    ensures Lookup(AfterVisit(ttl, now, t, h), h') == if h' == h then OutcomeOf(ttl, now, t[h]) else Lookup(t, h')
  {
    LookupOfPut(t, h, OutcomeOf(ttl, now, t[h]), h');
  }

  /** Visits in ascending order do to each torrent they name what one sweep of it does. */
  lemma {:induction false} VisitOutcome(ttl: int, now: int, m: Directory, hs: seq<bytes>, h: bytes)
    requires Ascending(hs) && forall x :: x in hs ==> x in m && Shape(m[x])
    ensures Lookup(AfterVisits(ttl, now, m, hs), h) == if h in hs then OutcomeOf(ttl, now, m[h]) else Lookup(m, h)
  {
    if hs != [] {
      var n := |hs| - 1;
      assert hs == hs[..n] + [hs[n]];
      assert hs[n] in hs && hs[n] !in hs[..n];
      NotVisited(ttl, now, m, hs[..n], hs[n]);
      VisitOutcome(ttl, now, m, hs[..n], h);
      LookupAfterVisit(ttl, now, AfterVisits(ttl, now, m, hs[..n]), hs[n], h);
    }
  }

  lemma TakenUnvisited(ttl: int, now: int, t: Directory, m: Directory, h: bytes)
    requires Lookup(t, h) == Lookup(m, h) && h in m && Shape(m[h])
    ensures TakenAt(ttl, now, t, h) == Len(m[h]) - Len(Swept(ttl, now, m[h]))
  {
  }

  lemma {:induction false} TakenIsRemoved(ttl: int, now: int, m: Directory, hs: seq<bytes>)
    requires Inv(m) && Ascending(hs) && forall x :: x in hs ==> x in m
    ensures Taken(ttl, now, m, hs) == SumRemoved(ttl, now, m, hs)
  {
    if hs != [] {
      var n := |hs| - 1;
      assert hs[n] in hs && hs[n] !in hs[..n];
      assert hs[..n + 1] == hs;
      TakenIsRemoved(ttl, now, m, hs[..n]);
      NotVisited(ttl, now, m, hs[..n], hs[n]);
      TakenUnvisited(ttl, now, AfterVisits(ttl, now, m, hs[..n]), m, hs[n]);
      VisitsSnoc(ttl, now, m, hs, n);
      SumRemovedSnoc(ttl, now, m, hs, n);
    }
  }

  lemma LookupCleaned(ttl: int, now: int, m: Directory, h: bytes)
    requires Inv(m)
    ensures Lookup(Cleaned(ttl, now, m), h) == if h in m then OutcomeOf(ttl, now, m[h]) else None
  {
  }

  lemma VisitsLeave(ttl: int, now: int, m: Directory)
    requires Inv(m)
    ensures AfterVisits(ttl, now, m, Sorted(m.Keys)) == Cleaned(ttl, now, m)
  {
    forall h
      ensures Lookup(AfterVisits(ttl, now, m, Sorted(m.Keys)), h) == Lookup(Cleaned(ttl, now, m), h)
    {
      VisitOutcome(ttl, now, m, Sorted(m.Keys), h);
      LookupCleaned(ttl, now, m, h);
    }
    LookupsDetermine(AfterVisits(ttl, now, m, Sorted(m.Keys)), Cleaned(ttl, now, m));
  }

  /** Visiting every torrent in range order is the sweep. */
  lemma VisitsAreSweep(ttl: int, now: int, m: Directory)
    requires Inv(m)
    ensures AfterVisits(ttl, now, m, Sorted(m.Keys)) == Cleaned(ttl, now, m) && Inv(Cleaned(ttl, now, m))
    ensures Taken(ttl, now, m, Sorted(m.Keys)) == |AllPairs(m)| - |AllPairs(Cleaned(ttl, now, m))|
  {
    VisitsLeave(ttl, now, m);
    TakenIsRemoved(ttl, now, m, Sorted(m.Keys));
    SumRemovedAll(ttl, now, m);
  }

  /** cleanUp: what is left of a torrent, and how many peers went. */
  method CleanUp(root: Root, ttl: int, now: int) returns (left: Option<Root>, n: int)
    requires Shape(root)
    ensures n == Len(root) - Len(Swept(ttl, now, root))
    ensures left == OutcomeOf(ttl, now, root)
  {
    if Throttled(ttl, now, root) {
      return Some(root), 0;
    }
    var swept := Swept(ttl, now, root);
    n := Len(root) - Len(swept);
    left := if Len(swept) == 0 then None else Some(swept);
  }

  /** The visits of a sweep, one after the other. */
  method VisitAll(m: Directory, hs: seq<bytes>, ttl: int, now: int) returns (swept: Directory, count: int)
    ensures swept == AfterVisits(ttl, now, m, hs) && count == Taken(ttl, now, m, hs)
  {
    swept, count := m, 0;
    for i := 0 to |hs|
      invariant swept == AfterVisits(ttl, now, m, hs[..i]) && count == Taken(ttl, now, m, hs[..i])
    {
      VisitsSnoc(ttl, now, m, hs, i);
      if hs[i] in swept && Shape(swept[hs[i]]) {
        var cleaned, n := CleanUp(swept[hs[i]], ttl, now);
        count := count + n;
        swept := Put(swept, hs[i], cleaned);
      }
    }
    assert hs[..|hs|] == hs;
  }

  /** Clean: sweep every torrent in range order, drop those a sweep leaves empty. The count is
      the drop in stored peers. */
  method Clean(m: Directory, ttl: int, now: int) returns (swept: Directory, count: int)
    requires Inv(m)
    ensures swept == Cleaned(ttl, now, m) && Inv(swept)
    ensures count == |AllPairs(m)| - |AllPairs(swept)|
  {
    swept, count := VisitAll(m, Sorted(m.Keys), ttl, now);
    VisitsAreSweep(ttl, now, m);
  }

  // ---------- What these mean, torrent by torrent ----------

  /** The rotation check of a torrent, for a limit that is not negative. */
  ghost predicate RotatesAboveHalf(c: Config, m: Directory, t: Directory, h: bytes) {
    && h in m && Shape(m[h])
    && (c.maxPeersPerTorrent >= 0 ==>
          t == if 2 * |m[h].gens[m[h].active]| > c.maxPeersPerTorrent then m[h := RotatedAnyway(m[h])] else m)
  }

  /** What is stored under a torrent. */
  ghost function StoredUnder(m: Directory, h: bytes): PeerMap
    requires Inv(m)
  {
    if h in m then AsMap(m[h]) else map[]
  }

  /** An announce with a refused address changes nothing. Any other makes its torrent known and changes
      no other torrent: the first peer of a torrent is stored at once if it is connectable and not
      stopping, a stopping peer goes at once, and else the older peers go if the active generation
      holds more than half of M. */
  ghost predicate AtOnce(c: Config, m: Directory, t: Directory, req: AnnounceRequest, now: int)
    requires Inv(m) && Inv(t)
  {
    var h, p := req.infoHash, PeerOf(req, now);
    && t.Keys == (if InvalidAddress(req) then m.Keys else m.Keys + {h})
    && (forall x :: x in m && (x != h || InvalidAddress(req)) ==> t[x] == m[x])
    && (!InvalidAddress(req) && h !in m ==>
          t[h].lastClean == now &&
          StoredUnder(t, h) == if IsPeerConnectable(c.useAnnounceIp, p) && req.event != Ascii("stopped") then map[req.peerId := p] else map[])
    && (h in m ==> t[h].lastClean == m[h].lastClean)
    && (!InvalidAddress(req) && h in m && req.event == Ascii("stopped") ==>
          StoredUnder(t, h) == StoredUnder(m, h) - {req.peerId})
    && (!InvalidAddress(req) && h in m && req.event != Ascii("stopped") && c.maxPeersPerTorrent >= 0 ==>
          StoredUnder(t, h) == if 2 * |m[h].gens[m[h].active]| > c.maxPeersPerTorrent then m[h].gens[m[h].active] else AsMap(m[h]))
  }

  lemma StoppedText(text: bytes)
    ensures ParsePeerEvent(text) == STOPPED <==> text == Ascii("stopped")
  {
    assert |Ascii("started")| == 7 && |Ascii("stopped")| == 7 && Ascii("started")[2] == 97 && Ascii("stopped")[2] == 111;
  }

  lemma FirstSeenStores(c: Config, p: PeerRecord, now: int)
    ensures Generations.Inv(FirstSeen(c, p, now)) && FirstSeen(c, p, now).lastClean == now
    ensures AsMap(FirstSeen(c, p, now)) == if IsPeerConnectable(c.useAnnounceIp, p) && p.event != STOPPED then map[p.id := p] else map[]
  {
    StoreFresh(NewRoot(now), p.id, p);
  }

  lemma AnnouncedExactly(c: Config, m: Directory, req: AnnounceRequest, now: int)
    requires Inv(m)
    ensures Inv(Announced(c, m, req, now)) && AtOnce(c, m, Announced(c, m, req, now), req, now)
  {
    AnnouncedKeepsInv(c, m, req, now);
    if !InvalidAddress(req) {
      if req.infoHash !in m {
        FirstExactly(c, m, req, now);
      } else if ParsePeerEvent(req.event) == STOPPED {
        StopExactly(c, m, req, now);
      } else {
        ActiveExactly(c, m, req, now);
      }
    }
  }

  lemma FirstExactly(c: Config, m: Directory, req: AnnounceRequest, now: int)
    requires Inv(m) && Inv(Announced(c, m, req, now)) && !InvalidAddress(req) && req.infoHash !in m
    ensures AtOnce(c, m, Announced(c, m, req, now), req, now)
  {
    StoppedText(req.event);
    FirstSeenStores(c, PeerOf(req, now), now);
  }

  lemma StopExactly(c: Config, m: Directory, req: AnnounceRequest, now: int)
    requires Inv(m) && Inv(Announced(c, m, req, now)) && !InvalidAddress(req) && req.infoHash in m && ParsePeerEvent(req.event) == STOPPED
    ensures AtOnce(c, m, Announced(c, m, req, now), req, now)
  {
    StoppedText(req.event);
    RemoveRefines(m[req.infoHash], req.peerId);
  }

  lemma ActiveExactly(c: Config, m: Directory, req: AnnounceRequest, now: int)
    requires Inv(m) && Inv(Announced(c, m, req, now)) && Active(m, req)
    ensures AtOnce(c, m, Announced(c, m, req, now), req, now)
  {
    StoppedText(req.event);
    CheckExactly(c, m[req.infoHash]);
  }

  lemma CheckExactly(c: Config, r: Root)
    requires Generations.Inv(r)
    ensures Generations.Inv(Rotated(c, r))
    ensures c.maxPeersPerTorrent >= 0 ==>
      AsMap(Rotated(c, r)) == if 2 * |r.gens[r.active]| > c.maxPeersPerTorrent then r.gens[r.active] else AsMap(r)
  {
    RotationRefines(c, r);
    FullIff(c, r);
  }

  /** Once its update task has run as well, a known peer is who it was and reports what was announced,
      and an unknown one is stored as announced if it is connectable. No other peer changes. */
  lemma UpdateOfAnnounce(c: Config, r: Root, req: AnnounceRequest, now: int, k: bytes)
    requires Generations.Inv(r)
    ensures var p, t := PeerOf(req, now), Updated(c, r, PeerOf(req, now));
      && Generations.Inv(t) && t.active == r.active && t.lastClean == r.lastClean
      && (k != req.peerId ==> (k in AsMap(t) <==> k in AsMap(r)) && (k in AsMap(r) ==> AsMap(t)[k] == AsMap(r)[k]))
      && (k == req.peerId ==> (k in AsMap(t) <==> k in AsMap(r) || IsPeerConnectable(c.useAnnounceIp, p)))
      && (k == req.peerId && k in AsMap(t) ==> ReportsOf(AsMap(t)[k], req, now))
      && (k == req.peerId && k in AsMap(r) ==> SameIdentity(AsMap(t)[k], AsMap(r)[k]))
      && (k == req.peerId && k in AsMap(t) && k !in AsMap(r) ==> ComesFrom(AsMap(t)[k], req))
  {
    UpdateRefines(c, r, PeerOf(req, now));
  }

  /** The answer to an announce: nothing for a refused address, an unknown torrent or a stop. Else as
      many of the peers that may be listed as there are, but no more than asked for, each once, in
      range order. */
  lemma AnswerExactly(c: Config, m: Directory, req: AnnounceRequest, now: int, scanTime: int)
    requires Inv(m)
    ensures Active(m, req) <==> !InvalidAddress(req) && req.infoHash in m && req.event != Ascii("stopped")
    ensures var p, resp := PeerOf(req, now), Answer(c, m, req, now, scanTime);
      if InvalidAddress(req) || req.infoHash !in m || req.event == Ascii("stopped") then resp == [] else
        && DistinctIds(resp) && InOrder(m[req.infoHash], resp)
        && (forall q :: q in resp ==> q.id in AsMap(m[req.infoHash]) && AsMap(m[req.infoHash])[q.id] == q && MayBeListed(c.ttl, scanTime, p, q))
        && |resp| == Smaller(AtLeastZero(req.numWant), |Listable(c.ttl, scanTime, p, AsMap(m[req.infoHash]))|)
  {
    StoppedText(req.event);
    if req.infoHash in m {
      ReplyExactly(c.ttl, scanTime, PeerOf(req, now), req.numWant, m[req.infoHash]);
      ReplyInOrder(c.ttl, scanTime, PeerOf(req, now), req.numWant, m[req.infoHash]);
    }
  }

  /** The four counts of a known torrent, zeros for an unknown one. */
  ghost predicate CountedAs(m: Directory, h: bytes, ttl: int, now: int, file: ScrapeFile)
    requires Inv(m)
  {
    CountsOf(StoredUnder(m, h), ttl, now, file)
  }

  lemma ScrapedExactly(ttl: int, now: int, m: Directory, h: bytes)
    requires Inv(m)
    ensures CountedAs(m, h, ttl, now, Scraped(ttl, now, m, h))
  {
    if h in m {
      CountsMeaning(ttl, now, AsMap(m[h]));
    } else {
      assert CountsOf(map[], ttl, now, ScrapeFile(0, 0, 0, 0));
    }
  }

  /** A sweep keeps a torrent exactly if it is not due or has a peer seen within the TTL, and of a
      torrent that is due exactly those peers. */
  lemma CleanedExactly(ttl: int, now: int, m: Directory, h: bytes, k: bytes)
    requires Inv(m)
    ensures Inv(Cleaned(ttl, now, m))
    ensures h in Cleaned(ttl, now, m) <==>
      h in m && (now < m[h].lastClean + ttl || exists x :: x in AsMap(m[h]) && AsMap(m[h])[x].lastSeen >= now - ttl)
    ensures k in StoredUnder(Cleaned(ttl, now, m), h) <==>
      k in StoredUnder(m, h) && (now < m[h].lastClean + ttl || StoredUnder(m, h)[k].lastSeen >= now - ttl)
    ensures k in StoredUnder(Cleaned(ttl, now, m), h) ==> StoredUnder(Cleaned(ttl, now, m), h)[k] == StoredUnder(m, h)[k]
  {
    CleanedKeepsInv(ttl, now, m);
    if h in m {
      SweepRefines(ttl, now, m[h]);
      LenAgrees(Swept(ttl, now, m[h]));
      EmptyIff(AsMap(Swept(ttl, now, m[h])));
    }
  }

  lemma EmptyIff(m: PeerMap)
    ensures |m| == 0 <==> forall k :: k !in m
  {
  }
}
