/** The three-generation peer store of one torrent, as a value (InfoHashRoot in
    biz/services/peer/local/local.go and cleanUp in clean.go), and its refinement to one
    ordinary map. The class that updates it in place is in InfoHashRoot.dfy. */
module Generations {
  import opened Bytes
  import opened Peers

  type PeerMap = map<bytes, PeerRecord>

  /** One generation is written (active), one is only read (previous), one is kept empty (spare). */
  datatype Root = Root(gens: seq<PeerMap>, active: nat, lastClean: int)

  datatype Config = Config(useAnnounceIp: bool, maxPeersPerTorrent: int, ttl: int)

  predicate Shape(r: Root) {
    |r.gens| == 3 && r.active < 3
  }

  function Spare(active: nat): nat { (active + 1) % 3 }

  function Previous(active: nat): nat { (active + 2) % 3 }

  ghost predicate OwnIds(m: PeerMap) {
    forall k :: k in m ==> m[k].id == k
  }

  ghost predicate Inv(r: Root) {
    && Shape(r)
    && r.gens[Spare(r.active)] == map[]
    && r.gens[0].Keys !! r.gens[1].Keys !! r.gens[2].Keys
    && OwnIds(r.gens[0]) && OwnIds(r.gens[1]) && OwnIds(r.gens[2])
  }

  /** The one map the three generations stand for. */
  function AsMap(r: Root): PeerMap
    requires Shape(r)
  {
    r.gens[0] + r.gens[1] + r.gens[2]
  }

  // ---------- Operations ----------

  function NewRoot(now: int): (r: Root)
    ensures Inv(r) && AsMap(r) == map[] && r.active == 0 && r.lastClean == now
  {
    Root([map[], map[], map[]], 0, now)
  }

  function Load(r: Root, k: bytes): Option<PeerRecord>
    requires Shape(r)
  {
    if k in r.gens[0] then Some(r.gens[0][k])
    else if k in r.gens[1] then Some(r.gens[1][k])
    else if k in r.gens[2] then Some(r.gens[2][k])
    else None
  }

  /** The peer LoadAndDelete hands back: of all stored under k, one seen last, the first
      generation winning a tie. */
  function Latest(r: Root, k: bytes): Option<PeerRecord>
    requires Shape(r)
  {
    Later(Later(Later(None, r.gens[0], k), r.gens[1], k), r.gens[2], k)
  }

  function Later(found: Option<PeerRecord>, m: PeerMap, k: bytes): Option<PeerRecord> {
    if k in m && (found.None? || m[k].lastSeen > found.value.lastSeen) then Some(m[k]) else found
  }

  function Removed(r: Root, k: bytes): Root
    requires Shape(r)
  {
    r.(gens := [r.gens[0] - {k}, r.gens[1] - {k}, r.gens[2] - {k}])
  }

  function Cut(r: Root, i: nat, k: bytes): (t: Root)
    requires Shape(r) && i < 3
    ensures Shape(t)
  {
    r.(gens := r.gens[i := r.gens[i] - {k}])
  }

  /** Delete stops at the first generation that held the key. */
  function DeletedFirst(r: Root, k: bytes): Root
    requires Shape(r)
  {
    if k in r.gens[0] then Cut(r, 0, k) else if k in r.gens[1] then Cut(r, 1, k) else Cut(r, 2, k)
  }

  lemma CutAll(r: Root, k: bytes)
    requires Shape(r)
    ensures Cut(Cut(Cut(r, 0, k), 1, k), 2, k) == Removed(r, k)
  {
    assert Cut(Cut(Cut(r, 0, k), 1, k), 2, k).gens == Removed(r, k).gens;
  }

  lemma FirstHit(r: Root, i: nat, k: bytes)
    requires Shape(r) && i < 3 && k in r.gens[i] && forall j :: 0 <= j < i ==> k !in r.gens[j]
    ensures Cut(r, i, k) == DeletedFirst(r, k) && k in AsMap(r)
  {
  }

  lemma NoHit(r: Root, k: bytes)
    requires Shape(r) && forall j :: 0 <= j < 3 ==> k !in r.gens[j]
    ensures DeletedFirst(r, k) == r && k !in AsMap(r)
  {
    CutAbsent(r, 2, k);
  }

  lemma CutAbsent(r: Root, i: nat, k: bytes)
    requires Shape(r) && i < 3 && k !in r.gens[i]
    ensures Cut(r, i, k) == r
  {
    AbsentUnchanged(r.gens[i], k);
  }

  lemma RemovedEverywhere(r: Root, k: bytes)
    requires Shape(r)
    ensures forall i :: 0 <= i < 3 ==> k !in Removed(r, k).gens[i]
  {
  }

  lemma NothingToRemove(r: Root, k: bytes)
    requires Shape(r) && Latest(r, k).None?
    ensures Removed(r, k) == r
  {
    CutAbsent(r, 0, k);
    CutAbsent(r, 1, k);
    CutAbsent(r, 2, k);
    CutAll(r, k);
  }

  function Stored(r: Root, k: bytes, p: PeerRecord): Root
    requires Shape(r)
  {
    r.(gens := r.gens[r.active := r.gens[r.active][k := p]])
  }

  function StoredIfAbsent(r: Root, k: bytes, p: PeerRecord): Root
    requires Shape(r)
  {
    if k in r.gens[r.active] then r else Stored(r, k, p)
  }

  /** The body of the update task an announce leaves behind. */
  function Updated(c: Config, r: Root, p: PeerRecord): Root
    requires Shape(r)
  {
    match Latest(r, p.id)
    case Some(known) => Stored(Removed(r, p.id), known.id, Refresh(known, p))
    case None => if IsPeerConnectable(c.useAnnounceIp, p) then StoredIfAbsent(r, p.id, p) else r
  }

  /** Go's truncating division by two. */
  function Half(maxPeers: int): int {
    if maxPeers >= 0 then maxPeers / 2 else -((-maxPeers) / 2)
  }

  predicate Full(c: Config, r: Root)
    requires Shape(r)
  {
    |r.gens[r.active]| > Half(c.maxPeersPerTorrent)
  }

  /** A rotation, whatever the active generation holds. */
  function RotatedAnyway(r: Root): Root
    requires Shape(r)
  {
    r.(active := Spare(r.active), gens := r.gens[Previous(r.active) := map[]])
  }

  /** The rotation check at the end of an announce. */
  function Rotated(c: Config, r: Root): Root
    requires Shape(r)
  {
    if Full(c, r) then RotatedAnyway(r) else r
  }

  predicate Expired(ttl: int, now: int, p: PeerRecord) {
    now - ttl > p.lastSeen
  }

  function LiveOf(ttl: int, now: int, m: PeerMap): PeerMap {
    map k | k in m && !Expired(ttl, now, m[k]) :: m[k]
  }

  predicate Throttled(ttl: int, now: int, r: Root) {
    r.lastClean + ttl > now
  }

  function Swept(ttl: int, now: int, r: Root): (t: Root)
    requires Shape(r)
    ensures Shape(t)
  {
    if Throttled(ttl, now, r) then r
    else Root([LiveOf(ttl, now, r.gens[0]), LiveOf(ttl, now, r.gens[1]), LiveOf(ttl, now, r.gens[2])], r.active, now)
  }

  // ---------- Refinement to one map ----------

  lemma LookupsAgree(r: Root, k: bytes)
    requires Inv(r)
    ensures Load(r, k) == Latest(r, k) == (if k in AsMap(r) then Some(AsMap(r)[k]) else None)
  {
  }

  lemma RemoveRefines(r: Root, k: bytes)
    requires Inv(r)
    ensures Inv(Removed(r, k)) && AsMap(Removed(r, k)) == AsMap(r) - {k}
  {
  }

  lemma AbsentUnchanged(m: PeerMap, k: bytes)
    requires k !in m
    ensures m - {k} == m
  {
  }

  /** Stopping at the first hit removes as much as visiting all three generations. */
  lemma DeletesAgree(r: Root, k: bytes)
    requires Inv(r)
    ensures DeletedFirst(r, k) == Removed(r, k)
  {
    CutAll(r, k);
    if k in r.gens[0] {
      CutAbsent(Cut(r, 0, k), 1, k);
      CutAbsent(Cut(r, 0, k), 2, k);
    } else if k in r.gens[1] {
      CutAbsent(r, 0, k);
      CutAbsent(Cut(r, 1, k), 2, k);
    } else {
      CutAbsent(r, 0, k);
      CutAbsent(r, 1, k);
    }
  }

  /** What the update task does to one ordinary map. */
  function UpdatedMap(c: Config, m: PeerMap, p: PeerRecord): PeerMap {
    if p.id in m then m[p.id := Refresh(m[p.id], p)]
    else if IsPeerConnectable(c.useAnnounceIp, p) then m[p.id := p]
    else m
  }

  /** Storing keeps the invariant as long as the previous generation lacks the key. */
  lemma StoreKeepsInv(r: Root, k: bytes, p: PeerRecord)
    requires Inv(r) && p.id == k && k !in r.gens[Previous(r.active)]
    ensures Inv(Stored(r, k, p))
  {
    match r.active
    case 0 =>
    case 1 =>
    case 2 =>
  }

  lemma StoreFresh(r: Root, k: bytes, p: PeerRecord)
    requires Inv(r) && k !in AsMap(r) && p.id == k
    ensures Inv(Stored(r, k, p)) && AsMap(Stored(r, k, p)) == AsMap(r)[k := p]
  {
    StoreKeepsInv(r, k, p);
    var a, b, d := r.gens[0], r.gens[1], r.gens[2];
    if r.active == 0 {
      PutLeft(a, b, k, p);
      PutLeft(a + b, d, k, p);
    } else if r.active == 1 {
      PutRight(a, b, k, p);
      PutLeft(a + b, d, k, p);
    } else {
      PutRight(a + b, d, k, p);
    }
  }

  lemma PutLeft(a: PeerMap, b: PeerMap, k: bytes, p: PeerRecord)
    requires k !in b
    ensures a[k := p] + b == (a + b)[k := p]
  {
  }

  lemma PutRight(a: PeerMap, b: PeerMap, k: bytes, p: PeerRecord)
    ensures a + b[k := p] == (a + b)[k := p]
  {
  }

  lemma UpdateRefines(c: Config, r: Root, p: PeerRecord)
    requires Inv(r)
    ensures Inv(Updated(c, r, p)) && AsMap(Updated(c, r, p)) == UpdatedMap(c, AsMap(r), p)
  {
    LookupsAgree(r, p.id);
    RemoveRefines(r, p.id);
    if p.id in AsMap(r) {
      var known := AsMap(r)[p.id];
      StoreFresh(Removed(r, p.id), p.id, Refresh(known, p));
    } else if IsPeerConnectable(c.useAnnounceIp, p) {
      StoreFresh(r, p.id, p);
    }
  }

  /** A rotation keeps the invariant and drops exactly the previous generation. */
  lemma RotationRefines(c: Config, r: Root)
    requires Inv(r)
    ensures Inv(Rotated(c, r))
    ensures AsMap(Rotated(c, r)) ==
            if Full(c, r) then AsMap(r) - r.gens[Previous(r.active)].Keys else AsMap(r)
    ensures Full(c, r) ==> r.gens[r.active] == AsMap(Rotated(c, r))
    ensures c.maxPeersPerTorrent >= 0 ==> (Full(c, r) <==> 2 * |r.gens[r.active]| > c.maxPeersPerTorrent)
  {
    FullIff(c, r);
    if Full(c, r) {
      RotationKeepsActive(c, r);
      GenerationsUnion(r);
      GenerationsUnion(Rotated(c, r));
      UnionMinusRight(r.gens[r.active], r.gens[Previous(r.active)]);
      UnionWithEmpty(r.gens[r.active]);
    }
  }

  lemma RotatedAnywayInv(r: Root)
    requires Inv(r)
    ensures Inv(RotatedAnyway(r))
  {
    match r.active
    case 0 =>
    case 1 =>
    case 2 =>
  }

  lemma UnionMinusRight(a: PeerMap, b: PeerMap)
    requires a.Keys !! b.Keys
    ensures (a + b) - b.Keys == a
  {
  }

  lemma UnionWithEmpty(a: PeerMap)
    ensures map[] + a == a
  {
  }

  lemma RotationKeepsActive(c: Config, r: Root)
    requires Inv(r) && Full(c, r)
    ensures var t := Rotated(c, r);
      && Inv(t)
      && t.gens[t.active] == map[]
      && t.gens[Previous(t.active)] == r.gens[r.active]
      && t.active == (r.active + 1) % 3 && t.lastClean == r.lastClean
  {
    match r.active
    case 0 =>
    case 1 =>
    case 2 =>
  }

  /** Only the active and the previous generation hold anything. */
  lemma GenerationsUnion(r: Root)
    requires Inv(r)
    ensures AsMap(r) == r.gens[r.active] + r.gens[Previous(r.active)]
    ensures r.gens[r.active].Keys !! r.gens[Previous(r.active)].Keys
  {
    match r.active
    case 0 =>
    case 1 =>
    case 2 =>
  }

  lemma LiveOfUnion(ttl: int, now: int, a: PeerMap, b: PeerMap)
    requires a.Keys !! b.Keys
    ensures LiveOf(ttl, now, a + b) == LiveOf(ttl, now, a) + LiveOf(ttl, now, b)
  {
  }

  /** An unthrottled sweep leaves precisely the peers seen within the TTL. */
  lemma SweepRefines(ttl: int, now: int, r: Root)
    requires Inv(r)
    ensures Inv(Swept(ttl, now, r))
    ensures AsMap(Swept(ttl, now, r)) == if Throttled(ttl, now, r) then AsMap(r) else LiveOf(ttl, now, AsMap(r))
  {
    if !Throttled(ttl, now, r) {
      LiveOfUnion(ttl, now, r.gens[0], r.gens[1]);
      LiveOfUnion(ttl, now, r.gens[0] + r.gens[1], r.gens[2]);
    }
  }

  function Len(r: Root): nat
    requires Shape(r)
  {
    |r.gens[0]| + |r.gens[1]| + |r.gens[2]|
  }

  lemma LenAgrees(r: Root)
    requires Inv(r)
    ensures Len(r) == |AsMap(r)|
    ensures Len(r) == |r.gens[r.active]| + |r.gens[Previous(r.active)]|
  {
    GenerationsUnion(r);
    UnionSize(r.gens[r.active], r.gens[Previous(r.active)]);
  }

  lemma UnionSize(a: PeerMap, b: PeerMap)
    requires a.Keys !! b.Keys
    ensures |a + b| == |a| + |b|
  {
    assert (a + b).Keys == a.Keys + b.Keys;
    assert |a.Keys + b.Keys| == |a.Keys| + |b.Keys|;
  }

  // ---------- Range ----------

  /** The peers of one generation in the order its skip map ranges over them. */
  function Listed(m: PeerMap): (ps: seq<PeerRecord>)
    ensures |ps| == |m|
  {
    var ks := Sorted(m.Keys);
    seq(|ks|, i requires 0 <= i < |ks| => assert ks[i] in ks; m[ks[i]])
  }

  /** The order of InfoHashRoot.Range: generation 0, 1, 2, whichever is active. */
  function RangeOrder(r: Root): seq<PeerRecord>
    requires Shape(r)
  {
    Listed(r.gens[0]) + Listed(r.gens[1]) + Listed(r.gens[2])
  }

  ghost predicate DistinctIds(ps: seq<PeerRecord>) {
    forall i, j :: 0 <= i < j < |ps| ==> ps[i].id != ps[j].id
  }

  lemma ListedContents(m: PeerMap)
    requires OwnIds(m)
    ensures DistinctIds(Listed(m))
    ensures forall p :: p in Listed(m) <==> p.id in m && m[p.id] == p
  {
    var ks, ps := Sorted(m.Keys), Listed(m);
    forall i | 0 <= i < |ps|
      ensures ps[i].id == ks[i]
    {
      assert ks[i] in ks;
    }
    forall p: PeerRecord | p.id in m && m[p.id] == p
      ensures p in Listed(m)
    {
      assert p.id in ks;
      var i :| 0 <= i < |ks| && ks[i] == p.id;
      assert ps[i] == p;
    }
  }

  /** Range visits every stored peer exactly once. */
  lemma RangeVisitsOnce(r: Root)
    requires Inv(r)
    ensures DistinctIds(RangeOrder(r))
    ensures forall p :: p in RangeOrder(r) <==> p.id in AsMap(r) && AsMap(r)[p.id] == p
  {
    ListedContents(r.gens[0]);
    ListedContents(r.gens[1]);
    ListedContents(r.gens[2]);
    var a, b, d := Listed(r.gens[0]), Listed(r.gens[1]), Listed(r.gens[2]);
    AppendDistinct(a, b);
    AppendDistinct(a + b, d);
  }

  lemma AppendDistinct(a: seq<PeerRecord>, b: seq<PeerRecord>)
    requires DistinctIds(a) && DistinctIds(b)
    requires forall p, q :: p in a && q in b ==> p.id != q.id
    ensures DistinctIds(a + b)
  {
    forall i, j | 0 <= i < j < |a + b|
      ensures (a + b)[i].id != (a + b)[j].id
    {
      if i < |a| <= j {
        assert a[i] in a && b[j - |a|] in b;
      }
    }
  }

  /** The first n generations of the range order. */
  function RangeUpto(r: Root, n: nat): (ps: seq<PeerRecord>)
    requires Shape(r) && n <= 3
  {
    if n == 0 then [] else RangeUpto(r, n - 1) + Listed(r.gens[n - 1])
  }

  lemma RangeUptoAll(r: Root)
    requires Shape(r)
    ensures RangeUpto(r, 3) == RangeOrder(r)
  {
    assert RangeUpto(r, 1) == Listed(r.gens[0]);
    assert RangeUpto(r, 2) == RangeUpto(r, 1) + Listed(r.gens[1]);
  }

  /** The peers passed when Range stands at position j of generation i. */
  ghost function Passed(r: Root, i: nat, j: nat): seq<PeerRecord>
    requires Shape(r) && i < 3 && j <= |r.gens[i]|
  {
    RangeUpto(r, i) + Listed(r.gens[i])[..j]
  }

  lemma TakeOneMore<T>(before: seq<T>, s: seq<T>, j: nat)
    requires j < |s|
    ensures before + s[..j + 1] == before + s[..j] + [s[j]]
  {
  }

  lemma TakeRest<T>(before: seq<T>, s: seq<T>, j: nat)
    requires j <= |s|
    ensures before + s[..j] + s[j..] == before + s
  {
  }

  lemma TakeNoneOrAll<T>(before: seq<T>, s: seq<T>)
    ensures before + s[..0] == before && before + s[..|s|] == before + s
  {
  }

  lemma PassOne(r: Root, i: nat, j: nat)
    requires Shape(r) && i < 3 && j < |r.gens[i]|
    ensures Passed(r, i, j + 1) == Passed(r, i, j) + [Listed(r.gens[i])[j]]
  {
    TakeOneMore(RangeUpto(r, i), Listed(r.gens[i]), j);
  }

  lemma PassRest(r: Root, i: nat, j: nat)
    requires Shape(r) && i < 3 && j <= |r.gens[i]|
    ensures Passed(r, i, j) + Listed(r.gens[i])[j..] == RangeUpto(r, i + 1)
  {
    TakeRest(RangeUpto(r, i), Listed(r.gens[i]), j);
  }

  lemma PassGeneration(r: Root, i: nat)
    requires Shape(r) && i < 3
    ensures Passed(r, i, 0) == RangeUpto(r, i) && Passed(r, i, |r.gens[i]|) == RangeUpto(r, i + 1)
  {
    TakeNoneOrAll(RangeUpto(r, i), Listed(r.gens[i]));
  }

  // ---------- The reply to an announce ----------

  predicate Eligible(ttl: int, now: int, caller: PeerRecord, p: PeerRecord) {
    && !Expired(ttl, now, p)
    && p.typ == caller.typ
    && (p.typ == WEBTORRENT ==> p.conn.Some?)
    && p.event != STOPPED
    && p.id != caller.id
  }

  /** The questions asked of a peer while ranging. */
  datatype Query =
    | Replying(ttl: int, now: int, caller: PeerRecord)
    | Lapsed(ttl: int, now: int)
    | Seeding(ttl: int, now: int)
    | Complete(ttl: int, now: int)
    | Incomplete(ttl: int, now: int)
    | Downloaded(ttl: int, now: int)

  predicate Passes(q: Query, p: PeerRecord) {
    match q
    case Replying(ttl, now, caller) => Eligible(ttl, now, caller, p)
    case Lapsed(ttl, now) => Expired(ttl, now, p)
    case Seeding(ttl, now) => !Expired(ttl, now, p) && p.left == 0 && p.event != STOPPED
    case Complete(ttl, now) => !Expired(ttl, now, p) && (p.left == 0 || p.event == COMPLETED)
    case Incomplete(ttl, now) => !Expired(ttl, now, p) && p.left != 0 && p.event != COMPLETED
    case Downloaded(ttl, now) => !Expired(ttl, now, p) && p.left == 0
  }

  function Filter(q: Query, ps: seq<PeerRecord>): (r: seq<PeerRecord>)
    ensures forall p :: p in r <==> p in ps && Passes(q, p)
  {
    if ps == [] then [] else
      var n := |ps| - 1;
      Filter(q, ps[..n]) + if Passes(q, ps[n]) then [ps[n]] else []
  }

  lemma {:induction false} FilterAppend(q: Query, a: seq<PeerRecord>, b: seq<PeerRecord>)
    ensures Filter(q, a + b) == Filter(q, a) + Filter(q, b)
  {
    if b == [] {
      assert a + b == a;
    } else {
      var n := |b| - 1;
      assert (a + b)[..|a + b| - 1] == a + b[..n];
      FilterAppend(q, a, b[..n]);
    }
  }

  lemma {:induction false} FilterDistinct(q: Query, ps: seq<PeerRecord>)
    requires DistinctIds(ps)
    ensures DistinctIds(Filter(q, ps))
  {
    if ps != [] {
      var n := |ps| - 1;
      FilterDistinct(q, ps[..n]);
      if Passes(q, ps[n]) {
        AppendDistinct(Filter(q, ps[..n]), [ps[n]]);
      }
    }
  }

  function Take<T>(ps: seq<T>, n: int): (r: seq<T>)
    ensures |r| == if n <= 0 then 0 else if n < |ps| then n else |ps|
  {
    if n <= 0 then [] else if n < |ps| then ps[..n] else ps
  }

  /** Visiting one more peer adds it exactly when it passes the filter and there is room. */
  lemma TakeFilterSnoc(q: Query, ps: seq<PeerRecord>, p: PeerRecord, n: int)
    ensures var r := Take(Filter(q, ps), n);
      Take(Filter(q, ps + [p]), n) == if |r| < n && Passes(q, p) then r + [p] else r
  {
    assert (ps + [p])[..|ps + [p]| - 1] == ps;
  }

  /** A full reply stays as it is, whatever else is visited. */
  lemma TakeFilterFull(q: Query, ps: seq<PeerRecord>, qs: seq<PeerRecord>, n: int)
    requires |Take(Filter(q, ps), n)| >= n
    ensures Take(Filter(q, ps + qs), n) == Take(Filter(q, ps), n)
  {
    FilterAppend(q, ps, qs);
  }

  /** The reply: of the eligible peers in range order, the first numWant. */
  function Reply(ttl: int, now: int, caller: PeerRecord, numWant: int, r: Root): seq<PeerRecord>
    requires Shape(r)
  {
    ReplyUpto(ttl, now, caller, numWant, RangeOrder(r))
  }

  /** What the callback of the answering range does with one peer. */
  datatype Verdict = NoteExpired | Skip | EndRange | Include

  function Judge(ttl: int, now: int, caller: PeerRecord, numWant: int, have: nat, p: PeerRecord): Verdict {
    if now - ttl > p.lastSeen then NoteExpired
    else if p.typ != caller.typ then Skip
    else if p.typ == WEBTORRENT && p.conn == None then Skip
    else if p.event == STOPPED then Skip
    else if have >= numWant then EndRange
    else if p.id == caller.id then Skip
    else Include
  }

  /** The keys of the expired among these peers, in order. */
  function LapsedKeys(ttl: int, now: int, passed: seq<PeerRecord>): seq<bytes> {
    if passed == [] then [] else
      var n := |passed| - 1;
      LapsedKeys(ttl, now, passed[..n]) + if Expired(ttl, now, passed[n]) then [passed[n].id] else []
  }

  ghost function LapsedSet(ttl: int, now: int, passed: seq<PeerRecord>): set<bytes> {
    SetOf(LapsedKeys(ttl, now, passed))
  }

  /** The reply after passing these peers. */
  function ReplyUpto(ttl: int, now: int, caller: PeerRecord, numWant: int, passed: seq<PeerRecord>): seq<PeerRecord> {
    Take(Filter(Replying(ttl, now, caller), passed), numWant)
  }

  /** One more peer passed: the reply and the expired keys grow by the verdict. */
  lemma JudgeOneMore(ttl: int, now: int, caller: PeerRecord, numWant: int, passed: seq<PeerRecord>, p: PeerRecord)
    ensures var resp := ReplyUpto(ttl, now, caller, numWant, passed);
      var v := Judge(ttl, now, caller, numWant, |resp|, p);
      && ReplyUpto(ttl, now, caller, numWant, passed + [p]) == (if v == Include then resp + [p] else resp)
      && LapsedKeys(ttl, now, passed + [p]) == LapsedKeys(ttl, now, passed) + (if v == NoteExpired then [p.id] else [])
      && (v == EndRange ==> |resp| >= numWant)
  {
    TakeFilterSnoc(Replying(ttl, now, caller), passed, p, numWant);
    assert (passed + [p])[..|passed|] == passed;
  }

  lemma {:induction false} LapsedSetGrows(ttl: int, now: int, a: seq<PeerRecord>, b: seq<PeerRecord>)
    ensures LapsedSet(ttl, now, a) <= LapsedSet(ttl, now, a + b)
  {
    if b == [] {
      assert a + b == a;
    } else {
      assert (a + b)[..|a + b| - 1] == a + b[..|b| - 1];
      LapsedSetGrows(ttl, now, a, b[..|b| - 1]);
    }
  }

  /** The visit to position j of generation i, in terms of what has been passed. */
  lemma JudgeAt(ttl: int, now: int, caller: PeerRecord, numWant: int, r: Root, i: nat, j: nat, p: PeerRecord,
                resp: seq<PeerRecord>, v: Verdict)
    requires Shape(r) && i < 3 && j < |r.gens[i]| && p == Listed(r.gens[i])[j]
    requires resp == ReplyUpto(ttl, now, caller, numWant, Passed(r, i, j))
    requires v == Judge(ttl, now, caller, numWant, |resp|, p)
    ensures ReplyUpto(ttl, now, caller, numWant, Passed(r, i, j + 1)) == if v == Include then resp + [p] else resp
    ensures LapsedKeys(ttl, now, Passed(r, i, j + 1)) == LapsedKeys(ttl, now, Passed(r, i, j)) + if v == NoteExpired then [p.id] else []
    ensures LapsedSet(ttl, now, Passed(r, i, j + 1)) == LapsedSet(ttl, now, Passed(r, i, j)) + if v == NoteExpired then {p.id} else {}
    ensures v == EndRange ==> |resp| >= numWant && ReplyUpto(ttl, now, caller, numWant, RangeUpto(r, i + 1)) == resp
    ensures v == EndRange ==> LapsedSet(ttl, now, Passed(r, i, j)) <= LapsedSet(ttl, now, RangeUpto(r, i + 1))
  {
    var before := Passed(r, i, j);
    PassOne(r, i, j);
    JudgeOneMore(ttl, now, caller, numWant, before, p);
    SetOfSnoc(LapsedKeys(ttl, now, before), p.id);
    if v == EndRange { JudgeEnd(ttl, now, caller, numWant, r, i, j); }
  }

  /** A full reply stays as it is, whatever the rest of the generation holds. */
  lemma JudgeEnd(ttl: int, now: int, caller: PeerRecord, numWant: int, r: Root, i: nat, j: nat)
    requires Shape(r) && i < 3 && j < |r.gens[i]| && |ReplyUpto(ttl, now, caller, numWant, Passed(r, i, j))| >= numWant
    ensures ReplyUpto(ttl, now, caller, numWant, RangeUpto(r, i + 1)) == ReplyUpto(ttl, now, caller, numWant, Passed(r, i, j))
    ensures LapsedSet(ttl, now, Passed(r, i, j)) <= LapsedSet(ttl, now, RangeUpto(r, i + 1))
  {
    var before, rest := Passed(r, i, j), Listed(r.gens[i])[j..];
    PassRest(r, i, j);
    LapsedSetGrows(ttl, now, before, rest);
    TakeFilterFull(Replying(ttl, now, caller), before, rest, numWant);
  }

  lemma {:induction false} LapsedKeysMeaning(ttl: int, now: int, passed: seq<PeerRecord>)
    ensures |LapsedKeys(ttl, now, passed)| == |Filter(Lapsed(ttl, now), passed)|
    ensures SetOf(LapsedKeys(ttl, now, passed)) == Ids(Filter(Lapsed(ttl, now), passed))
  {
    if passed != [] {
      var before, p := passed[..|passed| - 1], passed[|passed| - 1];
      assert passed == before + [p];
      LapsedKeysMeaning(ttl, now, before);
      FilterSnocSize(Lapsed(ttl, now), before, p);
      FilterSnocIds(Lapsed(ttl, now), before, p);
      SetOfSnoc(LapsedKeys(ttl, now, before), p.id);
    }
  }

  /** Ranging over the whole store without a stop meets exactly the expired keys. */
  lemma LapsedKeysAll(ttl: int, now: int, r: Root)
    requires Inv(r)
    ensures SetOf(LapsedKeys(ttl, now, RangeUpto(r, 3))) == ExpiredIn(ttl, now, r)
    ensures |LapsedKeys(ttl, now, RangeUpto(r, 3))| == |ExpiredIn(ttl, now, r)|
  {
    RangeUptoAll(r);
    LapsedKeysMeaning(ttl, now, RangeOrder(r));
    RangeCounts(r, Lapsed(ttl, now));
  }

  /** Nobody is listed twice, everybody listed is stored and eligible, and nobody eligible is
      missing from a reply that has room left. */
  lemma ReplyIsSoundAndComplete(ttl: int, now: int, caller: PeerRecord, numWant: int, r: Root)
    requires Inv(r)
    ensures var reply := Reply(ttl, now, caller, numWant, r);
      && DistinctIds(reply)
      && (forall p :: p in reply ==> p.id in AsMap(r) && AsMap(r)[p.id] == p && Eligible(ttl, now, caller, p))
      && (|reply| < numWant ==>
            forall k :: k in AsMap(r) && Eligible(ttl, now, caller, AsMap(r)[k]) ==> AsMap(r)[k] in reply)
  {
    var q := Replying(ttl, now, caller);
    var all := Filter(q, RangeOrder(r));
    PassingInRange(q, r);
    TakeOf(all, numWant);
    forall k | k in AsMap(r) && Eligible(ttl, now, caller, AsMap(r)[k])
      ensures AsMap(r)[k] in all
    {
      assert Passes(q, AsMap(r)[k]);
    }
  }

  /** The filtered range has exactly the stored peers that pass, each once. */
  lemma PassingInRange(q: Query, r: Root)
    requires Inv(r)
    ensures DistinctIds(Filter(q, RangeOrder(r)))
    ensures forall p :: p in Filter(q, RangeOrder(r)) ==> p.id in AsMap(r) && AsMap(r)[p.id] == p && Passes(q, p)
    ensures forall k :: k in AsMap(r) && Passes(q, AsMap(r)[k]) ==> AsMap(r)[k] in Filter(q, RangeOrder(r))
  {
    RangeVisitsOnce(r);
    FilterDistinct(q, RangeOrder(r));
    forall k | k in AsMap(r) && Passes(q, AsMap(r)[k])
      ensures AsMap(r)[k] in Filter(q, RangeOrder(r))
    {
      StoredId(r, k);
    }
  }

  lemma StoredId(r: Root, k: bytes)
    requires Inv(r) && k in AsMap(r)
    ensures AsMap(r)[k].id == k
  {
  }

  lemma TakeOf(all: seq<PeerRecord>, n: int)
    requires DistinctIds(all)
    ensures DistinctIds(Take(all, n))
    ensures forall p :: p in Take(all, n) ==> p in all
    ensures |Take(all, n)| < n ==> Take(all, n) == all
  {
  }

  // ---------- Scrape ----------

  datatype ScrapeFile = ScrapeFile(seeder: nat, complete: nat, incomplete: nat, downloaded: nat)

  ghost function Having(q: Query, m: PeerMap): set<bytes> {
    set k | k in m && Passes(q, m[k])
  }

  lemma FilterSnocSize(q: Query, ps: seq<PeerRecord>, p: PeerRecord)
    ensures |Filter(q, ps + [p])| == |Filter(q, ps)| + if Passes(q, p) then 1 else 0
  {
    assert (ps + [p])[..|ps + [p]| - 1] == ps;
  }

  /** What the callback of the counting range does with one peer. */
  function Bump(ttl: int, now: int, file: ScrapeFile, p: PeerRecord): ScrapeFile {
    if now - ttl > p.lastSeen then file
    else if p.left == 0 then
      file.(downloaded := file.downloaded + 1, complete := file.complete + 1,
            seeder := file.seeder + if p.event != STOPPED then 1 else 0)
    else if p.event == COMPLETED then file.(complete := file.complete + 1)
    else file.(incomplete := file.incomplete + 1)
  }

  /** The counters after passing these peers. */
  function Tally(ttl: int, now: int, passed: seq<PeerRecord>): ScrapeFile {
    if passed == [] then ScrapeFile(0, 0, 0, 0)
    else Bump(ttl, now, Tally(ttl, now, passed[..|passed| - 1]), passed[|passed| - 1])
  }

  lemma TallyOneMore(ttl: int, now: int, passed: seq<PeerRecord>, p: PeerRecord)
    ensures Tally(ttl, now, passed + [p]) == Bump(ttl, now, Tally(ttl, now, passed), p)
    ensures LapsedKeys(ttl, now, passed + [p]) == LapsedKeys(ttl, now, passed) + (if Expired(ttl, now, p) then [p.id] else [])
  {
    assert (passed + [p])[..|passed|] == passed;
  }

  lemma {:induction false} TallyCounts(ttl: int, now: int, passed: seq<PeerRecord>)
    ensures Tally(ttl, now, passed) ==
      ScrapeFile(|Filter(Seeding(ttl, now), passed)|, |Filter(Complete(ttl, now), passed)|,
                 |Filter(Incomplete(ttl, now), passed)|, |Filter(Downloaded(ttl, now), passed)|)
  {
    if passed != [] {
      TallyCounts(ttl, now, passed[..|passed| - 1]);
    }
  }

  /** Passing everything in range order gives the counts over the one map. */
  lemma TallyAll(ttl: int, now: int, r: Root)
    requires Inv(r)
    ensures Tally(ttl, now, RangeUpto(r, 3)) == Counts(ttl, now, AsMap(r))
  {
    RangeUptoAll(r);
    TallyCounts(ttl, now, RangeOrder(r));
    RangeCounts(r, Seeding(ttl, now));
    RangeCounts(r, Complete(ttl, now));
    RangeCounts(r, Incomplete(ttl, now));
    RangeCounts(r, Downloaded(ttl, now));
  }

  ghost function Ids(ps: seq<PeerRecord>): set<bytes> {
    set p | p in ps :: p.id
  }

  lemma {:induction false} IdsSize(ps: seq<PeerRecord>)
    requires DistinctIds(ps)
    ensures |Ids(ps)| == |ps|
  {
    if ps != [] {
      var n := |ps| - 1;
      IdsSize(ps[..n]);
      assert ps == ps[..n] + [ps[n]];
      assert Ids(ps) == Ids(ps[..n]) + {ps[n].id};
    }
  }

  lemma FilteredIds(ps: seq<PeerRecord>, m: PeerMap, q: Query)
    requires OwnIds(m) && forall p :: p in ps <==> p.id in m && m[p.id] == p
    ensures Ids(Filter(q, ps)) == Having(q, m)
  {
    forall k | k in Having(q, m)
      ensures k in Ids(Filter(q, ps))
    {
      assert m[k].id == k && m[k] in Filter(q, ps);
    }
  }

  lemma AsMapOwnIds(r: Root)
    requires Inv(r)
    ensures OwnIds(AsMap(r))
  {
  }

  /** Counting while ranging counts the keys of the one map. */
  lemma RangeCounts(r: Root, q: Query)
    requires Inv(r)
    ensures |Filter(q, RangeOrder(r))| == |Having(q, AsMap(r))|
    ensures Ids(Filter(q, RangeOrder(r))) == Having(q, AsMap(r))
  {
    RangeVisitsOnce(r);
    AsMapOwnIds(r);
    FilterDistinct(q, RangeOrder(r));
    IdsSize(Filter(q, RangeOrder(r)));
    FilteredIds(RangeOrder(r), AsMap(r), q);
  }

  lemma FilterSnocIds(q: Query, ps: seq<PeerRecord>, p: PeerRecord)
    ensures Ids(Filter(q, ps + [p])) == Ids(Filter(q, ps)) + if Passes(q, p) then {p.id} else {}
  {
    assert (ps + [p])[..|ps + [p]| - 1] == ps;
  }

  /** The four counts, over one ordinary map. */
  ghost function Counts(ttl: int, now: int, m: PeerMap): ScrapeFile {
    ScrapeFile(|Having(Seeding(ttl, now), m)|,
               |Having(Complete(ttl, now), m)|,
               |Having(Incomplete(ttl, now), m)|,
               |Having(Downloaded(ttl, now), m)|)
  }

  lemma LiveAreCounted(ttl: int, now: int, m: PeerMap)
    ensures Having(Complete(ttl, now), m) !! Having(Incomplete(ttl, now), m)
    ensures Having(Complete(ttl, now), m) + Having(Incomplete(ttl, now), m) == LiveOf(ttl, now, m).Keys
  {
  }

  lemma SeedingWithinDownloaded(ttl: int, now: int, m: PeerMap)
    ensures Having(Seeding(ttl, now), m) <= Having(Downloaded(ttl, now), m) <= Having(Complete(ttl, now), m)
  {
  }

  /** Every live peer is counted once, as complete or incomplete; seeders are among the
      downloaded and these among the complete. */
  lemma ScrapeConserves(ttl: int, now: int, m: PeerMap)
    ensures var s := Counts(ttl, now, m);
      && s.complete + s.incomplete == |LiveOf(ttl, now, m)|
      && s.seeder <= s.downloaded <= s.complete
  {
    LiveAreCounted(ttl, now, m);
    SeedingWithinDownloaded(ttl, now, m);
    PartitionSize(Having(Complete(ttl, now), m), Having(Incomplete(ttl, now), m), LiveOf(ttl, now, m).Keys);
    SubsetSize(Having(Seeding(ttl, now), m), Having(Downloaded(ttl, now), m));
    SubsetSize(Having(Downloaded(ttl, now), m), Having(Complete(ttl, now), m));
  }

  /** Without stopped peers every downloaded peer is a seeder. */
  lemma ScrapeWithoutStopped(ttl: int, now: int, m: PeerMap)
    requires forall k :: k in m ==> m[k].event != STOPPED
    ensures Counts(ttl, now, m).seeder == Counts(ttl, now, m).downloaded
  {
    assert Having(Seeding(ttl, now), m) == Having(Downloaded(ttl, now), m);
  }

  lemma PartitionSize<T>(a: set<T>, b: set<T>, whole: set<T>)
    requires a !! b && a + b == whole
    ensures |a| + |b| == |whole|
  {
    assert |a + b| == |a| + |b|;
  }

  lemma SubsetSize<T>(a: set<T>, b: set<T>)
    requires a <= b
    ensures |a| <= |b|
  {
    PartitionSize(a, b - a, b);
  }

  // ---------- A sweep, step by step ----------

  /** A sweep closes the socket of an expired WebTorrent peer before removing the peer. */
  function CloseExpired(ttl: int, now: int, p: PeerRecord): PeerRecord {
    if Expired(ttl, now, p) && p.typ == WEBTORRENT then p.(conn := None) else p
  }

  ghost predicate ClosedFrom(ttl: int, now: int, was: PeerMap, m: PeerMap) {
    m.Keys == was.Keys && forall k :: k in m ==> m[k] == CloseExpired(ttl, now, was[k])
  }

  function Replaced(r: Root, i: nat, k: bytes, p: PeerRecord): (t: Root)
    requires Shape(r) && i < 3 && k in r.gens[i]
    ensures Shape(t)
  {
    r.(gens := r.gens[i := r.gens[i][k := p]])
  }

  ghost function SetOf(keys: seq<bytes>): set<bytes> {
    set k | k in keys
  }

  ghost predicate PartlyClosed(ttl: int, now: int, was: PeerMap, m: PeerMap, done: set<bytes>) {
    m.Keys == was.Keys && forall k :: k in m ==> m[k] == if k in done then CloseExpired(ttl, now, was[k]) else was[k]
  }

  /** The sweep has visited generations before i, and these keys of generation i. */
  ghost predicate ClosedUpto(ttl: int, now: int, was: Root, r: Root, i: nat, done: set<bytes>)
    requires Shape(was) && Shape(r)
  {
    && r.active == was.active && r.lastClean == was.lastClean
    && forall a :: 0 <= a < 3 ==>
         PartlyClosed(ttl, now, was.gens[a], r.gens[a], if a < i then was.gens[a].Keys else if a == i then done else {})
  }

  ghost predicate AllClosed(ttl: int, now: int, was: Root, r: Root)
    requires Shape(was) && Shape(r)
  {
    forall a :: 0 <= a < 3 ==> ClosedFrom(ttl, now, was.gens[a], r.gens[a])
  }

  lemma ClosedNone(ttl: int, now: int, was: Root)
    requires Shape(was)
    ensures ClosedUpto(ttl, now, was, was, 0, {})
  {
  }

  lemma ClosedGeneration(ttl: int, now: int, was: Root, r: Root, i: nat)
    requires Shape(was) && Shape(r) && i < 3
    requires ClosedUpto(ttl, now, was, r, i, was.gens[i].Keys)
    ensures ClosedUpto(ttl, now, was, r, i + 1, {})
    ensures i == 2 ==> AllClosed(ttl, now, was, r)
  {
  }

  lemma ClosedInv(ttl: int, now: int, was: Root, r: Root, i: nat, done: set<bytes>)
    requires Inv(was) && Shape(r) && ClosedUpto(ttl, now, was, r, i, done)
    ensures Inv(r)
  {
  }

  lemma ClosedOneMore(ttl: int, now: int, was: Root, r: Root, i: nat, done: set<bytes>, k: bytes)
    requires Inv(was) && Shape(r) && i < 3 && k in was.gens[i] && k !in done
    requires ClosedUpto(ttl, now, was, r, i, done)
    ensures Inv(r) && k in r.gens[i] && r.gens[i][k] == was.gens[i][k]
    ensures ClosedUpto(ttl, now, was, Replaced(r, i, k, CloseExpired(ttl, now, was.gens[i][k])), i, done + {k})
  {
    ClosedInv(ttl, now, was, r, i, done);
  }

  /** The key at position j of a generation: not among the earlier ones, and where Listed has it. */
  lemma SortedAt(m: PeerMap, j: nat)
    requires j < |m| && OwnIds(m)
    ensures var keys := Sorted(m.Keys);
      && |keys| == |m| && keys[j] in m && keys[j] !in SetOf(keys[..j])
      && Listed(m)[j] == m[keys[j]] && Listed(m)[j].id == keys[j]
      && SetOf(keys[..j + 1]) == SetOf(keys[..j]) + {keys[j]}
  {
    var keys := Sorted(m.Keys);
    assert |keys| == |m.Keys| == |m|;
    assert keys[j] in keys;
    AscendingPrefix(keys, j);
  }

  /** One visit of the closing range, in generation i at position j. */
  lemma CloseStep(ttl: int, now: int, was: Root, r: Root, i: nat, j: nat)
    requires Inv(was) && Shape(r) && i < 3 && j < |was.gens[i]| == |Sorted(was.gens[i].Keys)|
    requires ClosedUpto(ttl, now, was, r, i, SetOf(Sorted(was.gens[i].Keys)[..j]))
    ensures var keys := Sorted(was.gens[i].Keys);
      && Inv(r) && keys[j] in was.gens[i] && keys[j] in r.gens[i] && r.gens[i][keys[j]] == was.gens[i][keys[j]]
      && ClosedUpto(ttl, now, was, Replaced(r, i, keys[j], CloseExpired(ttl, now, was.gens[i][keys[j]])), i, SetOf(keys[..j + 1]))
      && LapsedKeys(ttl, now, Passed(was, i, j + 1)) ==
         LapsedKeys(ttl, now, Passed(was, i, j)) + (if Expired(ttl, now, was.gens[i][keys[j]]) then [keys[j]] else [])
  {
    var keys := Sorted(was.gens[i].Keys);
    SortedAt(was.gens[i], j);
    ClosedOneMore(ttl, now, was, r, i, SetOf(keys[..j]), keys[j]);
    PassOne(was, i, j);
    TallyOneMore(ttl, now, Passed(was, i, j), was.gens[i][keys[j]]);
  }

  lemma AscendingPrefix(keys: seq<bytes>, j: nat)
    requires Ascending(keys) && j < |keys|
    ensures keys[j] !in SetOf(keys[..j]) && SetOf(keys[..j + 1]) == SetOf(keys[..j]) + {keys[j]}
  {
    assert keys[..j + 1] == keys[..j] + [keys[j]];
  }

  lemma SortedEnds(m: PeerMap)
    ensures var keys := Sorted(m.Keys); SetOf(keys[..0]) == {} && SetOf(keys[..|keys|]) == m.Keys && |keys| == |m|
  {
    var keys := Sorted(m.Keys);
    assert keys[..|keys|] == keys;
  }

  lemma SetOfSnoc(keys: seq<bytes>, k: bytes)
    ensures SetOf(keys + [k]) == SetOf(keys) + {k}
  {
  }

  function RemovedSet(r: Root, keys: set<bytes>): Root
    requires Shape(r)
  {
    r.(gens := [r.gens[0] - keys, r.gens[1] - keys, r.gens[2] - keys])
  }

  lemma RemovedSetInv(r: Root, keys: set<bytes>)
    requires Inv(r)
    ensures Inv(RemovedSet(r, keys)) && AsMap(RemovedSet(r, keys)) == AsMap(r) - keys
    ensures RemovedSet(r, keys).active == r.active && RemovedSet(r, keys).lastClean == r.lastClean
  {
  }

  lemma MapMinusMore(m: PeerMap, a: set<bytes>, k: bytes)
    ensures m - (a + {k}) == m - a - {k}
  {
  }

  lemma RemovedSetSnoc(r: Root, keys: seq<bytes>, j: nat)
    requires Shape(r) && j < |keys|
    ensures RemovedSet(r, SetOf(keys[..j + 1])) == Removed(RemovedSet(r, SetOf(keys[..j])), keys[j])
  {
    assert keys[..j + 1] == keys[..j] + [keys[j]];
    SetOfSnoc(keys[..j], keys[j]);
    MapMinusMore(r.gens[0], SetOf(keys[..j]), keys[j]);
    MapMinusMore(r.gens[1], SetOf(keys[..j]), keys[j]);
    MapMinusMore(r.gens[2], SetOf(keys[..j]), keys[j]);
  }

  lemma MapMinusNone(m: PeerMap)
    ensures m - {} == m
  {
  }

  lemma RemovedSetEnds(r: Root, keys: seq<bytes>)
    requires Shape(r)
    ensures RemovedSet(r, SetOf(keys[..0])) == r && keys[..|keys|] == keys
  {
    assert SetOf(keys[..0]) == {};
    MapMinusNone(r.gens[0]);
    MapMinusNone(r.gens[1]);
    MapMinusNone(r.gens[2]);
    assert RemovedSet(r, {}).gens == r.gens;
  }

  ghost function ExpiredIn(ttl: int, now: int, r: Root): set<bytes>
    requires Shape(r)
  {
    Having(Lapsed(ttl, now), AsMap(r))
  }

  lemma LiveByRemoval(ttl: int, now: int, was: PeerMap, closed: PeerMap, keys: set<bytes>)
    requires ClosedFrom(ttl, now, was, closed)
    requires forall k :: k in was ==> (k in keys <==> Expired(ttl, now, was[k]))
    ensures closed - keys == LiveOf(ttl, now, was)
  {
  }

  /** Taking the expired keys out one by one, wherever they are, is the sweep. */
  lemma SweptByRemoval(ttl: int, now: int, was: Root, closed: Root)
    requires Inv(was) && Shape(closed) && closed.active == was.active && !Throttled(ttl, now, was)
    requires AllClosed(ttl, now, was, closed)
    ensures RemovedSet(closed, ExpiredIn(ttl, now, was)).(lastClean := now) == Swept(ttl, now, was)
  {
    var keys := ExpiredIn(ttl, now, was);
    forall i | 0 <= i < 3
      ensures closed.gens[i] - keys == LiveOf(ttl, now, was.gens[i])
    {
      InGeneration(was, i);
      LiveByRemoval(ttl, now, was.gens[i], closed.gens[i], keys);
    }
  }

  lemma InGeneration(r: Root, i: nat)
    requires Inv(r) && i < 3
    ensures forall k :: k in r.gens[i] ==> k in AsMap(r) && AsMap(r)[k] == r.gens[i][k]
  {
  }

  /** The number of expired peers is what a sweep takes off Len. */
  lemma SweepSize(ttl: int, now: int, r: Root)
    requires Inv(r) && !Throttled(ttl, now, r)
    ensures |ExpiredIn(ttl, now, r)| == Len(r) - Len(Swept(ttl, now, r))
  {
    SweepRefines(ttl, now, r);
    LenAgrees(r);
    LenAgrees(Swept(ttl, now, r));
    LiveSize(ttl, now, AsMap(r));
  }

  lemma LiveSize(ttl: int, now: int, m: PeerMap)
    ensures |Having(Lapsed(ttl, now), m)| + |LiveOf(ttl, now, m)| == |m|
  {
    PartitionSize(Having(Lapsed(ttl, now), m), LiveOf(ttl, now, m).Keys, m.Keys);
  }

  // ---------- What these mean, in the fields of a peer and in numbers ----------

  /** The rotation check finds a generation full when it holds more than half of M, rounded towards
      zero. */
  lemma FullIff(c: Config, r: Root)
    requires Shape(r)
    ensures c.maxPeersPerTorrent >= 0 ==> (Full(c, r) <==> 2 * |r.gens[r.active]| > c.maxPeersPerTorrent)
    ensures c.maxPeersPerTorrent < 0 ==> (Full(c, r) <==> 2 * |r.gens[r.active]| > c.maxPeersPerTorrent + 1)
  {
  }

  lemma HalfMeaning(maxPeers: int)
    ensures maxPeers >= 0 ==> 2 * Half(maxPeers) <= maxPeers <= 2 * Half(maxPeers) + 1
    ensures Half(-maxPeers) == -Half(maxPeers) && Half(maxPeers) >= maxPeers / 2
  {
  }

  /** The copy in generation i was seen no earlier than any other, and later than those before it. */
  ghost predicate LastSeenIn(r: Root, k: bytes, i: nat)
    requires Shape(r)
  {
    && i < 3 && k in r.gens[i]
    && (forall j :: 0 <= j < 3 && k in r.gens[j] ==> r.gens[j][k].lastSeen <= r.gens[i][k].lastSeen)
    && (forall j :: 0 <= j < i && k in r.gens[j] ==> r.gens[j][k].lastSeen < r.gens[i][k].lastSeen)
  }

  /** Of several copies LoadAndDelete hands back one seen last, of those the first generation's. */
  lemma LatestIsLast(r: Root, k: bytes, i: nat)
    requires Shape(r)
    ensures LastSeenIn(r, k, i) ==> Latest(r, k) == Some(r.gens[i][k])
    ensures Latest(r, k).None? <==> k !in r.gens[0] && k !in r.gens[1] && k !in r.gens[2]
  {
  }

  /** Load finds the copy in the first generation that has one. */
  lemma LoadIsFirst(r: Root, k: bytes, i: nat)
    requires Shape(r) && i < 3
    ensures k in r.gens[i] && (forall j :: 0 <= j < i ==> k !in r.gens[j]) ==> Load(r, k) == Some(r.gens[i][k])
    ensures Load(r, k).None? <==> k !in r.gens[0] && k !in r.gens[1] && k !in r.gens[2]
  {
  }

  /** Delete takes the key out of the first generation that has it and leaves the others alone. */
  lemma DeleteStopsAtFirst(r: Root, k: bytes, i: nat)
    requires Shape(r) && i < 3 && k in r.gens[i] && forall j :: 0 <= j < i ==> k !in r.gens[j]
    ensures DeletedFirst(r, k) == r.(gens := r.gens[i := r.gens[i] - {k}])
  {
  }

  /** A sweep that is due leaves in each generation exactly the peers seen no longer than the TTL ago,
      and one that is not due leaves everything. */
  lemma SweptExactly(ttl: int, now: int, r: Root, i: nat, k: bytes)
    requires Shape(r) && i < 3
    ensures k in Swept(ttl, now, r).gens[i] <==> k in r.gens[i] && (now < r.lastClean + ttl || r.gens[i][k].lastSeen >= now - ttl)
    ensures k in Swept(ttl, now, r).gens[i] ==> Swept(ttl, now, r).gens[i][k] == r.gens[i][k]
    ensures Swept(ttl, now, r).lastClean == if now < r.lastClean + ttl then r.lastClean else now
    ensures Swept(ttl, now, r).active == r.active
  {
  }

  /** The socket of a peer is dropped exactly if the peer is expired and speaks WebTorrent (1). */
  lemma CloseExpiredMeaning(ttl: int, now: int, p: PeerRecord)
    ensures CloseExpired(ttl, now, p) == p.(conn := if p.lastSeen < now - ttl && p.typ == 1 then None else p.conn)
  {
  }

  lemma ExpiredInMeaning(ttl: int, now: int, r: Root)
    requires Shape(r)
    ensures ExpiredIn(ttl, now, r) == set k | k in AsMap(r) && AsMap(r)[k].lastSeen < now - ttl
  {
  }

  /** The four numbers of a scrape, by what is left to download, the event (2 stopped, 3 completed)
      and the time. */
  ghost predicate CountsOf(m: PeerMap, ttl: int, now: int, f: ScrapeFile) {
    && f.complete == |set k | k in m && m[k].lastSeen >= now - ttl && (m[k].left == 0 || m[k].event == 3)|
    && f.incomplete == |set k | k in m && m[k].lastSeen >= now - ttl && m[k].left != 0 && m[k].event != 3|
    && f.downloaded == |set k | k in m && m[k].lastSeen >= now - ttl && m[k].left == 0|
    && f.seeder == |set k | k in m && m[k].lastSeen >= now - ttl && m[k].left == 0 && m[k].event != 2|
  }

  lemma CountsMeaning(ttl: int, now: int, m: PeerMap)
    ensures CountsOf(m, ttl, now, Counts(ttl, now, m))
  {
    assert Having(Complete(ttl, now), m) ==
           set k | k in m && m[k].lastSeen >= now - ttl && (m[k].left == 0 || m[k].event == 3);
    assert Having(Incomplete(ttl, now), m) ==
           set k | k in m && m[k].lastSeen >= now - ttl && m[k].left != 0 && m[k].event != 3;
    assert Having(Downloaded(ttl, now), m) == set k | k in m && m[k].lastSeen >= now - ttl && m[k].left == 0;
    assert Having(Seeding(ttl, now), m) == set k | k in m && m[k].lastSeen >= now - ttl && m[k].left == 0 && m[k].event != 2;
  }

  /** Who may be listed to a caller: seen within the TTL, of the caller's type, with a socket if that
      is WebTorrent (1), not stopped (2), and not the caller. */
  predicate MayBeListed(ttl: int, now: int, caller: PeerRecord, p: PeerRecord) {
    && p.lastSeen >= now - ttl && p.typ == caller.typ && (p.typ == 1 ==> p.conn.Some?)
    && p.event != 2 && p.id != caller.id
  }

  ghost function Listable(ttl: int, now: int, caller: PeerRecord, m: PeerMap): set<bytes> {
    set k | k in m && MayBeListed(ttl, now, caller, m[k])
  }

  function Smaller(a: int, b: int): int {
    if a <= b then a else b
  }

  /** The reply lists as many of those peers as there are, but no more than asked for, and none for a
      negative number; nobody twice, and only those. */
  lemma ReplyExactly(ttl: int, now: int, caller: PeerRecord, numWant: int, r: Root)
    requires Inv(r)
    ensures var reply := Reply(ttl, now, caller, numWant, r);
      && DistinctIds(reply)
      && (forall p :: p in reply ==> p.id in AsMap(r) && AsMap(r)[p.id] == p && MayBeListed(ttl, now, caller, p))
      && |reply| == Smaller(AtLeastZero(numWant), |Listable(ttl, now, caller, AsMap(r))|)
  {
    ReplyIsSoundAndComplete(ttl, now, caller, numWant, r);
    RangeCounts(r, Replying(ttl, now, caller));
    RangeUptoAll(r);
    EligibleIsListable(ttl, now, caller, AsMap(r));
  }

  lemma EligibleIsListable(ttl: int, now: int, caller: PeerRecord, m: PeerMap)
    ensures Having(Replying(ttl, now, caller), m) == Listable(ttl, now, caller, m)
    ensures forall p :: Eligible(ttl, now, caller, p) <==> MayBeListed(ttl, now, caller, p)
  {
  }

  /** The range order: generation by generation, by key within one. */
  ghost predicate Before(r: Root, p: PeerRecord, q: PeerRecord)
    requires Shape(r)
  {
    exists i, j :: 0 <= i <= j < 3 && p.id in r.gens[i] && q.id in r.gens[j] && (i == j ==> Less(p.id, q.id))
  }

  ghost predicate InOrder(r: Root, ps: seq<PeerRecord>)
    requires Shape(r)
  {
    forall a, b :: 0 <= a < b < |ps| ==> Before(r, ps[a], ps[b])
  }

  /** One generation in order. */
  lemma ListedInOrder(r: Root, i: nat)
    requires Inv(r) && i < 3
    ensures InOrder(r, Listed(r.gens[i])) && forall p :: p in Listed(r.gens[i]) ==> p.id in r.gens[i]
  {
    var here, keys := Listed(r.gens[i]), Sorted(r.gens[i].Keys);
    forall a | 0 <= a < |here|
      ensures here[a].id == keys[a] && here[a].id in r.gens[i]
    {
      SortedAt(r.gens[i], a);
    }
    forall a, b | 0 <= a < b < |here|
      ensures Before(r, here[a], here[b])
    {
      assert Less(keys[a], keys[b]);
    }
  }

  lemma AppendInOrder(r: Root, before: seq<PeerRecord>, here: seq<PeerRecord>)
    requires Shape(r) && InOrder(r, before) && InOrder(r, here)
    requires forall p, q :: p in before && q in here ==> Before(r, p, q)
    ensures InOrder(r, before + here)
  {
  }

  lemma {:induction false} RangeInOrder(r: Root, n: nat)
    requires Inv(r) && n <= 3
    ensures InOrder(r, RangeUpto(r, n))
    ensures forall p :: p in RangeUpto(r, n) ==> exists i :: 0 <= i < n && p.id in r.gens[i]
  {
    if n > 0 {
      RangeInOrder(r, n - 1);
      ListedInOrder(r, n - 1);
      var before, here := RangeUpto(r, n - 1), Listed(r.gens[n - 1]);
      forall p, q | p in before && q in here
        ensures Before(r, p, q)
      {
        var i :| 0 <= i < n - 1 && p.id in r.gens[i];
        assert q.id in r.gens[n - 1];
      }
      AppendInOrder(r, before, here);
    }
  }

  lemma {:induction false} FilterInOrder(q: Query, r: Root, ps: seq<PeerRecord>)
    requires Shape(r) && InOrder(r, ps)
    ensures InOrder(r, Filter(q, ps))
    ensures forall p :: p in Filter(q, ps) ==> p in ps
  {
    if ps != [] {
      var n := |ps| - 1;
      FilterInOrder(q, r, ps[..n]);
      forall a | 0 <= a < |Filter(q, ps[..n])|
        ensures Before(r, Filter(q, ps[..n])[a], ps[n])
      {
        assert Filter(q, ps[..n])[a] in ps[..n];
        var x :| 0 <= x < n && ps[x] == Filter(q, ps[..n])[a];
      }
    }
  }

  /** The reply keeps the range order. */
  lemma ReplyInOrder(ttl: int, now: int, caller: PeerRecord, numWant: int, r: Root)
    requires Inv(r)
    ensures InOrder(r, Reply(ttl, now, caller, numWant, r))
  {
    RangeUptoAll(r);
    RangeInOrder(r, 3);
    FilterInOrder(Replying(ttl, now, caller), r, RangeOrder(r));
  }
}
