/** What deferring and splitting costs: exactly when a deferred expiry delete takes a peer that has
    been refreshed, when an update task split in two leaves a peer in two generations, and when a
    rotation check split in two ejects peers too early. */
module DeferredTasks {
  import opened Bytes
  import opened Peers
  import opened Generations
  import opened StoreRuns
  import opened StoreSafety

  // ---------- Expiry deletes ----------

  /** The event says something about k. */
  ghost predicate Concerns(e: Event, k: bytes) {
    match e
    case Applied(p) => p.id == k
    case Dropped(keys) => k in keys
  }

  /** Log position i, after the first `from` events, refreshed k with a time that is not expired
      at `now`, and nothing concerned k afterwards. */
  ghost predicate RefreshedAt(log: seq<Event>, from: nat, k: bytes, ttl: int, now: int, i: int) {
    && from <= i < |log| && log[i].Applied? && log[i].peer.id == k && !Expired(ttl, now, log[i].peer)
    && forall j :: i < j < |log| ==> !Concerns(log[j], k)
  }

  ghost predicate Live(found: Option<PeerRecord>, ttl: int, now: int) {
    found.Some? && !Expired(ttl, now, found.value)
  }

  lemma {:induction false} LiveIffRefreshed(log: seq<Event>, from: nat, k: bytes, ttl: int, now: int)
    requires from <= |log| && !Live(Entry(log[..from], k), ttl, now)
    ensures Live(Entry(log, k), ttl, now) <==> exists i :: RefreshedAt(log, from, k, ttl, now, i)
  {
    if |log| == from {
      assert log[..from] == log;
    } else {
      var n := |log| - 1;
      var before := log[..n];
      assert before[..from] == log[..from];
      LiveIffRefreshed(before, from, k, ttl, now);
      if Concerns(log[n], k) {
        assert log[n].Applied? && !Expired(ttl, now, log[n].peer) ==> RefreshedAt(log, from, k, ttl, now, n);
      } else {
        forall i
          ensures RefreshedAt(log, from, k, ttl, now, i) <==> RefreshedAt(before, from, k, ttl, now, i)
        {
        }
      }
    }
  }

  lemma {:induction false} LogGrows(c: Config, s: State, ls: seq<Label>)
    requires Shape(s.root) && Feasible(c, s, ls)
    ensures s.log <= Exec(c, s, ls).log
    decreases |ls|
  {
    if ls != [] {
      assert s.log <= Next(c, s, ls[0]).log;
      LogGrows(c, Next(c, s, ls[0]), ls[1..]);
    }
  }

  predicate Scans(l: Label) {
    l.Announce? || l.Submit? || l.Scrape?
  }

  /** An expiry delete of k, decided by a scan at l.now and run after any steps in between, takes a
      peer that the scan would have kept if and only if, since the scan, an update that is not
      expired at l.now was applied to k and nothing has concerned k after it. */
  lemma LateDeleteTakesLivePeerIff(c: Config, s: State, l: Label, ls: seq<Label>, k: bytes)
    requires Inv(s.root) && LogMatches(s)
    requires Scans(l) && k in l.expired && Feasible(c, s, [l] + ls) && Enabled(c, Exec(c, s, [l] + ls), RunDelete(k))
    ensures var t := Exec(c, s, [l] + ls);
      && k !in AsMap(Next(c, t, RunDelete(k)).root)
      && ((k in AsMap(t.root) && !Expired(c.ttl, l.now, AsMap(t.root)[k])) <==>
          exists i :: RefreshedAt(t.log, |s.log|, k, c.ttl, l.now, i))
  {
    var run := [l] + ls;
    var t := Exec(c, s, run);
    RunRefines(c, s, run);
    LogGrows(c, s, run);
    assert t.log[..|s.log|] == s.log;
    assert Entry(s.log, k) == Some(AsMap(s.root)[k]);
    LiveIffRefreshed(t.log, |s.log|, k, c.ttl, l.now);
    DeletesAgree(t.root, k);
    RemoveRefines(t.root, k);
  }

  predicate Updates(l: Label, k: bytes) {
    l.RunUpdate? && l.peer.id == k
  }

  ghost predicate NoUpdate(ls: seq<Label>, k: bytes) {
    forall i :: 0 <= i < |ls| ==> !Updates(ls[i], k)
  }

  ghost function Found(s: State, k: bytes): Option<PeerRecord>
    requires Shape(s.root)
  {
    if k in AsMap(s.root) then Some(AsMap(s.root)[k]) else None
  }

  /** The very same record, or none any more. */
  ghost predicate SameOrGone(before: Option<PeerRecord>, after: Option<PeerRecord>) {
    after.Some? ==> after == before
  }

  /** Without an update task of k, a step leaves its peer as it is or takes it out. */
  lemma UntouchedStep(c: Config, s: State, l: Label, k: bytes)
    requires Inv(s.root) && Enabled(c, s, l) && !Updates(l, k)
    ensures SameOrGone(Found(s, k), Found(Next(c, s, l), k))
  {
    match l
    case Announce(_, _, _) => RotationShrinks(c, s.root);
    case Submit(_, _, _) =>
    case Check => RotationShrinks(c, s.root);
    case RunUpdate(p) => UpdateRefines(c, s.root, p);
    case RunDelete(key) => DeletesAgree(s.root, key); RemoveRefines(s.root, key);
    case Stop(key) => RemoveRefines(s.root, key);
    case Scrape(_, _) =>
    case Clean(now) => SweepShrinks(c.ttl, now, s.root);
  }

  /** So a delete is harmless as long as no update task of its key has run since the scan: what it
      finds, if anything, is the very record the scan found expired. */
  lemma {:induction false} UntouchedWithoutUpdate(c: Config, s: State, ls: seq<Label>, k: bytes)
    requires Inv(s.root) && LogMatches(s) && Feasible(c, s, ls) && NoUpdate(ls, k)
    ensures SameOrGone(Found(s, k), Found(Exec(c, s, ls), k))
    decreases |ls|
  {
    if ls != [] {
      var next, rest := Next(c, s, ls[0]), ls[1..];
      assert !Updates(ls[0], k) && NoUpdate(rest, k);
      StepRefines(c, s, ls[0]);
      UntouchedStep(c, s, ls[0], k);
      UntouchedWithoutUpdate(c, next, rest, k);
      assert Exec(c, s, ls) == Exec(c, next, rest);
    }
  }

  /** An expiry delete is decided by one scan and run later: a peer that announces again in
      between, and is stored as just seen, is deleted all the same. */
  lemma LateDeleteTakesLivePeer(c: Config, s: State, again: PeerRecord, now: int)
    requires Inv(s.root) && !Full(c, s.root) && again.id in AsMap(s.root) && Expired(c.ttl, now, AsMap(s.root)[again.id])
    requires again.lastSeen == now && again.event != STOPPED && c.ttl >= 0
    ensures var k := again.id;
      var announce, update, remove := Announce(again, now, [k]), RunUpdate(again), RunDelete(k);
      && Enabled(c, s, announce) && Enabled(c, Next(c, s, announce), update)
      && Enabled(c, Next(c, Next(c, s, announce), update), remove)
      && var refreshed := Next(c, Next(c, s, announce), update);
      && k in AsMap(refreshed.root) && !Expired(c.ttl, now, AsMap(refreshed.root)[k])
      && k !in AsMap(Next(c, refreshed, remove).root)
  {
    var k := again.id;
    var announced := Next(c, s, Announce(again, now, [k]));
    UpdateRefines(c, announced.root, again);
    var refreshed := Next(c, announced, RunUpdate(again));
    DeletesAgree(refreshed.root, k);
    RemoveRefines(refreshed.root, k);
  }


  // ---------- Update tasks split in two ----------

  /** Storing puts the peer into the active generation: sound exactly when the previous one does
      not hold it. */
  lemma StoreSoundIff(r: Root, k: bytes, p: PeerRecord)
    requires Inv(r) && p.id == k
    ensures Inv(Stored(r, k, p)) <==> k !in Prior(r)
  {
    match r.active
    case 0 =>
    case 1 =>
    case 2 =>
  }

  lemma StoreIfAbsentSoundIff(r: Root, k: bytes, p: PeerRecord)
    requires Inv(r) && p.id == k
    ensures Inv(StoredIfAbsent(r, k, p)) <==> k !in Prior(r)
  {
    StoreSoundIff(r, k, p);
    Generation(r, k);
  }

  /** Some step of the run rotates, and no update task of k runs after it. */
  ghost predicate RotatedSince(c: Config, s: State, ls: seq<Label>, k: bytes)
    requires Shape(s.root) && Feasible(c, s, ls)
    decreases |ls|
  {
    ls != [] &&
    (RotatedSince(c, Next(c, s, ls[0]), ls[1..], k) || (Rotates(c, s, ls[0]) && NoUpdate(ls[1..], k)))
  }

  lemma Generation(r: Root, k: bytes)
    requires Inv(r)
    ensures k in AsMap(r) <==> k in Active(r) || k in Prior(r)
    ensures !(k in Active(r) && k in Prior(r))
  {
    GenerationsUnion(r);
  }

  /** One step moves k into the previous generation only by a rotation, and out only by taking it. */
  lemma PriorStep(c: Config, s: State, l: Label, k: bytes)
    requires Inv(s.root) && Enabled(c, s, l) && k in AsMap(Next(c, s, l).root) && Inv(Next(c, s, l).root)
    ensures k in Prior(Next(c, s, l).root) <==> Rotates(c, s, l) || (k in Prior(s.root) && !Updates(l, k))
  {
    StepKeys(c, s, l);
    Generation(s.root, k);
    Generation(Next(c, s, l).root, k);
    if !Updates(l, k) { UntouchedStep(c, s, l, k); }
  }

  lemma NoUpdateFirst(ls: seq<Label>, k: bytes)
    requires ls != []
    ensures NoUpdate(ls, k) <==> !Updates(ls[0], k) && NoUpdate(ls[1..], k)
  {
    assert ls == [ls[0]] + ls[1..];
  }

  lemma {:induction false} PriorIff(c: Config, s: State, ls: seq<Label>, k: bytes)
    requires Inv(s.root) && LogMatches(s) && Feasible(c, s, ls) && k in AsMap(Exec(c, s, ls).root)
    ensures k in Prior(Exec(c, s, ls).root) <==>
      RotatedSince(c, s, ls, k) || (k in Prior(s.root) && NoUpdate(ls, k))
    decreases |ls|
  {
    if ls != [] {
      var next, rest := Next(c, s, ls[0]), ls[1..];
      StepRefines(c, s, ls[0]);
      PriorIff(c, next, rest, k);
      NoUpdateFirst(ls, k);
      if NoUpdate(rest, k) {
        UntouchedWithoutUpdate(c, next, rest, k);
        PriorStep(c, s, ls[0], k);
      }
    }
  }

  /** The first half of an update task has left s without k; after any steps, the second half stores
      it, by Store if the first half found it and by LoadOrStore if not. Either way two generations
      then hold it if and only if some other update task put k back in between, it is still stored,
      and a rotation came after the last such task. */
  lemma SplitUpdateIff(c: Config, s: State, ls: seq<Label>, k: bytes, p: PeerRecord)
    requires Inv(s.root) && LogMatches(s) && k !in AsMap(s.root) && Feasible(c, s, ls) && p.id == k
    ensures var t := Exec(c, s, ls).root;
      !Inv(Stored(t, k, p)) <==> k in AsMap(t) && RotatedSince(c, s, ls, k)
    ensures var t := Exec(c, s, ls).root;
      !Inv(StoredIfAbsent(t, k, p)) <==> k in AsMap(t) && RotatedSince(c, s, ls, k)
  {
    var t := Exec(c, s, ls).root;
    RunRefines(c, s, ls);
    StoreSoundIff(t, k, p);
    StoreIfAbsentSoundIff(t, k, p);
    Generation(s.root, k);
    Generation(t, k);
    if k in AsMap(t) { PriorIff(c, s, ls, k); }
  }

  /** For every limit: if the other task's store fills the active generation, the announce after it
      rotates, and the second half leaves the peer in two generations. */
  lemma SplitUpdateDuplicates(c: Config, s: State, p: PeerRecord, q: PeerRecord, caller: PeerRecord, now: int)
    requires Inv(s.root) && LogMatches(s) && p.id == q.id && p.id !in AsMap(s.root) && q in s.updates
    requires IsPeerConnectable(c.useAnnounceIp, q) && Full(c, Updated(c, s.root, q)) && caller.event != STOPPED
    ensures var steps := [RunUpdate(q), Announce(caller, now, [])];
      && Feasible(c, s, steps)
      && p.id in Active(Stored(Exec(c, s, steps).root, p.id, p)) && p.id in Prior(Stored(Exec(c, s, steps).root, p.id, p))
      && !Inv(Stored(Exec(c, s, steps).root, p.id, p)) && !Inv(StoredIfAbsent(Exec(c, s, steps).root, p.id, p))
  {
    UpdateThenRotation(c, s, q, caller, now);
    var t := Exec(c, s, [RunUpdate(q), Announce(caller, now, [])]).root;
    StoredKeys(t, p.id, p);
    StoreSoundIff(t, p.id, p);
    StoreIfAbsentSoundIff(t, p.id, p);
  }

  lemma UpdateThenRotation(c: Config, s: State, q: PeerRecord, caller: PeerRecord, now: int)
    requires Inv(s.root) && LogMatches(s) && q.id !in AsMap(s.root) && q in s.updates
    requires IsPeerConnectable(c.useAnnounceIp, q) && Full(c, Updated(c, s.root, q)) && caller.event != STOPPED
    ensures var steps := [RunUpdate(q), Announce(caller, now, [])];
      Feasible(c, s, steps) && Inv(Exec(c, s, steps).root) && q.id in Prior(Exec(c, s, steps).root)
  {
    var l1, l2 := RunUpdate(q), Announce(caller, now, []);
    var s1 := Next(c, s, l1);
    StepRefines(c, s, l1);
    LookupsAgree(s.root, q.id);
    StoredKeys(s.root, q.id, q);
    PriorAbsent(s.root, q.id);
    RotatedKeys(c, s1.root);
    StepRefines(c, s1, l2);
    assert [l1, l2][1..] == [l2] && [l2][1..] == [];
    assert Exec(c, s1, [l2]) == Next(c, s1, l2);
  }

  /** A new torrent whose first announcer could not be stored. */
  function Empty(): State {
    State(NewRoot(0), multiset{}, multiset{}, 0, [])
  }

  function CrowdKey(q: PeerRecord, n: nat): bytes {
    seq(|q.id| + n, _ => 0)
  }

  function Crowd(q: PeerRecord, n: nat): (m: PeerMap)
    ensures |m| == n && forall k :: k in m ==> m[k].id == k && |q.id| < |k| <= |q.id| + n
  {
    if n == 0 then map[] else Crowd(q, n - 1)[CrowdKey(q, n) := q.(id := CrowdKey(q, n))]
  }

  ghost predicate Fills(c: Config, q: PeerRecord, n: nat, ls: seq<Label>) {
    Feasible(c, Empty(), ls) &&
    var s := Exec(c, Empty(), ls);
    s.root == Root([Crowd(q, n), map[], map[]], 0, 0) && s.updates == multiset{}
  }

  lemma AbsentFromFirst(m: PeerMap, k: bytes)
    requires OwnIds(m) && k !in m
    ensures Latest(Root([m, map[], map[]], 0, 0), k) == None
  {
  }

  lemma UpdatedFirst(c: Config, m: PeerMap, p: PeerRecord)
    requires OwnIds(m) && p.id !in m && IsPeerConnectable(c.useAnnounceIp, p)
    ensures Updated(c, Root([m, map[], map[]], 0, 0), p) == Root([m[p.id := p], map[], map[]], 0, 0)
  {
    AbsentFromFirst(m, p.id);
  }

  lemma CrowdUpdated(c: Config, q: PeerRecord, n: nat)
    requires IsPeerConnectable(c.useAnnounceIp, q) && n > 0
    ensures var p := q.(id := CrowdKey(q, n));
      Updated(c, Root([Crowd(q, n - 1), map[], map[]], 0, 0), p) == Root([Crowd(q, n), map[], map[]], 0, 0)
  {
    CrowdGrows(q, n);
    OtherId(c, q, CrowdKey(q, n));
    UpdatedFirst(c, Crowd(q, n - 1), q.(id := CrowdKey(q, n)));
  }

  lemma OtherId(c: Config, q: PeerRecord, k: bytes)
    ensures IsPeerConnectable(c.useAnnounceIp, q.(id := k)) == IsPeerConnectable(c.useAnnounceIp, q)
  {
  }

  lemma CrowdGrows(q: PeerRecord, n: nat)
    requires n > 0
    ensures OwnIds(Crowd(q, n - 1)) && CrowdKey(q, n) !in Crowd(q, n - 1)
    ensures Crowd(q, n) == Crowd(q, n - 1)[CrowdKey(q, n) := q.(id := CrowdKey(q, n))]
  {
    assert |CrowdKey(q, n)| == |q.id| + n;
  }

  /** One more peer announces and its task runs, before any rotation check. */
  lemma FillOneMore(c: Config, q: PeerRecord, n: nat, ls: seq<Label>)
    requires IsPeerConnectable(c.useAnnounceIp, q) && q.event != STOPPED && n > 0 && Fills(c, q, n - 1, ls)
    ensures var p := q.(id := CrowdKey(q, n)); Fills(c, q, n, ls + [Submit(p, 0, [])] + [RunUpdate(p)])
  {
    var p := q.(id := CrowdKey(q, n));
    var l1, l2 := Submit(p, 0, []), RunUpdate(p);
    var s := Exec(c, Empty(), ls);
    OneStepMore(c, Empty(), ls, l1);
    var s1 := Next(c, s, l1);
    assert s1.updates == multiset{p} && s1.root == s.root;
    OneStepMore(c, Empty(), ls + [l1], l2);
    CrowdUpdated(c, q, n);
  }

  lemma {:induction false} Filling(c: Config, q: PeerRecord, n: nat) returns (ls: seq<Label>)
    requires IsPeerConnectable(c.useAnnounceIp, q) && q.event != STOPPED
    ensures Fills(c, q, n, ls)
  {
    if n == 0 {
      ls := [];
    } else {
      var before := Filling(c, q, n - 1);
      var p := q.(id := CrowdKey(q, n));
      FillOneMore(c, q, n, before);
      ls := before + [Submit(p, 0, [])] + [RunUpdate(p)];
    }
  }

  lemma FirstGenerationOnly(m: PeerMap)
    requires OwnIds(m)
    ensures var r := Root([m, map[], map[]], 0, 0); Inv(r) && AsMap(r) == m
  {
  }

  /** One more peer than this fills the active generation. */
  lemma OneMoreFills(c: Config, r: Root, q: PeerRecord)
    requires Inv(r) && |r.gens[r.active]| == Limit(c) && q.id !in AsMap(r) && IsPeerConnectable(c.useAnnounceIp, q)
    ensures Full(c, Updated(c, r, q))
  {
    var m := r.gens[r.active];
    LookupsAgree(r, q.id);
    PriorAbsent(r, q.id);
    assert Updated(c, r, q).gens[r.active] == m[q.id := q];
    assert m[q.id := q].Keys == m.Keys + {q.id};
  }

  /** Whatever the limit, a run from a torrent's creation leads to such a state. */
  lemma SplitUpdateCanDuplicate(c: Config, q: PeerRecord) returns (ls: seq<Label>)
    requires IsPeerConnectable(c.useAnnounceIp, q) && q.event != STOPPED
    ensures Created(c, Empty()) && Feasible(c, Empty(), ls)
    ensures var s := Exec(c, Empty(), ls);
      && Inv(s.root) && LogMatches(s) && q.id !in AsMap(s.root) && q in s.updates && Full(c, Updated(c, s.root, q))
  {
    EmptyIsCreated(c);
    var before := Filling(c, q, Limit(c));
    OneStepMore(c, Empty(), before, Submit(q, 0, []));
    ls := before + [Submit(q, 0, [])];
    LoadedMatches(Empty());
    RunRefines(c, Empty(), ls);
    FirstGenerationOnly(Crowd(q, Limit(c)));
    OneMoreFills(c, Exec(c, Empty(), ls).root, q);
  }

  lemma EmptyIsCreated(c: Config)
    ensures Created(c, Empty())
  {
    assert Listed(map[]) == [];
  }

  // ---------- Rotation checks split in two ----------

  /** The second half of a rotation check that has found the active generation full: it rotates
      whatever it finds by then. */
  ghost function RotatesAnyway(s: State): State
    requires Shape(s.root)
  {
    s.(root := RotatedAnyway(s.root), log := s.log + [Gone(s.root, RotatedAnyway(s.root))])
  }

  lemma AnywayKeys(r: Root)
    requires Inv(r)
    ensures Inv(RotatedAnyway(r)) && AsMap(RotatedAnyway(r)).Keys == Active(r)
  {
    match r.active
    case 0 =>
    case 1 =>
    case 2 =>
  }

  lemma AnywayNewer(s: State, k: bytes)
    requires Inv(s.root) && OrderedByRecency(s) && k in Prior(s.root)
    ensures NewerThan(RotatesAnyway(s), k) == Active(s.root)
  {
    AnywayKeys(s.root);
    LastAppliedSnoc(s.log, Gone(s.root, RotatedAnyway(s.root)), k);
    forall q | q in Active(s.root)
      ensures q in NewerThan(RotatesAnyway(s), k)
    {
      LastAppliedSnoc(s.log, Gone(s.root, RotatedAnyway(s.root)), q);
      assert q in AsMap(RotatedAnyway(s.root)).Keys;
    }
    forall q | q in NewerThan(RotatesAnyway(s), k)
      ensures q in Active(s.root)
    {
      assert q in AsMap(RotatedAnyway(s.root)).Keys;
    }
  }

  /** The rotation takes k out although no more than M/2 of the peers it leaves are newer. */
  ghost predicate EjectsEarly(c: Config, s: State, k: bytes)
    requires Shape(s.root)
  {
    && k in AsMap(s.root) && k !in AsMap(RotatedAnyway(s.root))
    && |NewerThan(RotatesAnyway(s), k)| <= Half(c.maxPeersPerTorrent)
  }

  /** After any run, the second half of a check ejects a peer too early if and only if the active
      generation is not full any more and the previous one is not empty; then it ejects all of it
      too early. */
  lemma SplitCheckIff(c: Config, s: State, ls: seq<Label>, k: bytes)
    requires Loaded(s) && Feasible(c, s, ls)
    ensures var t := Exec(c, s, ls); EjectsEarly(c, t, k) <==> k in Prior(t.root) && !Full(c, t.root)
  {
    LoadedMatches(s);
    RunRefines(c, s, ls);
    RecencyRun(c, s, ls);
    var t := Exec(c, s, ls);
    AnywayKeys(t.root);
    Generation(t.root, k);
    assert k in AsMap(RotatedAnyway(t.root)) <==> k in AsMap(RotatedAnyway(t.root)).Keys;
    if k in Prior(t.root) { AnywayNewer(t, k); }
    assert |t.root.gens[t.root.active].Keys| == |t.root.gens[t.root.active]|;
  }

  predicate Shrinks(c: Config, s: State, l: Label)
    requires Shape(s.root)
  {
    Rotates(c, s, l) || l.RunDelete? || l.Stop? || l.Clean?
  }

  ghost predicate NoneShrinks(c: Config, s: State, ls: seq<Label>)
    requires Shape(s.root) && Feasible(c, s, ls)
    decreases |ls|
  {
    ls != [] ==> !Shrinks(c, s, ls[0]) && NoneShrinks(c, Next(c, s, ls[0]), ls[1..])
  }

  lemma ActiveGrows(c: Config, s: State, l: Label)
    requires Inv(s.root) && Enabled(c, s, l) && !Shrinks(c, s, l)
    ensures Active(s.root) <= Active(Next(c, s, l).root)
  {
    match l
    case Announce(_, _, _) => RotatedKeys(c, s.root);
    case Submit(_, _, _) =>
    case Check => RotatedKeys(c, s.root);
    case RunUpdate(p) => UpdateGrows(c, s.root, p);
    case Scrape(_, _) =>
    case RunDelete(_) =>
    case Stop(_) =>
    case Clean(_) =>
  }

  lemma UpdateGrows(c: Config, r: Root, p: PeerRecord)
    requires Inv(r)
    ensures Active(r) <= Active(Updated(c, r, p))
  {
    LookupsAgree(r, p.id);
    if p.id in AsMap(r) {
      RemovedKeys(r, p.id);
      StoredKeys(Removed(r, p.id), p.id, Refresh(AsMap(r)[p.id], p));
    } else {
      StoredKeys(r, p.id, p);
    }
  }

  /** So a split check is safe unless a rotation, a delete, a stop or a sweep came in between. */
  lemma {:induction false} FullStays(c: Config, s: State, ls: seq<Label>)
    requires Inv(s.root) && LogMatches(s) && Feasible(c, s, ls) && Full(c, s.root) && NoneShrinks(c, s, ls)
    ensures Full(c, Exec(c, s, ls).root)
    decreases |ls|
  {
    if ls != [] {
      var next := Next(c, s, ls[0]);
      StepRefines(c, s, ls[0]);
      ActiveGrows(c, s, ls[0]);
      FullGrows(c, s.root, next.root);
      FullStays(c, next, ls[1..]);
    }
  }

  lemma FullGrows(c: Config, r: Root, t: Root)
    requires Shape(r) && Shape(t) && Full(c, r) && Active(r) <= Active(t)
    ensures Full(c, t)
  {
    SubsetSize(Active(r), Active(t));
    assert |Active(r)| == |r.gens[r.active]| && |Active(t)| == |t.gens[t.active]|;
  }

  /** Two checks that both saw the generation full, one after the other: nothing is left. */
  lemma TwoChecksEmpty(c: Config, r: Root)
    requires Inv(r) && Full(c, r)
    ensures AsMap(RotatedAnyway(Rotated(c, r))) == map[]
  {
    RotatedKeys(c, r);
    RotationRefines(c, r);
    AnywayKeys(Rotated(c, r));
    assert AsMap(RotatedAnyway(Rotated(c, r))).Keys == {};
  }
}
