/** What every run of a torrent's peer store keeps: it stays bounded although insertions are
    deferred, a rotation ejects only peers that many others have overtaken, each stored peer is
    the announce that inserted it with the progress of the last update, and a stop is final. */
module StoreSafety {
  import opened Bytes
  import opened Peers
  import opened Generations
  import opened StoreRuns

  ghost function Active(r: Root): set<bytes>
    requires Shape(r)
  {
    r.gens[r.active].Keys
  }

  ghost function Prior(r: Root): set<bytes>
    requires Shape(r)
  {
    r.gens[Previous(r.active)].Keys
  }

  // ---------- How one step moves keys between the generations ----------

  lemma RemovedKeys(r: Root, k: bytes)
    requires Shape(r)
    ensures Active(Removed(r, k)) == Active(r) - {k} && Prior(Removed(r, k)) == Prior(r) - {k}
  {
    match r.active
    case 0 =>
    case 1 =>
    case 2 =>
  }

  lemma StoredKeys(r: Root, k: bytes, p: PeerRecord)
    requires Shape(r)
    ensures Active(Stored(r, k, p)) == Active(r) + {k} && Prior(Stored(r, k, p)) == Prior(r)
  {
  }

  lemma UpdatedKeys(c: Config, r: Root, p: PeerRecord)
    requires Inv(r)
    ensures Active(Updated(c, r, p)) <= Active(r) + {p.id}
    ensures Prior(Updated(c, r, p)) <= Prior(r) - {p.id}
    ensures p.id in AsMap(r) || IsPeerConnectable(c.useAnnounceIp, p) || Active(Updated(c, r, p)) == Active(r)
  {
    LookupsAgree(r, p.id);
    if p.id in AsMap(r) {
      RemovedKeys(r, p.id);
      StoredKeys(Removed(r, p.id), p.id, Refresh(AsMap(r)[p.id], p));
    } else {
      PriorAbsent(r, p.id);
      StoredKeys(r, p.id, p);
    }
  }

  lemma PriorAbsent(r: Root, k: bytes)
    requires Inv(r) && k !in AsMap(r)
    ensures k !in Prior(r) && k !in Active(r)
  {
    GenerationsUnion(r);
  }

  lemma SweptKeys(ttl: int, now: int, r: Root)
    requires Shape(r)
    ensures Active(Swept(ttl, now, r)) <= Active(r) && Prior(Swept(ttl, now, r)) <= Prior(r)
  {
    match r.active
    case 0 =>
    case 1 =>
    case 2 =>
  }

  lemma RotatedKeys(c: Config, r: Root)
    requires Inv(r)
    ensures if Full(c, r) then Active(Rotated(c, r)) == {} && Prior(Rotated(c, r)) == Active(r)
            else Rotated(c, r) == r
  {
    if Full(c, r) { RotationKeepsActive(c, r); }
  }

  predicate Rotates(c: Config, s: State, l: Label)
    requires Shape(s.root)
  {
    (l.Announce? || l.Check?) && Full(c, s.root)
  }

  lemma StepKeys(c: Config, s: State, l: Label)
    requires Inv(s.root) && Enabled(c, s, l)
    ensures var r, r' := s.root, Next(c, s, l).root;
      if Rotates(c, s, l) then Active(r') == {} && Prior(r') == Active(r)
      else if l.RunUpdate? then Active(r') <= Active(r) + {l.peer.id} && Prior(r') <= Prior(r) - {l.peer.id}
      else Active(r') <= Active(r) && Prior(r') <= Prior(r)
  {
    match l
    case Announce(_, _, _) => RotatedKeys(c, s.root);
    case Submit(_, _, _) =>
    case Check => RotatedKeys(c, s.root);
    case RunUpdate(p) => UpdatedKeys(c, s.root, p);
    case RunDelete(k) => DeletesAgree(s.root, k); RemovedKeys(s.root, k);
    case Stop(k) => RemovedKeys(s.root, k);
    case Scrape(_, _) =>
    case Clean(now) => SweptKeys(c.ttl, now, s.root);
  }

  // ---------- Size ----------

  function Limit(c: Config): nat {
    if Half(c.maxPeersPerTorrent) > 0 then Half(c.maxPeersPerTorrent) else 0
  }

  /** With at most K update tasks pending and U announces between submission and check, around a
      level L that is at least half the limit. */
  ghost predicate Bounded(L: nat, K: nat, U: nat, s: State)
    requires Shape(s.root)
  {
    && |Active(s.root)| + |s.updates| <= L + K + s.unchecked
    && |Prior(s.root)| <= L + K + U
  }

  lemma BoundedStep(c: Config, L: nat, K: nat, U: nat, s: State, l: Label)
    requires Inv(s.root) && Enabled(c, s, l) && L >= Limit(c) && Bounded(L, K, U, s)
    requires s.unchecked <= U && |Next(c, s, l).updates| <= K
    ensures Bounded(L, K, U, Next(c, s, l))
  {
    var r, r' := s.root, Next(c, s, l).root;
    StepKeys(c, s, l);
    if Rotates(c, s, l) {
    } else {
      SubsetSize(Prior(r'), Prior(r));
      if l.RunUpdate? {
        SubsetSize(Active(r'), Active(r) + {l.peer.id});
        assert |Active(r) + {l.peer.id}| <= |Active(r)| + 1;
        assert |s.updates - multiset{l.peer}| == |s.updates| - 1;
      } else {
        SubsetSize(Active(r'), Active(r));
      }
    }
  }

  /** At most K update tasks pending and U unchecked announces, all along the run. */
  ghost predicate Within(c: Config, K: nat, U: nat, s: State, ls: seq<Label>)
    requires Shape(s.root) && Feasible(c, s, ls)
    decreases |ls|
  {
    && |s.updates| <= K && s.unchecked <= U
    && (ls != [] ==> Within(c, K, U, Next(c, s, ls[0]), ls[1..]))
  }

  lemma {:induction false} BoundedRun(c: Config, L: nat, K: nat, U: nat, s: State, ls: seq<Label>)
    requires Inv(s.root) && LogMatches(s) && Feasible(c, s, ls) && Within(c, K, U, s, ls)
    requires L >= Limit(c) && Bounded(L, K, U, s)
    ensures Bounded(L, K, U, Exec(c, s, ls)) && Inv(Exec(c, s, ls).root)
    decreases |ls|
  {
    if ls != [] {
      StepRefines(c, s, ls[0]);
      BoundedStep(c, L, K, U, s, ls[0]);
      BoundedRun(c, L, K, U, Next(c, s, ls[0]), ls[1..]);
    }
  }

  /** The bound around a level that the start keeps to as well. */
  lemma SizeBoundFrom(c: Config, L: nat, K: nat, U: nat, s: State, ls: seq<Label>)
    requires Loaded(s) && |s.root.gens[0]| <= L + K && L >= Limit(c)
    requires Feasible(c, s, ls) && Within(c, K, U, s, ls)
    ensures var t := Exec(c, s, ls);
      && |Active(t.root)| + |t.updates| <= L + K + t.unchecked
      && Len(t.root) <= 2 * (L + K) + t.unchecked + U
  {
    LoadedMatches(s);
    assert Active(s.root) == s.root.gens[0].Keys && Prior(s.root) == {};
    BoundedRun(c, L, K, U, s, ls);
    LenAgrees(Exec(c, s, ls).root);
  }

  function Larger(a: int, b: int): int {
    if a >= b then a else b
  }

  /** A torrent created by an announce never holds more than twice half its limit plus the
      pending update tasks, however the tasks, checks, stops, deletes and sweeps interleave.
      With announces as single steps (U = 0) this is Len() <= 2 * (M/2 + K). */
  lemma SizeBound(c: Config, K: nat, U: nat, s: State, ls: seq<Label>)
    requires K >= 1 && Created(c, s) && Feasible(c, s, ls) && Within(c, K, U, s, ls)
    ensures var t := Exec(c, s, ls);
      && |Active(t.root)| + |t.updates| <= Larger(c.maxPeersPerTorrent / 2, 0) + K + t.unchecked
      && Len(t.root) <= 2 * (Larger(c.maxPeersPerTorrent / 2, 0) + K) + t.unchecked + U
  {
    SizeBoundFrom(c, Limit(c), K, U, s, ls);
  }

  /** A torrent restored at start-up with N peers keeps to the same bound around the larger of half
      its limit and N. */
  lemma RestoredSizeBound(c: Config, K: nat, U: nat, s: State, ls: seq<Label>)
    requires Loaded(s) && Feasible(c, s, ls) && Within(c, K, U, s, ls)
    ensures var t, L := Exec(c, s, ls), Larger(c.maxPeersPerTorrent / 2, |s.root.gens[0]|);
      && |Active(t.root)| + |t.updates| <= L + K + t.unchecked
      && Len(t.root) <= 2 * (L + K) + t.unchecked + U
  {
    SizeBoundFrom(c, Larger(Limit(c), |s.root.gens[0]|), K, U, s, ls);
  }

  // ---------- Recency ----------

  /** The position in the log of the last update applied to k, or -1. */
  ghost function LastApplied(log: seq<Event>, k: bytes): (i: int)
    ensures -1 <= i < |log|
    ensures i >= 0 ==> log[i].Applied? && log[i].peer.id == k
    ensures forall j :: i < j < |log| ==> !(log[j].Applied? && log[j].peer.id == k)
  {
    if log == [] then -1
    else if log[|log| - 1].Applied? && log[|log| - 1].peer.id == k then |log| - 1
    else LastApplied(log[..|log| - 1], k)
  }

  lemma LastAppliedSnoc(log: seq<Event>, e: Event, k: bytes)
    ensures LastApplied(log + [e], k) == if e.Applied? && e.peer.id == k then |log| else LastApplied(log, k)
  {
    assert (log + [e])[..|log + [e]| - 1] == log;
  }

  /** Everything in the active generation was refreshed after everything in the previous one. */
  ghost predicate OrderedByRecency(s: State)
    requires Shape(s.root)
  {
    forall a, b :: a in Active(s.root) && b in Prior(s.root) ==> LastApplied(s.log, a) > LastApplied(s.log, b)
  }

  lemma LastAppliedStep(c: Config, s: State, l: Label, k: bytes)
    requires Shape(s.root) && Enabled(c, s, l)
    ensures LastApplied(Next(c, s, l).log, k) ==
      if l.RunUpdate? && l.peer.id == k && (k in AsMap(s.root) || IsPeerConnectable(c.useAnnounceIp, l.peer))
      then |s.log| else LastApplied(s.log, k)
  {
    var log' := Next(c, s, l).log;
    if |log'| > |s.log| {
      assert log' == s.log + [log'[|s.log|]];
      LastAppliedSnoc(s.log, log'[|s.log|], k);
    } else {
      assert log' == s.log;
    }
  }

  lemma RecencyStep(c: Config, s: State, l: Label)
    requires Inv(s.root) && Enabled(c, s, l) && OrderedByRecency(s)
    ensures OrderedByRecency(Next(c, s, l))
  {
    var s' := Next(c, s, l);
    StepKeys(c, s, l);
    forall a, b | a in Active(s'.root) && b in Prior(s'.root)
      ensures LastApplied(s'.log, a) > LastApplied(s'.log, b)
    {
      LastAppliedStep(c, s, l, a);
      LastAppliedStep(c, s, l, b);
      if l.RunUpdate? && a == l.peer.id { UpdatedKeys(c, s.root, l.peer); }
    }
  }

  lemma {:induction false} RecencyRun(c: Config, s: State, ls: seq<Label>)
    requires Inv(s.root) && LogMatches(s) && OrderedByRecency(s) && Feasible(c, s, ls)
    ensures OrderedByRecency(Exec(c, s, ls))
    decreases |ls|
  {
    if ls != [] {
      StepRefines(c, s, ls[0]);
      RecencyStep(c, s, ls[0]);
      RecencyRun(c, Next(c, s, ls[0]), ls[1..]);
    }
  }

  /** The stored peers whose last update came after k's. */
  ghost function NewerThan(s: State, k: bytes): set<bytes>
    requires Shape(s.root)
  {
    set q | q in AsMap(s.root) && LastApplied(s.log, q) > LastApplied(s.log, k)
  }

  ghost predicate Ejects(c: Config, t: State, l: Label, k: bytes)
    requires Shape(t.root)
  {
    && (l.Announce? || l.Check?) && Enabled(c, t, l)
    && k in AsMap(t.root) && k !in AsMap(Next(c, t, l).root)
  }

  lemma EjectedIsPrior(c: Config, t: State, l: Label, k: bytes)
    requires Inv(t.root) && Ejects(c, t, l, k)
    ensures k in Prior(t.root) && |Active(t.root)| > Half(c.maxPeersPerTorrent)
    ensures AsMap(Next(c, t, l).root).Keys == Active(t.root)
  {
    RotationRefines(c, t.root);
    GenerationsUnion(t.root);
  }

  lemma RotationKeepsStamps(c: Config, t: State, l: Label, q: bytes)
    requires Shape(t.root) && Enabled(c, t, l) && (l.Announce? || l.Check?)
    ensures LastApplied(Next(c, t, l).log, q) == LastApplied(t.log, q)
  {
    LastAppliedStep(c, t, l, q);
  }

  lemma EjectionStep(c: Config, t: State, l: Label, k: bytes)
    requires Inv(t.root) && OrderedByRecency(t) && Ejects(c, t, l, k)
    ensures |NewerThan(Next(c, t, l), k)| > Half(c.maxPeersPerTorrent)
    ensures k !in NewerThan(Next(c, t, l), k)
  {
    EjectedIsPrior(c, t, l, k);
    var t' := Next(c, t, l);
    RotationKeepsStamps(c, t, l, k);
    forall q | q in Active(t.root)
      ensures q in NewerThan(t', k)
    {
      RotationKeepsStamps(c, t, l, q);
      assert q in AsMap(t'.root).Keys;
    }
    SubsetSize(Active(t.root), NewerThan(t', k));
  }

  /** On any run, if a rotation takes k out, then more than M/2 other peers that stay stored had
      their last update after k's: the floor(M/2) + 1 most recently refreshed are safe. */
  lemma EjectionRespectsRecency(c: Config, s: State, ls: seq<Label>, l: Label, k: bytes)
    requires Loaded(s) && Feasible(c, s, ls) && Ejects(c, Exec(c, s, ls), l, k)
    ensures var after := Next(c, Exec(c, s, ls), l);
      && |NewerThan(after, k)| > Half(c.maxPeersPerTorrent)
      && |NewerThan(after, k)| > c.maxPeersPerTorrent / 2
      && k !in NewerThan(after, k)
  {
    LoadedMatches(s);
    RunRefines(c, s, ls);
    RecencyRun(c, s, ls);
    EjectionStep(c, Exec(c, s, ls), l, k);
    HalfMeaning(c.maxPeersPerTorrent);
  }

  // ---------- The history of a stored peer ----------

  /** Log position i inserted the peer now under k: it was absent before and never dropped since. */
  ghost predicate InsertedAt(log: seq<Event>, k: bytes, i: int) {
    && 0 <= i < |log|
    && log[i].Applied? && log[i].peer.id == k
    && Entry(log[..i], k).None?
    && forall j :: i < j < |log| && log[j].Dropped? ==> k !in log[j].keys
  }

  lemma {:induction false} EntryHistory(log: seq<Event>, k: bytes) returns (i: int)
    requires Entry(log, k).Some?
    ensures InsertedAt(log, k, i) && i <= LastApplied(log, k)
    ensures SameIdentity(Entry(log, k).value, log[i].peer)
    ensures SameProgress(Entry(log, k).value, log[LastApplied(log, k)].peer)
  {
    var n := |log| - 1;
    assert log == log[..n] + [log[n]];
    if log[n].Applied? && log[n].peer.id == k && Entry(log[..n], k).None? {
      i := n;
    } else {
      i := EntryHistory(log[..n], k);
      assert log[..n][..i] == log[..i];
    }
  }

  /** Whatever announces put into the log was not a stop, and was connectable if it inserted. */
  ghost predicate AnnouncedLog(c: Config, log: seq<Event>) {
    forall i :: 0 <= i < |log| && log[i].Applied? ==>
      && log[i].peer.event != STOPPED
      && (Entry(log[..i], log[i].peer.id).None? ==> IsPeerConnectable(c.useAnnounceIp, log[i].peer))
  }

  ghost predicate Announced(c: Config, s: State) {
    AnnouncedLog(c, s.log) && forall p :: p in s.updates ==> p.event != STOPPED
  }

  lemma AnnouncedSnoc(c: Config, log: seq<Event>, e: Event)
    requires AnnouncedLog(c, log)
    requires e.Applied? ==> e.peer.event != STOPPED
    requires e.Applied? && Entry(log, e.peer.id).None? ==> IsPeerConnectable(c.useAnnounceIp, e.peer)
    ensures AnnouncedLog(c, log + [e])
  {
    forall i | 0 <= i <= |log|
      ensures (log + [e])[..i] == log[..i]
    {
    }
    assert log[..|log|] == log;
  }

  lemma AnnouncedStep(c: Config, s: State, l: Label)
    requires Inv(s.root) && LogMatches(s) && Enabled(c, s, l) && Announced(c, s)
    ensures Announced(c, Next(c, s, l))
  {
    var log' := Next(c, s, l).log;
    if |log'| > |s.log| {
      assert log' == s.log + [log'[|s.log|]];
      AnnouncedSnoc(c, s.log, log'[|s.log|]);
    } else {
      assert log' == s.log;
    }
  }

  lemma {:induction false} AnnouncedRun(c: Config, s: State, ls: seq<Label>)
    requires Inv(s.root) && LogMatches(s) && Announced(c, s) && Feasible(c, s, ls)
    ensures Announced(c, Exec(c, s, ls))
    decreases |ls|
  {
    if ls != [] {
      StepRefines(c, s, ls[0]);
      AnnouncedStep(c, s, ls[0]);
      AnnouncedRun(c, Next(c, s, ls[0]), ls[1..]);
    }
  }

  lemma CreatedIsAnnounced(c: Config, s: State)
    requires Created(c, s)
    ensures Announced(c, s)
  {
    var m := s.root.gens[0];
    ListedContents(m);
    forall i | 0 <= i < |s.log|
      ensures s.log[i].Applied? && s.log[i].peer.event != STOPPED && IsPeerConnectable(c.useAnnounceIp, s.log[i].peer)
    {
      assert Listed(m)[i] in Listed(m);
    }
  }

  /** Every peer a torrent built by announces holds has the address, port, type, offers and
      socket of the announce that inserted it, which was connectable, and the counters, event and
      time of the last update task run for it; that event is never "stopped". */
  lemma StoredPeerHistory(c: Config, s: State, ls: seq<Label>, k: bytes) returns (i: int)
    requires Created(c, s) && Feasible(c, s, ls) && k in AsMap(Exec(c, s, ls).root)
    ensures var t := Exec(c, s, ls);
      && InsertedAt(t.log, k, i)
      && IsPeerConnectable(c.useAnnounceIp, t.log[i].peer)
      && SameIdentity(AsMap(t.root)[k], t.log[i].peer)
      && i <= LastApplied(t.log, k)
      && SameProgress(AsMap(t.root)[k], t.log[LastApplied(t.log, k)].peer)
      && AsMap(t.root)[k].event != STOPPED
  {
    LoadedMatches(s);
    CreatedIsAnnounced(c, s);
    RunRefines(c, s, ls);
    AnnouncedRun(c, s, ls);
    i := EntryHistory(Exec(c, s, ls).log, k);
  }

  /** So, of a torrent built by announces, a scrape reports every downloaded peer as a seeder. */
  lemma SeedersAreDownloaded(c: Config, s: State, ls: seq<Label>, now: int)
    requires Created(c, s) && Feasible(c, s, ls)
    ensures var f := Counts(c.ttl, now, AsMap(Exec(c, s, ls).root)); f.seeder == f.downloaded
  {
    var m := AsMap(Exec(c, s, ls).root);
    forall k | k in m
      ensures m[k].event != STOPPED
    {
      var i := StoredPeerHistory(c, s, ls, k);
    }
    ScrapeWithoutStopped(c.ttl, now, m);
  }

  // ---------- A stop is final ----------

  ghost predicate Absent(s: State, k: bytes)
    requires Shape(s.root)
  {
    k !in AsMap(s.root) && forall p :: p in s.updates ==> p.id != k
  }

  predicate Announces(l: Label, k: bytes) {
    (l.Announce? || l.Submit?) && l.peer.id == k
  }

  lemma AbsentStep(c: Config, s: State, l: Label, k: bytes)
    requires Inv(s.root) && Enabled(c, s, l) && Absent(s, k) && !Announces(l, k)
    ensures Absent(Next(c, s, l), k)
  {
    match l
    case Announce(_, _, _) => RotationShrinks(c, s.root);
    case Submit(_, _, _) =>
    case Check => RotationShrinks(c, s.root);
    case RunUpdate(p) => UpdateRefines(c, s.root, p);
    case RunDelete(key) => DeletesAgree(s.root, key); RemoveRefines(s.root, key);
    case Stop(key) => RemoveRefines(s.root, key);
    case Scrape(_, _) =>
    case Clean(now) => SweepShrinks(c.ttl, now, s.root);
  }

  lemma {:induction false} AbsentRun(c: Config, s: State, ls: seq<Label>, k: bytes)
    requires Inv(s.root) && LogMatches(s) && Feasible(c, s, ls) && Absent(s, k)
    requires forall i :: 0 <= i < |ls| ==> !Announces(ls[i], k)
    ensures k !in AsMap(Exec(c, s, ls).root)
    decreases |ls|
  {
    if ls != [] {
      StepRefines(c, s, ls[0]);
      AbsentStep(c, s, ls[0], k);
      AbsentRun(c, Next(c, s, ls[0]), ls[1..], k);
    }
  }

  /** After a stop with no update task of that peer pending, the peer stays absent until it
      announces again. */
  lemma StopIsFinal(c: Config, s: State, before: seq<Label>, k: bytes, after: seq<Label>)
    requires Loaded(s) && Feasible(c, s, before)
    requires forall p :: p in Exec(c, s, before).updates ==> p.id != k
    requires Feasible(c, Next(c, Exec(c, s, before), Stop(k)), after)
    requires forall i :: 0 <= i < |after| ==> !Announces(after[i], k)
    ensures k !in AsMap(Exec(c, Next(c, Exec(c, s, before), Stop(k)), after).root)
  {
    LoadedMatches(s);
    RunRefines(c, s, before);
    var t := Exec(c, s, before);
    StepRefines(c, t, Stop(k));
    RemoveRefines(t.root, k);
    AbsentRun(c, Next(c, t, Stop(k)), after, k);
  }
}
