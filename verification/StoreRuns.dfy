/** Runs of one torrent's peer store: announces hand their insertion to a goroutine pool, so
    update tasks, expiry deletes, rotation checks, stops, scrapes and sweeps interleave in any
    order. Each step is atomic. The log is a history variable: nothing reads it. */
module StoreRuns {
  import opened Bytes
  import opened Peers
  import opened Generations

  /** Applied: an update task (or the first announce, or a start-up load) stored this peer.
      Dropped: these keys were taken out. */
  datatype Event = Applied(peer: PeerRecord) | Dropped(keys: set<bytes>)

  /** updates: tasks waiting in the pool. deletes: expiry deletes waiting there, one per key.
      unchecked: announces that have submitted their task but not yet made the rotation check. */
  datatype State = State(
    root: Root, updates: multiset<PeerRecord>, deletes: multiset<bytes>, unchecked: nat, log: seq<Event>)

  datatype Label =
    | Announce(peer: PeerRecord, now: int, expired: seq<bytes>)  // the whole synchronous part at once
    | Submit(peer: PeerRecord, now: int, expired: seq<bytes>)    // its scan and submissions only
    | Check                                                      // its rotation check only
    | RunUpdate(peer: PeerRecord)
    | RunDelete(key: bytes)
    | Stop(key: bytes)                                           // a stop announce, or a closed socket
    | Scrape(now: int, expired: seq<bytes>)
    | Clean(now: int)

  ghost predicate ExpiredKeys(c: Config, r: Root, now: int, keys: seq<bytes>)
    requires Shape(r)
  {
    forall k :: k in keys ==> k in AsMap(r) && Expired(c.ttl, now, AsMap(r)[k])
  }

  ghost predicate Enabled(c: Config, s: State, l: Label)
    requires Shape(s.root)
  {
    match l
    case Announce(peer, now, expired) => peer.event != STOPPED && ExpiredKeys(c, s.root, now, expired)
    case Submit(peer, now, expired) => peer.event != STOPPED && ExpiredKeys(c, s.root, now, expired)
    case Check => s.unchecked > 0
    case RunUpdate(peer) => peer in s.updates
    case RunDelete(key) => key in s.deletes
    case Stop(_) => true
    case Scrape(now, expired) => ExpiredKeys(c, s.root, now, expired)
    case Clean(_) => true
  }

  ghost function Gone(before: Root, after: Root): Event
    requires Shape(before) && Shape(after)
  {
    Dropped(AsMap(before).Keys - AsMap(after).Keys)
  }

  ghost function Submitted(s: State, peer: PeerRecord, expired: seq<bytes>): State {
    s.(updates := s.updates + multiset{peer}, deletes := s.deletes + multiset(expired))
  }

  ghost function Checked(c: Config, s: State): State
    requires Shape(s.root)
  {
    s.(root := Rotated(c, s.root), log := s.log + [Gone(s.root, Rotated(c, s.root))])
  }

  ghost function Ran(c: Config, s: State, peer: PeerRecord): State
    requires Shape(s.root)
  {
    var stored := peer.id in AsMap(s.root) || IsPeerConnectable(c.useAnnounceIp, peer);
    s.(root := Updated(c, s.root, peer), updates := s.updates - multiset{peer},
       log := s.log + if stored then [Applied(peer)] else [])
  }

  ghost function Cleaned(c: Config, s: State, now: int): State
    requires Shape(s.root)
  {
    s.(root := Swept(c.ttl, now, s.root), log := s.log + [Gone(s.root, Swept(c.ttl, now, s.root))])
  }

  ghost function Next(c: Config, s: State, l: Label): (s': State)
    requires Shape(s.root) && Enabled(c, s, l)
    ensures Shape(s'.root)
  {
    match l
    case Announce(peer, now, expired) => Checked(c, Submitted(s, peer, expired))
    case Submit(peer, now, expired) => Submitted(s, peer, expired).(unchecked := s.unchecked + 1)
    case Check => Checked(c, s).(unchecked := s.unchecked - 1)
    case RunUpdate(peer) => Ran(c, s, peer)
    case RunDelete(key) =>
      s.(root := DeletedFirst(s.root, key), deletes := s.deletes - multiset{key}, log := s.log + [Dropped({key})])
    case Stop(key) => s.(root := Removed(s.root, key), log := s.log + [Dropped({key})])
    case Scrape(now, expired) => s.(deletes := s.deletes + multiset(expired))
    case Clean(now) => Cleaned(c, s, now)
  }

  ghost predicate Feasible(c: Config, s: State, ls: seq<Label>)
    requires Shape(s.root)
    decreases |ls|
  {
    ls != [] ==> Enabled(c, s, ls[0]) && Feasible(c, Next(c, s, ls[0]), ls[1..])
  }

  /** The state a run ends in. */
  ghost function Exec(c: Config, s: State, ls: seq<Label>): (s': State)
    requires Shape(s.root) && Feasible(c, s, ls)
    ensures Shape(s'.root)
    decreases |ls|
  {
    if ls == [] then s else Exec(c, Next(c, s, ls[0]), ls[1..])
  }

  lemma {:induction false} OneStepMore(c: Config, s: State, ls: seq<Label>, l: Label)
    requires Shape(s.root) && Feasible(c, s, ls) && Enabled(c, Exec(c, s, ls), l)
    ensures Feasible(c, s, ls + [l]) && Exec(c, s, ls + [l]) == Next(c, Exec(c, s, ls), l)
    decreases |ls|
  {
    if ls == [] {
      assert ls + [l] == [l] && [l][1..] == [];
    } else {
      OneStepMore(c, Next(c, s, ls[0]), ls[1..], l);
      assert (ls + [l])[0] == ls[0] && (ls + [l])[1..] == ls[1..] + [l];
    }
  }

  // ---------- Where runs start ----------

  ghost function AppliedAll(ps: seq<PeerRecord>): seq<Event> {
    seq(|ps|, i requires 0 <= i < |ps| => Applied(ps[i]))
  }

  /** A root as start-up loading leaves it: any peers, all in generation 0. */
  ghost predicate Loaded(s: State) {
    && Inv(s.root) && s.root.active == 0
    && s.root.gens[1] == map[] && s.root.gens[2] == map[]
    && s.updates == multiset{} && s.deletes == multiset{} && s.unchecked == 0
    && s.log == AppliedAll(Listed(s.root.gens[0]))
  }

  /** A root as the first announce of a torrent leaves it: at most that peer. */
  ghost predicate Created(c: Config, s: State) {
    && Loaded(s)
    && |s.root.gens[0]| <= 1
    && forall k :: k in s.root.gens[0] ==>
         IsPeerConnectable(c.useAnnounceIp, s.root.gens[0][k]) && s.root.gens[0][k].event != STOPPED
  }

  // ---------- The store is the log, read as one map ----------

  ghost function AfterEvent(before: Option<PeerRecord>, e: Event, k: bytes): Option<PeerRecord> {
    match e
    case Applied(p) =>
      if p.id != k then before
      else if before.Some? then Some(Refresh(before.value, p))
      else Some(p)
    case Dropped(keys) => if k in keys then None else before
  }

  /** What a log says is stored under k. */
  ghost function Entry(log: seq<Event>, k: bytes): Option<PeerRecord> {
    if log == [] then None
    else AfterEvent(Entry(log[..|log| - 1], k), log[|log| - 1], k)
  }

  ghost predicate LogMatches(s: State)
    requires Shape(s.root)
  {
    forall k :: Entry(s.log, k) == if k in AsMap(s.root) then Some(AsMap(s.root)[k]) else None
  }

  lemma EntrySnoc(log: seq<Event>, e: Event, k: bytes)
    ensures Entry(log + [e], k) == AfterEvent(Entry(log, k), e, k)
  {
    assert (log + [e])[..|log + [e]| - 1] == log;
  }

  lemma {:induction false} EntryOfLoads(ps: seq<PeerRecord>, k: bytes)
    requires DistinctIds(ps)
    ensures Entry(AppliedAll(ps), k).None? <==> forall p :: p in ps ==> p.id != k
    ensures forall p :: p in ps && p.id == k ==> Entry(AppliedAll(ps), k) == Some(p)
  {
    if ps != [] {
      var n := |ps| - 1;
      EntryOfLoads(ps[..n], k);
      assert AppliedAll(ps) == AppliedAll(ps[..n]) + [Applied(ps[n])];
      EntrySnoc(AppliedAll(ps[..n]), Applied(ps[n]), k);
      assert ps == ps[..n] + [ps[n]];
    }
  }

  lemma DropMatches(s: State, after: Root, keys: set<bytes>)
    requires Shape(s.root) && LogMatches(s) && Shape(after)
    requires AsMap(after) == AsMap(s.root) - keys
    ensures LogMatches(s.(root := after, log := s.log + [Dropped(keys)]))
  {
    forall k ensures Entry(s.log + [Dropped(keys)], k) == if k in AsMap(after) then Some(AsMap(after)[k]) else None {
      EntrySnoc(s.log, Dropped(keys), k);
    }
  }

  ghost predicate Submap(a: PeerMap, b: PeerMap) {
    forall k :: k in a ==> k in b && a[k] == b[k]
  }

  lemma GoneMatches(s: State, after: Root)
    requires Shape(s.root) && LogMatches(s) && Shape(after)
    requires Submap(AsMap(after), AsMap(s.root))
    ensures LogMatches(s.(root := after, log := s.log + [Gone(s.root, after)]))
  {
    var before := AsMap(s.root);
    assert AsMap(after) == before - (before.Keys - AsMap(after).Keys);
    DropMatches(s, after, before.Keys - AsMap(after).Keys);
  }

  lemma RotationShrinks(c: Config, r: Root)
    requires Inv(r)
    ensures Submap(AsMap(Rotated(c, r)), AsMap(r))
  {
    RotationRefines(c, r);
  }

  lemma CheckRefines(c: Config, s: State)
    requires Inv(s.root) && LogMatches(s)
    ensures Inv(Checked(c, s).root) && LogMatches(Checked(c, s))
  {
    RotationRefines(c, s.root);
    RotationShrinks(c, s.root);
    GoneMatches(s, Rotated(c, s.root));
  }

  lemma SweepShrinks(ttl: int, now: int, r: Root)
    requires Inv(r)
    ensures Inv(Swept(ttl, now, r)) && Submap(AsMap(Swept(ttl, now, r)), AsMap(r))
  {
    SweepRefines(ttl, now, r);
  }

  lemma CleanRefines(c: Config, s: State, now: int)
    requires Inv(s.root) && LogMatches(s)
    ensures Inv(Cleaned(c, s, now).root) && LogMatches(Cleaned(c, s, now))
  {
    SweepShrinks(c.ttl, now, s.root);
    GoneMatches(s, Swept(c.ttl, now, s.root));
  }

  lemma RunUpdateRefines(c: Config, s: State, p: PeerRecord)
    requires Inv(s.root) && LogMatches(s)
    ensures Inv(Ran(c, s, p).root) && LogMatches(Ran(c, s, p))
  {
    UpdateRefines(c, s.root, p);
    var m := AsMap(Updated(c, s.root, p));
    assert m == UpdatedMap(c, AsMap(s.root), p);
    if p.id in AsMap(s.root) || IsPeerConnectable(c.useAnnounceIp, p) {
      forall k ensures Entry(s.log + [Applied(p)], k) == if k in m then Some(m[k]) else None {
        EntrySnoc(s.log, Applied(p), k);
      }
    } else {
      assert s.log + [] == s.log;
    }
  }

  /** One step keeps the generation invariant, and changes the single map as its log event says. */
  lemma StepRefines(c: Config, s: State, l: Label)
    requires Inv(s.root) && LogMatches(s) && Enabled(c, s, l)
    ensures Inv(Next(c, s, l).root) && LogMatches(Next(c, s, l))
  {
    match l
    case Announce(peer, _, expired) => CheckRefines(c, Submitted(s, peer, expired));
    case Submit(_, _, _) =>
    case Check => CheckRefines(c, s);
    case RunUpdate(p) => RunUpdateRefines(c, s, p);
    case RunDelete(key) =>
      DeletesAgree(s.root, key);
      RemoveRefines(s.root, key);
      DropMatches(s, DeletedFirst(s.root, key), {key});
    case Stop(key) =>
      RemoveRefines(s.root, key);
      DropMatches(s, Removed(s.root, key), {key});
    case Scrape(_, _) =>
    case Clean(now) => CleanRefines(c, s, now);
  }

  lemma LoadedMatches(s: State)
    requires Loaded(s)
    ensures LogMatches(s)
  {
    var m := s.root.gens[0];
    assert AsMap(s.root) == m;
    ListedContents(m);
    forall k ensures Entry(s.log, k) == if k in m then Some(m[k]) else None {
      EntryOfLoads(Listed(m), k);
      if k in m { assert m[k] in Listed(m); }
    }
  }

  /** In every reachable state the generation invariant holds and the store, read as one map, is
      exactly what its log of stored and dropped peers says. */
  lemma {:induction false} RunRefines(c: Config, s: State, ls: seq<Label>)
    requires Inv(s.root) && LogMatches(s) && Feasible(c, s, ls)
    ensures Inv(Exec(c, s, ls).root) && LogMatches(Exec(c, s, ls))
    decreases |ls|
  {
    if ls != [] {
      StepRefines(c, s, ls[0]);
      RunRefines(c, Next(c, s, ls[0]), ls[1..]);
    }
  }
}
