/** Runs of a whole manager: torrents are found by info hash, but the tasks an announce leaves
    hold the root they were submitted for, and a sweep or a delete can take that root out of the
    map while they wait. Every root ever created keeps its own run. */
module DirectoryRuns {
  import opened Bytes
  import opened Peers
  import opened Generations
  import Runs = StoreRuns
  import Safety = StoreSafety
  import Torrents

  /** infoHashMap, as positions among all roots ever created. */
  datatype Directory = Directory(ids: map<bytes, nat>, roots: seq<Runs.State>)

  datatype Action =
    | FirstSeen(h: bytes, peer: PeerRecord, now: int)   // an announce creates the torrent
    | Found(h: bytes, step: Runs.Label)                // a step that looks the torrent up
    | Held(id: nat, step: Runs.Label)                  // a step of a task, an announce or a socket that holds the root
    | Sweep(h: bytes, now: int)
    | Remove(h: bytes)

  predicate ByLookup(l: Runs.Label) {
    l.Announce? || l.Submit? || l.Scrape? || l.Stop?
  }

  predicate ByReference(l: Runs.Label) {
    l.Check? || l.RunUpdate? || l.RunDelete? || l.Stop?
  }

  /** Each torrent in the map has a root of its own. */
  ghost predicate Linked(d: Directory) {
    && (forall h :: h in d.ids ==> d.ids[h] < |d.roots|)
    && (forall h, h' :: h in d.ids && h' in d.ids && d.ids[h] == d.ids[h'] ==> h == h')
  }

  ghost predicate Sound(s: Runs.State) {
    Generations.Inv(s.root) && Runs.LogMatches(s)
  }

  ghost predicate Inv(d: Directory) {
    Linked(d) && forall i :: 0 <= i < |d.roots| ==> Sound(d.roots[i])
  }

  ghost predicate Enabled(c: Config, d: Directory, a: Action)
    requires Inv(d)
  {
    match a
    case FirstSeen(h, _, _) => h !in d.ids
    case Found(h, l) => h in d.ids && ByLookup(l) && Runs.Enabled(c, d.roots[d.ids[h]], l)
    case Held(id, l) => id < |d.roots| && ByReference(l) && Runs.Enabled(c, d.roots[id], l)
    case Sweep(h, _) => h in d.ids
    case Remove(_) => true
  }

  /** The run of a root starts as its first announce leaves it. */
  ghost function Start(c: Config, peer: PeerRecord, now: int): Runs.State {
    var r := Torrents.FirstSeen(c, peer, now);
    Runs.State(r, multiset{}, multiset{}, 0, Runs.AppliedAll(Listed(if Shape(r) then r.gens[0] else map[])))
  }

  ghost function Stepped(c: Config, d: Directory, id: nat, l: Runs.Label): Directory
    requires Inv(d) && id < |d.roots| && Runs.Enabled(c, d.roots[id], l)
  {
    d.(roots := d.roots[id := Runs.Next(c, d.roots[id], l)])
  }

  ghost function Next(c: Config, d: Directory, a: Action): Directory
    requires Inv(d) && Enabled(c, d, a)
  {
    match a
    case FirstSeen(h, peer, now) => Directory(d.ids[h := |d.roots|], d.roots + [Start(c, peer, now)])
    case Found(h, l) => Stepped(c, d, d.ids[h], l)
    case Held(id, l) => Stepped(c, d, id, l)
    case Sweep(h, now) =>
      var swept := Stepped(c, d, d.ids[h], Runs.Clean(now));
      if Torrents.Emptied(c.ttl, now, d.roots[d.ids[h]].root) then swept.(ids := d.ids - {h}) else swept
    case Remove(h) => d.(ids := d.ids - {h})
  }

  // ---------- Every root lives a run of its own ----------

  /** s is where some run of a root has led that an announce created or, if restored is set, that
      start-up loading may have filled. */
  ghost predicate Reached(c: Config, restored: bool, s: Runs.State) {
    exists start, ls :: Leads(c, restored, start, ls, s)
  }

  ghost predicate Leads(c: Config, restored: bool, start: Runs.State, ls: seq<Runs.Label>, s: Runs.State) {
    Runs.Loaded(start) && (restored || Runs.Created(c, start)) && Runs.Feasible(c, start, ls) && Runs.Exec(c, start, ls) == s
  }

  lemma LeadsOn(c: Config, restored: bool, start: Runs.State, ls: seq<Runs.Label>, s: Runs.State, l: Runs.Label)
    requires Leads(c, restored, start, ls, s) && Shape(s.root) && Runs.Enabled(c, s, l)
    ensures Leads(c, restored, start, ls + [l], Runs.Next(c, s, l))
  {
    Runs.OneStepMore(c, start, ls, l);
  }

  lemma ReachedBy(c: Config, restored: bool, start: Runs.State, ls: seq<Runs.Label>, s: Runs.State)
    requires Leads(c, restored, start, ls, s)
    ensures Reached(c, restored, s)
  {
  }

  lemma ReachedStep(c: Config, restored: bool, s: Runs.State, l: Runs.Label)
    requires Reached(c, restored, s) && Shape(s.root) && Runs.Enabled(c, s, l)
    ensures Reached(c, restored, Runs.Next(c, s, l))
  {
    var start, ls :| Leads(c, restored, start, ls, s);
    LeadsOn(c, restored, start, ls, s, l);
    ReachedBy(c, restored, start, ls + [l], Runs.Next(c, s, l));
  }

  lemma StartIsCreated(c: Config, restored: bool, peer: PeerRecord, now: int)
    ensures Runs.Created(c, Start(c, peer, now)) && Reached(c, restored, Start(c, peer, now))
    ensures Generations.Inv(Start(c, peer, now).root) && Runs.LogMatches(Start(c, peer, now))
  {
    var s := Start(c, peer, now);
    StoreFresh(NewRoot(now), peer.id, peer);
    Runs.LoadedMatches(s);
    assert Leads(c, restored, s, [], s);
  }

  ghost predicate AllReached(c: Config, restored: bool, d: Directory) {
    forall i :: 0 <= i < |d.roots| ==> Reached(c, restored, d.roots[i])
  }

  lemma ReplacedKeeps(c: Config, restored: bool, d: Directory, id: nat, s: Runs.State)
    requires Inv(d) && id < |d.roots| && Sound(s)
    ensures Inv(d.(roots := d.roots[id := s]))
    ensures AllReached(c, restored, d) && Reached(c, restored, s) ==> AllReached(c, restored, d.(roots := d.roots[id := s]))
  {
    var e := d.(roots := d.roots[id := s]);
    forall i | 0 <= i < |e.roots|
      ensures Sound(e.roots[i]) && (AllReached(c, restored, d) && Reached(c, restored, s) ==> Reached(c, restored, e.roots[i]))
    {
      if i == id { assert e.roots[i] == s; } else { assert e.roots[i] == d.roots[i]; }
    }
  }

  lemma AddedKeeps(c: Config, restored: bool, d: Directory, h: bytes, s: Runs.State)
    requires Inv(d) && h !in d.ids && Sound(s)
    ensures Inv(Directory(d.ids[h := |d.roots|], d.roots + [s]))
    ensures AllReached(c, restored, d) && Reached(c, restored, s) ==> AllReached(c, restored, Directory(d.ids[h := |d.roots|], d.roots + [s]))
  {
    var e := Directory(d.ids[h := |d.roots|], d.roots + [s]);
    forall i | 0 <= i < |e.roots|
      ensures Sound(e.roots[i]) && (AllReached(c, restored, d) && Reached(c, restored, s) ==> Reached(c, restored, e.roots[i]))
    {
      if i == |d.roots| { assert e.roots[i] == s; } else { assert e.roots[i] == d.roots[i]; }
    }
  }

  lemma DroppedKeeps(c: Config, restored: bool, d: Directory, h: bytes)
    requires Inv(d)
    ensures Inv(d.(ids := d.ids - {h}))
    ensures AllReached(c, restored, d) ==> AllReached(c, restored, d.(ids := d.ids - {h}))
  {
  }

  lemma SteppedKeeps(c: Config, restored: bool, d: Directory, id: nat, l: Runs.Label)
    requires Inv(d) && id < |d.roots| && Runs.Enabled(c, d.roots[id], l)
    ensures Inv(Stepped(c, d, id, l))
    ensures AllReached(c, restored, d) ==> AllReached(c, restored, Stepped(c, d, id, l))
  {
    var s := d.roots[id];
    Runs.StepRefines(c, s, l);
    if AllReached(c, restored, d) { ReachedStep(c, restored, s, l); }
    ReplacedKeeps(c, restored, d, id, Runs.Next(c, s, l));
  }

  /** Every action keeps the directory sound, and every root, in the map or not, on a run. */
  lemma ActionKeeps(c: Config, restored: bool, d: Directory, a: Action)
    requires Inv(d) && Enabled(c, d, a)
    ensures Inv(Next(c, d, a))
    ensures AllReached(c, restored, d) ==> AllReached(c, restored, Next(c, d, a))
  {
    match a
    case FirstSeen(h, peer, now) =>
      StartIsCreated(c, restored, peer, now);
      AddedKeeps(c, restored, d, h, Start(c, peer, now));
    case Found(h, l) => SteppedKeeps(c, restored, d, d.ids[h], l);
    case Held(id, l) => SteppedKeeps(c, restored, d, id, l);
    case Sweep(h, now) =>
      SteppedKeeps(c, restored, d, d.ids[h], Runs.Clean(now));
      DroppedKeeps(c, restored, Stepped(c, d, d.ids[h], Runs.Clean(now)), h);
    case Remove(h) => DroppedKeeps(c, restored, d, h);
  }

  ghost predicate Feasible(c: Config, d: Directory, acts: seq<Action>)
    requires Inv(d)
    decreases |acts|
  {
    acts != [] ==>
      Enabled(c, d, acts[0]) && Inv(Next(c, d, acts[0])) && Feasible(c, Next(c, d, acts[0]), acts[1..])
  }

  ghost function Exec(c: Config, d: Directory, acts: seq<Action>): (e: Directory)
    requires Inv(d) && Feasible(c, d, acts)
    ensures Inv(e)
    decreases |acts|
  {
    if acts == [] then d else Exec(c, Next(c, d, acts[0]), acts[1..])
  }

  /** So whatever holds in every state of a root's run holds of every torrent at any time. */
  lemma {:induction false} RootsLiveRuns(c: Config, restored: bool, d: Directory, acts: seq<Action>)
    requires Inv(d) && AllReached(c, restored, d) && Feasible(c, d, acts)
    ensures AllReached(c, restored, Exec(c, d, acts))
    decreases |acts|
  {
    if acts != [] {
      ActionKeeps(c, restored, d, acts[0]);
      RootsLiveRuns(c, restored, Next(c, d, acts[0]), acts[1..]);
    }
  }

  /** For one: starting with no torrents, no torrent ever lists a stopped peer. */
  lemma NoStoppedPeer(c: Config, acts: seq<Action>, h: bytes, k: bytes)
    requires Feasible(c, Directory(map[], []), acts)
    requires var e := Exec(c, Directory(map[], []), acts); h in e.ids && k in AsMap(e.roots[e.ids[h]].root)
    ensures var e := Exec(c, Directory(map[], []), acts); AsMap(e.roots[e.ids[h]].root)[k].event != STOPPED
  {
    RootsLiveRuns(c, false, Directory(map[], []), acts);
    var e := Exec(c, Directory(map[], []), acts);
    assert Reached(c, false, e.roots[e.ids[h]]);
    var start, ls :| Leads(c, false, start, ls, e.roots[e.ids[h]]);
    var i := Safety.StoredPeerHistory(c, start, ls, k);
  }

  /** A manager as start-up loading leaves it. */
  lemma RestoredManager(c: Config, d: Directory)
    requires Linked(d) && forall i :: 0 <= i < |d.roots| ==> Runs.Loaded(d.roots[i])
    ensures Inv(d) && AllReached(c, true, d)
  {
    forall i | 0 <= i < |d.roots|
      ensures Sound(d.roots[i]) && Reached(c, true, d.roots[i])
    {
      Runs.LoadedMatches(d.roots[i]);
      assert Leads(c, true, d.roots[i], [], d.roots[i]);
    }
  }

  /** In a restarted manager too, and for roots out of the map too, whoever a rotation ejects has
      more than M/2 newer peers. */
  lemma EjectionsRespectRecency(c: Config, d: Directory, acts: seq<Action>, id: nat, l: Runs.Label, k: bytes)
    requires Inv(d) && AllReached(c, true, d) && Feasible(c, d, acts) && id < |Exec(c, d, acts).roots|
    requires Safety.Ejects(c, Exec(c, d, acts).roots[id], l, k)
    ensures var after := Runs.Next(c, Exec(c, d, acts).roots[id], l);
      |Safety.NewerThan(after, k)| > Half(c.maxPeersPerTorrent) && |Safety.NewerThan(after, k)| > c.maxPeersPerTorrent / 2 && k !in Safety.NewerThan(after, k)
  {
    RootsLiveRuns(c, true, d, acts);
    var s := Exec(c, d, acts).roots[id];
    assert Reached(c, true, s);
    var start, ls :| Leads(c, true, start, ls, s);
    Safety.EjectionRespectsRecency(c, start, ls, l, k);
  }

  // ---------- Whose root is it ----------

  /** The action takes the torrent's root out of the map. */
  ghost predicate Removes(c: Config, d: Directory, a: Action, h: bytes)
    requires Inv(d)
  {
    || (a.Remove? && a.h == h)
    || (a.Sweep? && a.h == h && h in d.ids && Torrents.Emptied(c.ttl, a.now, d.roots[d.ids[h]].root))
  }

  ghost predicate RemovedDuring(c: Config, d: Directory, acts: seq<Action>, h: bytes)
    requires Inv(d) && Feasible(c, d, acts)
    decreases |acts|
  {
    acts != [] && (Removes(c, d, acts[0], h) || RemovedDuring(c, Next(c, d, acts[0]), acts[1..], h))
  }

  /** Nobody finds the root. */
  ghost predicate Orphan(d: Directory, id: nat) {
    forall h :: h in d.ids ==> d.ids[h] != id
  }

  /** A root out of the map never returns: a torrent seen again gets a new one. */
  lemma {:induction false} OrphanForGood(c: Config, d: Directory, acts: seq<Action>, id: nat)
    requires Inv(d) && Feasible(c, d, acts) && id < |d.roots| && Orphan(d, id)
    ensures Orphan(Exec(c, d, acts), id) && id < |Exec(c, d, acts).roots|
    decreases |acts|
  {
    if acts != [] {
      OrphanForGood(c, Next(c, d, acts[0]), acts[1..], id);
    }
  }

  /** The torrent's root stays its root until it is removed, and is found by nobody afterwards. */
  lemma {:induction false} FoundUntilRemoved(c: Config, d: Directory, acts: seq<Action>, h: bytes)
    requires Inv(d) && Feasible(c, d, acts) && h in d.ids
    ensures var e := Exec(c, d, acts);
      && d.ids[h] < |e.roots|
      && (RemovedDuring(c, d, acts, h) ==> Orphan(e, d.ids[h]))
      && (!RemovedDuring(c, d, acts, h) ==> h in e.ids && e.ids[h] == d.ids[h])
    decreases |acts|
  {
    if acts != [] {
      var next, rest := Next(c, d, acts[0]), acts[1..];
      if Removes(c, d, acts[0], h) {
        assert Orphan(next, d.ids[h]);
        OrphanForGood(c, next, rest, d.ids[h]);
      } else {
        assert h in next.ids && next.ids[h] == d.ids[h];
        FoundUntilRemoved(c, next, rest, h);
      }
    }
  }

  // ---------- What can be looked up ----------

  /** The torrents as lookups see them: what the manager's methods work on. */
  ghost function View(d: Directory): Torrents.Directory
    requires Linked(d)
  {
    map h | h in d.ids :: d.roots[d.ids[h]].root
  }

  lemma ViewOfReplaced(d: Directory, id: nat, s: Runs.State)
    requires Linked(d) && id < |d.roots|
    ensures Linked(d.(roots := d.roots[id := s]))
    ensures Orphan(d, id) ==> View(d.(roots := d.roots[id := s])) == View(d)
    ensures forall h :: h in d.ids && d.ids[h] == id ==> View(d.(roots := d.roots[id := s])) == View(d)[h := s.root]
  {
  }

  lemma ViewOfStep(c: Config, d: Directory, id: nat, l: Runs.Label)
    requires Inv(d) && id < |d.roots| && Runs.Enabled(c, d.roots[id], l)
    ensures Inv(Stepped(c, d, id, l))
    ensures Orphan(d, id) ==> View(Stepped(c, d, id, l)) == View(d)
    ensures forall h :: h in d.ids && d.ids[h] == id ==>
      View(Stepped(c, d, id, l)) == View(d)[h := Runs.Next(c, d.roots[id], l).root]
  {
    SteppedKeeps(c, true, d, id, l);
    ViewOfReplaced(d, id, Runs.Next(c, d.roots[id], l));
  }

  lemma ViewOfAdded(d: Directory, h: bytes, s: Runs.State)
    requires Linked(d) && h !in d.ids
    ensures Linked(Directory(d.ids[h := |d.roots|], d.roots + [s]))
    ensures View(Directory(d.ids[h := |d.roots|], d.roots + [s])) == View(d)[h := s.root]
  {
  }

  lemma ViewOfDropped(d: Directory, h: bytes)
    requires Linked(d)
    ensures Linked(d.(ids := d.ids - {h})) && View(d.(ids := d.ids - {h})) == View(d) - {h}
  {
  }

  lemma ViewSound(d: Directory)
    requires Inv(d)
    ensures Torrents.Inv(View(d))
  {
  }

  /** The update task of an announce, run after any other actions, has its effect on the torrent it
      was submitted for if and only if the torrent's root was not removed in between; otherwise it
      stores the peer where no lookup finds it, and no lookup sees a difference. */
  lemma TaskLandsIff(c: Config, d: Directory, acts: seq<Action>, h: bytes, p: PeerRecord)
    requires Inv(d) && Feasible(c, d, acts) && h in d.ids && d.ids[h] < |Exec(c, d, acts).roots|
    requires p in Exec(c, d, acts).roots[d.ids[h]].updates
    ensures var e, task := Exec(c, d, acts), Held(d.ids[h], Runs.RunUpdate(p));
      && Enabled(c, e, task) && Inv(Next(c, e, task))
      && (h in e.ids && e.ids[h] == d.ids[h] <==> !RemovedDuring(c, d, acts, h))
      && View(Next(c, e, task)) ==
         (if RemovedDuring(c, d, acts, h) then View(e) else View(e)[h := Updated(c, e.roots[d.ids[h]].root, p)])
  {
    var e := Exec(c, d, acts);
    FoundUntilRemoved(c, d, acts, h);
    ViewOfStep(c, e, d.ids[h], Runs.RunUpdate(p));
  }

  ghost function Lookup(d: Directory, h: bytes, k: bytes): Option<PeerRecord>
    requires Inv(d)
  {
    if h in d.ids && k in AsMap(d.roots[d.ids[h]].root) then Some(AsMap(d.roots[d.ids[h]].root)[k]) else None
  }

  /** Lookups of the torrent lead to this root, and it holds the key. */
  ghost predicate FoundIn(d: Directory, h: bytes, id: nat, k: bytes)
    requires Inv(d) && id < |d.roots|
  {
    h in d.ids && d.ids[h] == id && k in AsMap(d.roots[id].root)
  }

  lemma UpdateStores(c: Config, r: Root, p: PeerRecord)
    requires Generations.Inv(r) && (IsPeerConnectable(c.useAnnounceIp, p) || p.id in AsMap(r))
    ensures Shape(Updated(c, r, p)) && p.id in AsMap(Updated(c, r, p)) && SameProgress(AsMap(Updated(c, r, p))[p.id], p)
  {
    UpdateRefines(c, r, p);
  }

  /** For one peer that may be stored: once its task has run, it is found in its torrent, with the
      announced progress, if and only if the root was not removed; otherwise the task has changed
      nothing about what is found under its id. */
  lemma PeerLandsIff(c: Config, d: Directory, acts: seq<Action>, h: bytes, p: PeerRecord)
    requires Inv(d) && Feasible(c, d, acts) && h in d.ids && d.ids[h] < |Exec(c, d, acts).roots|
    requires p in Exec(c, d, acts).roots[d.ids[h]].updates
    requires IsPeerConnectable(c.useAnnounceIp, p) || p.id in AsMap(Exec(c, d, acts).roots[d.ids[h]].root)
    ensures var e := Exec(c, d, acts);
      var done := Next(c, e, Held(d.ids[h], Runs.RunUpdate(p)));
      && Inv(done)
      && (FoundIn(done, h, d.ids[h], p.id) <==> !RemovedDuring(c, d, acts, h))
      && (RemovedDuring(c, d, acts, h) ==> Lookup(done, h, p.id) == Lookup(e, h, p.id))
      && (!RemovedDuring(c, d, acts, h) ==> Lookup(done, h, p.id).Some? && SameProgress(Lookup(done, h, p.id).value, p))
  {
    var e := Exec(c, d, acts);
    TaskLandsIff(c, d, acts, h, p);
    UpdateStores(c, e.roots[d.ids[h]].root, p);
  }

  // ---------- The manager's methods are these actions ----------

  /** The action of an announce whose scan, at scanTime, collected these keys. */
  function ActionOf(d: Directory, req: AnnounceRequest, now: int, scanTime: int, expired: seq<bytes>): Action {
    var p := PeerOf(req, now);
    if req.infoHash !in d.ids then FirstSeen(req.infoHash, p, now)
    else if p.event == STOPPED then Found(req.infoHash, Runs.Stop(p.id))
    else Found(req.infoHash, Runs.Announce(p, scanTime, expired))
  }

  lemma FirstSeenIsAction(c: Config, d: Directory, req: AnnounceRequest, now: int)
    requires Inv(d) && !InvalidAddress(req) && req.infoHash !in d.ids
    ensures var a := FirstSeen(req.infoHash, PeerOf(req, now), now);
      && Inv(Next(c, d, a)) && Torrents.Inv(View(d)) && View(Next(c, d, a)) == Torrents.Announced(c, View(d), req, now)
  {
    var p := PeerOf(req, now);
    ActionKeeps(c, true, d, FirstSeen(req.infoHash, p, now));
    ViewSound(d);
    ViewOfAdded(d, req.infoHash, Start(c, p, now));
  }

  lemma StopIsAction(c: Config, d: Directory, req: AnnounceRequest, now: int)
    requires Inv(d) && !InvalidAddress(req) && req.infoHash in d.ids && PeerOf(req, now).event == STOPPED
    ensures var a := Found(req.infoHash, Runs.Stop(req.peerId));
      && Enabled(c, d, a) && Inv(Next(c, d, a)) && Torrents.Inv(View(d))
      && View(Next(c, d, a)) == Torrents.Announced(c, View(d), req, now)
  {
    ViewSound(d);
    ViewOfStep(c, d, d.ids[req.infoHash], Runs.Stop(req.peerId));
  }

  lemma UpdateIsAction(c: Config, d: Directory, req: AnnounceRequest, now: int, scanTime: int, expired: seq<bytes>)
    requires Inv(d) && !InvalidAddress(req) && req.infoHash in d.ids && PeerOf(req, now).event != STOPPED
    requires Runs.ExpiredKeys(c, d.roots[d.ids[req.infoHash]].root, scanTime, expired)
    ensures var a := Found(req.infoHash, Runs.Announce(PeerOf(req, now), scanTime, expired));
      && Enabled(c, d, a) && Inv(Next(c, d, a)) && Torrents.Inv(View(d))
      && View(Next(c, d, a)) == Torrents.Announced(c, View(d), req, now)
      && var before, after := d.roots[d.ids[req.infoHash]], Next(c, d, a).roots[d.ids[req.infoHash]];
      && after.updates == before.updates + multiset{PeerOf(req, now)} && after.deletes == before.deletes + multiset(expired)
  {
    ViewSound(d);
    ViewOfStep(c, d, d.ids[req.infoHash], Runs.Announce(PeerOf(req, now), scanTime, expired));
  }

  lemma CollectedAreExpired(c: Config, r: Root, scanTime: int, expired: seq<bytes>)
    requires Shape(r) && SetOf(expired) <= ExpiredIn(c.ttl, scanTime, r)
    ensures Runs.ExpiredKeys(c, r, scanTime, expired)
  {
    forall k | k in expired
      ensures k in AsMap(r) && Expired(c.ttl, scanTime, AsMap(r)[k])
    {
      assert k in SetOf(expired);
    }
  }

  /** The synchronous part of an announce is one action: it does to the torrents what the manager
      does, and adds the tasks the manager hands to the pool to the pending ones. */
  lemma AnnounceIsAction(c: Config, d: Directory, req: AnnounceRequest, now: int, scanTime: int, expired: seq<bytes>)
    requires Inv(d) && !InvalidAddress(req)
    requires req.infoHash in d.ids ==> SetOf(expired) <= ExpiredIn(c.ttl, scanTime, d.roots[d.ids[req.infoHash]].root)
    ensures var a := ActionOf(d, req, now, scanTime, expired);
      && Enabled(c, d, a) && Inv(Next(c, d, a)) && Torrents.Inv(View(d))
      && View(Next(c, d, a)) == Torrents.Announced(c, View(d), req, now)
      && (Torrents.Active(View(d), req) ==>
           var before, after := d.roots[d.ids[req.infoHash]], Next(c, d, a).roots[d.ids[req.infoHash]];
           after.updates == before.updates + multiset{PeerOf(req, now)} && after.deletes == before.deletes + multiset(expired))
  {
    if req.infoHash !in d.ids {
      FirstSeenIsAction(c, d, req, now);
    } else if PeerOf(req, now).event == STOPPED {
      StopIsAction(c, d, req, now);
    } else {
      CollectedAreExpired(c, d.roots[d.ids[req.infoHash]].root, scanTime, expired);
      UpdateIsAction(c, d, req, now, scanTime, expired);
    }
  }

  /** A removal, and the sweep of one torrent, as lookups see them. */
  lemma RemoveIsAction(c: Config, d: Directory, h: bytes)
    requires Inv(d)
    ensures Enabled(c, d, Remove(h)) && Inv(Next(c, d, Remove(h))) && View(Next(c, d, Remove(h))) == View(d) - {h}
  {
    ActionKeeps(c, true, d, Remove(h));
    ViewOfDropped(d, h);
  }

  lemma SweepIsAction(c: Config, d: Directory, h: bytes, now: int)
    requires Inv(d) && h in d.ids
    ensures Enabled(c, d, Sweep(h, now)) && Inv(Next(c, d, Sweep(h, now))) && Torrents.Inv(View(d))
    ensures View(Next(c, d, Sweep(h, now))) == Torrents.Put(View(d), h, Torrents.OutcomeOf(c.ttl, now, View(d)[h]))
  {
    var r := d.roots[d.ids[h]];
    var swept := Stepped(c, d, d.ids[h], Runs.Clean(now));
    ActionKeeps(c, true, d, Sweep(h, now));
    ViewSound(d);
    ViewOfStep(c, d, d.ids[h], Runs.Clean(now));
    ViewOfDropped(swept, h);
    PutNothing(View(d), h, Swept(c.ttl, now, r.root));
  }

  lemma PutNothing(m: Torrents.Directory, h: bytes, r: Root)
    ensures m[h := r] - {h} == m - {h}
  {
  }
}
