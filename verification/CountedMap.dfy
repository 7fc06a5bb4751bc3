/** The counted sync.Map (utils/collections/mapx/sync.go): a map and a separate atomic length.
    Alone, each call keeps the two together; interleaved, every call is split at its atomic
    operations, and the length is tied to the map through the calls in flight. */
module CountedMap {
  import opened Bytes

  // ---------- One call at a time ----------

  class Map<K(==), V> {
    var m: map<K, V>
    var length: int

    predicate Valid()
      reads this
    {
      length == |m|
    }

    constructor ()
      ensures Valid() && m == map[]
    {
      m, length := map[], 0;
    }

    method Delete(key: K) returns (ok: bool)
      requires Valid()
      modifies this
      ensures Valid() && m == old(m) - {key} && ok == (key in old(m))
    {
      var found := LoadAndDelete(key);
      ok := found.Some?;
    }

    method Load(key: K) returns (value: Option<V>)
      ensures value == if key in m then Some(m[key]) else None
    {
      value := if key in m then Some(m[key]) else None;
    }

    method LoadAndDelete(key: K) returns (value: Option<V>)
      requires Valid()
      modifies this
      ensures Valid() && m == old(m) - {key}
      ensures value == if key in old(m) then Some(old(m)[key]) else None
    {
      value := Load(key);
      RemoveSize(m, key);
      m := m - {key};
      if value.Some? {
        length := length - 1;
      }
    }

    method LoadOrStore(key: K, value: V) returns (actual: V, loaded: bool)
      requires Valid()
      modifies this
      ensures Valid() && loaded == (key in old(m))
      ensures m == if loaded then old(m) else old(m)[key := value]
      ensures key in m && actual == m[key]
    {
      loaded := key in m;
      if !loaded {
        m := m[key := value];
        length := length + 1;
      }
      actual := m[key];
    }

    method Store(key: K, value: V)
      requires Valid()
      modifies this
      ensures Valid() && m == old(m)[key := value]
    {
      var _, loaded := LoadOrStore(key, value);
      if loaded {
        UpdateSize(m, key, value);
        m := m[key := value];
      }
    }

    method LoadOrStoreLazy(key: K, lazy: V) returns (actual: V, loaded: bool)
      requires Valid()
      modifies this
      ensures Valid() && loaded == (key in old(m))
      ensures m == if loaded then old(m) else old(m)[key := lazy]
      ensures key in m && actual == m[key]
    {
      var value := Load(key);
      if value.Some? {
        return value.value, true;
      }
      actual, loaded := LoadOrStore(key, lazy);
    }

    method Len() returns (n: int)
      requires Valid()
      ensures n == |m|
    {
      n := length;
    }
  }

  lemma RemoveSize<K, V>(m: map<K, V>, key: K)
    ensures |m - {key}| == if key in m then |m| - 1 else |m|
  {
    assert (m - {key}).Keys == m.Keys - {key};
    assert |m.Keys - {key}| == if key in m then |m.Keys| - 1 else |m.Keys|;
  }

  lemma UpdateSize<K, V>(m: map<K, V>, key: K, value: V)
    ensures |m[key := value]| == if key in m then |m| else |m| + 1
  {
    assert m[key := value].Keys == m.Keys + {key};
  }

  // ---------- Calls interleaved at their atomic operations ----------

  /** Where a goroutine stands inside a call: it has changed the map and must count, it has missed
      in LoadOrStoreLazy, or it has found its key in Store and will overwrite. */
  datatype Call<K, V> = Idle | Counting(delta: int) | Missed(key: K, value: V) | Overwriting(key: K, value: V)

  /** late counts the overwrites of Store that came after the key had been deleted. */
  datatype State<K, V> = State(m: map<K, V>, length: int, calls: seq<Call<K, V>>, ghost late: nat)

  /** Delete stands for LoadAndDelete as well; Proceed is the next atomic operation of a call. */
  datatype Action<K, V> = Delete(key: K) | LoadOrStore(key: K, value: V) | LoadOrStoreLazy(key: K, value: V)
    | Store(key: K, value: V) | Proceed

  ghost predicate Enabled<K, V>(s: State<K, V>, t: nat, a: Action<K, V>) {
    t < |s.calls| && (s.calls[t].Idle? <==> !a.Proceed?)
  }

  /** sync.Map.LoadOrStore, to be followed by counting if it stored. */
  ghost function TryStore<K, V>(s: State<K, V>, t: nat, key: K, value: V, otherwise: Call<K, V>): State<K, V>
    requires t < |s.calls|
  {
    if key in s.m then s.(calls := s.calls[t := otherwise])
    else s.(m := s.m[key := value], calls := s.calls[t := Counting(1)])
  }

  ghost function Next<K, V>(s: State<K, V>, t: nat, a: Action<K, V>): State<K, V>
    requires Enabled(s, t, a)
  {
    match a
    case Delete(key) =>
      if key in s.m then s.(m := s.m - {key}, calls := s.calls[t := Counting(-1)]) else s
    case LoadOrStore(key, value) => TryStore(s, t, key, value, Idle)
    case LoadOrStoreLazy(key, value) => if key in s.m then s else s.(calls := s.calls[t := Missed(key, value)])
    case Store(key, value) => TryStore(s, t, key, value, Overwriting(key, value))
    case Proceed =>
      match s.calls[t]
      case Idle => s
      case Counting(delta) => s.(length := s.length + delta, calls := s.calls[t := Idle])
      case Missed(key, value) => TryStore(s, t, key, value, Idle)
      case Overwriting(key, value) =>
        State(s.m[key := value], s.length, s.calls[t := Idle], if key in s.m then s.late else s.late + 1)
  }

  type Schedule<K, V> = seq<(nat, Action<K, V>)>

  /** The schedule can be followed from s, and leads to e. */
  ghost predicate Leads<K, V>(s: State<K, V>, actions: Schedule<K, V>, e: State<K, V>)
    decreases |actions|
  {
    if actions == [] then s == e
    else Enabled(s, actions[0].0, actions[0].1) && Leads(Next(s, actions[0].0, actions[0].1), actions[1..], e)
  }

  function Delta<K, V>(c: Call<K, V>): int {
    if c.Counting? then c.delta else 0
  }

  /** The counting still to be done by the calls in flight. */
  function Pending<K, V>(calls: seq<Call<K, V>>): int {
    if calls == [] then 0 else Delta(calls[0]) + Pending(calls[1..])
  }

  lemma {:induction false} PendingUpdate<K, V>(calls: seq<Call<K, V>>, t: nat, c: Call<K, V>)
    requires t < |calls|
    ensures Pending(calls[t := c]) == Pending(calls) - Delta(calls[t]) + Delta(c)
  {
    if t > 0 {
      assert calls[t := c][1..] == calls[1..][t - 1 := c];
      PendingUpdate(calls[1..], t - 1, c);
    } else {
      assert calls[t := c][1..] == calls[1..];
    }
  }

  ghost predicate Balanced<K, V>(s: State<K, V>) {
    |s.m| == s.length + Pending(s.calls) + s.late
  }

  lemma StepBalanced<K, V>(s: State<K, V>, t: nat, a: Action<K, V>)
    requires Enabled(s, t, a) && Balanced(s)
    ensures Balanced(Next(s, t, a))
  {
    var e := Next(s, t, a);
    if e.calls != s.calls { PendingUpdate(s.calls, t, e.calls[t]); }
    match a
    case Delete(key) => RemoveSize(s.m, key);
    case LoadOrStore(key, value) => UpdateSize(s.m, key, value);
    case LoadOrStoreLazy(_, _) =>
    case Store(key, value) => UpdateSize(s.m, key, value);
    case Proceed =>
      match s.calls[t] {
        case Counting(delta) =>
        case Missed(key, value) => UpdateSize(s.m, key, value);
        case Overwriting(key, value) => UpdateSize(s.m, key, value);
      }
  }

  ghost predicate AllIdle<K, V>(s: State<K, V>) {
    forall t :: 0 <= t < |s.calls| ==> s.calls[t].Idle?
  }

  lemma {:induction false} NothingPending<K, V>(calls: seq<Call<K, V>>)
    requires forall t :: 0 <= t < |calls| ==> calls[t].Idle?
    ensures Pending(calls) == 0
  {
    if calls != [] { NothingPending(calls[1..]); }
  }

  /** Under any interleaving the map has as many keys as the length says, plus the counting in
      flight, plus the late overwrites; late overwrites never heal. So when nothing is in flight
      the length is exact if and only if no Store overwrote a key deleted under it. */
  lemma {:induction false} LengthUnderInterleaving<K, V>(s: State<K, V>, actions: Schedule<K, V>, e: State<K, V>)
    requires Balanced(s) && Leads(s, actions, e)
    ensures |e.m| == e.length + Pending(e.calls) + e.late && e.late >= s.late
    ensures AllIdle(e) ==> (e.length == |e.m| <==> e.late == 0)
    decreases |actions|
  {
    if actions != [] {
      StepBalanced(s, actions[0].0, actions[0].1);
      LengthUnderInterleaving(Next(s, actions[0].0, actions[0].1), actions[1..], e);
    }
    if AllIdle(e) { NothingPending(e.calls); }
  }

  ghost predicate NoStore<K, V>(actions: Schedule<K, V>) {
    forall i :: 0 <= i < |actions| ==> !actions[i].1.Store?
  }

  /** Without Store nothing is ever late: the length is exact whenever nothing is in flight. */
  lemma {:induction false} ExactWithoutStore<K, V>(s: State<K, V>, actions: Schedule<K, V>, e: State<K, V>)
    requires Balanced(s) && s.late == 0 && Leads(s, actions, e) && NoStore(actions)
    requires forall t :: 0 <= t < |s.calls| ==> !s.calls[t].Overwriting?
    ensures |e.m| == e.length + Pending(e.calls)
    ensures AllIdle(e) ==> e.length == |e.m|
    decreases |actions|
  {
    if actions != [] {
      assert !actions[0].1.Store?;
      StepBalanced(s, actions[0].0, actions[0].1);
      ExactWithoutStore(Next(s, actions[0].0, actions[0].1), actions[1..], e);
    }
    if AllIdle(e) { NothingPending(e.calls); }
  }

  /** A key deleted between the two halves of a Store: one key in the map, and length 0 for good. */
  lemma StoreDrifts(key: int, value: int)
    ensures var actions := [(0, LoadOrStore(key, value)), (0, Proceed), (0, Store(key, value)),
                            (1, Delete(key)), (1, Proceed), (0, Proceed)];
      Leads(State(map[], 0, [Idle, Idle], 0), actions, State(map[key := value], 0, [Idle, Idle], 1))
  {
    var s0: State<int, int> := State(map[], 0, [Idle, Idle], 0);
    var s1 := Next(s0, 0, LoadOrStore(key, value));
    var s2 := Next(s1, 0, Proceed);
    var s3 := Next(s2, 0, Store(key, value));
    var s4 := Next(s3, 1, Delete(key));
    var s5 := Next(s4, 1, Proceed);
    var s6 := Next(s5, 0, Proceed);
    assert s6 == State(map[key := value], 0, [Idle, Idle], 1);
    LeadsOn(s5, 0, Proceed, [], s6);
    LeadsOn(s4, 1, Proceed, [(0, Proceed)], s6);
    LeadsOn(s3, 1, Delete(key), [(1, Proceed), (0, Proceed)], s6);
    LeadsOn(s2, 0, Store(key, value), [(1, Delete(key)), (1, Proceed), (0, Proceed)], s6);
    LeadsOn(s1, 0, Proceed, [(0, Store(key, value)), (1, Delete(key)), (1, Proceed), (0, Proceed)], s6);
    LeadsOn(s0, 0, LoadOrStore(key, value), [(0, Proceed), (0, Store(key, value)), (1, Delete(key)), (1, Proceed), (0, Proceed)], s6);
  }

  lemma LeadsOn<K, V>(s: State<K, V>, t: nat, a: Action<K, V>, rest: Schedule<K, V>, e: State<K, V>)
    requires Enabled(s, t, a) && Leads(Next(s, t, a), rest, e)
    ensures Leads(s, [(t, a)] + rest, e)
  {
    assert ([(t, a)] + rest)[1..] == rest;
  }
}
