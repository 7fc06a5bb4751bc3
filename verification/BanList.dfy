/** A growing ban list: a Bloom filter in front of an append file
    (biz/services/peer/mux_local/ban/item.go). */
module BanList {
  import opened Bytes
  import opened HexLines

  // ---------- The Bloom filter ----------

  /** How many bits and hash functions an estimate asks for, and where each hash function sends a
      target; the library's choices, left arbitrary. */
  datatype Hashing = Hashing(bitsFor: nat -> nat, hashesFor: nat -> nat, send: (bytes, nat) -> nat)

  function AtLeastOne(n: nat): nat {
    if n == 0 then 1 else n
  }

  function Spot(h: Hashing, x: bytes, i: nat, m: nat): (p: nat)
    requires m > 0
    ensures p < m
  {
    h.send(x, i) % m
  }

  /** Some member has one of its first n hash functions send it to bit p. */
  ghost predicate Covered(h: Hashing, n: nat, m: nat, members: set<bytes>, p: nat)
    requires m > 0
  {
    exists x, i: nat :: x in members && i < n && h.send(x, i) % m == p
  }

  class BloomFilter {
    const hashing: Hashing
    const k: nat
    const bits: array<bool>
    ghost var members: set<bytes>

    /** A bit is set exactly when a member covers it. */
    ghost predicate Valid()
      reads this, bits
    {
      && bits.Length > 0 && k > 0
      && forall p :: 0 <= p < bits.Length ==> (bits[p] <==> Covered(hashing, k, bits.Length, members, p))
    }

    constructor (hashing: Hashing, n: nat)
      ensures Valid() && fresh(bits) && members == {} && this.hashing == hashing
      ensures bits.Length == AtLeastOne(hashing.bitsFor(n)) && k == AtLeastOne(hashing.hashesFor(n))
    {
      this.hashing := hashing;
      k := AtLeastOne(hashing.hashesFor(n));
      bits := new bool[AtLeastOne(hashing.bitsFor(n))](_ => false);
      members := {};
    }

    method Add(x: bytes)
      requires Valid()
      modifies this, bits
      ensures Valid() && members == old(members) + {x}
    {
      for i := 0 to k
        invariant members == old(members)
        invariant forall p :: 0 <= p < bits.Length ==>
          (bits[p] <==> Covered(hashing, k, bits.Length, old(members), p) || Covered(hashing, i, bits.Length, {x}, p))
      {
        CoverOneMore(hashing, i, bits.Length, x);
        bits[Spot(hashing, x, i, bits.Length)] := true;
      }
      CoverUnion(hashing, k, bits.Length, members, x);
      members := members + {x};
    }

    /** True exactly for a target all of whose bits are covered: so for every member. */
    method Test(x: bytes) returns (r: bool)
      requires Valid()
      ensures r <==> forall i: nat :: i < k ==> Covered(hashing, k, bits.Length, members, hashing.send(x, i) % bits.Length)
      ensures x in members ==> r
    {
      for i := 0 to k
        invariant forall j: nat :: j < i ==> Covered(hashing, k, bits.Length, members, hashing.send(x, j) % bits.Length)
      {
        if !bits[Spot(hashing, x, i, bits.Length)] {
          return false;
        }
      }
      return true;
    }
  }

  lemma CoverOneMore(h: Hashing, i: nat, m: nat, x: bytes)
    requires m > 0
    ensures forall p: nat :: Covered(h, i + 1, m, {x}, p) <==> Covered(h, i, m, {x}, p) || p == Spot(h, x, i, m)
  {
  }

  lemma CoverUnion(h: Hashing, k: nat, m: nat, members: set<bytes>, x: bytes)
    requires m > 0
    ensures forall p: nat :: Covered(h, k, m, members + {x}, p) <==> Covered(h, k, m, members, p) || Covered(h, k, m, {x}, p)
  {
  }

  // ---------- The ban list ----------

  const DEFAULT_CAP: nat := 32

  function Pow2(n: nat): (r: nat)
    ensures r > 0
  {
    if n == 0 then 1 else 2 * Pow2(n - 1)
  }

  /** Fewer than two insertions repeated per add: rebuilds at counts 31, 63, 127... repeat at most
      as many as there are, and failed adds only postpone them. */
  predicate Frugal(reinserted: nat, cap: nat, count: nat) {
    reinserted <= cap - DEFAULT_CAP && reinserted <= 2 * count && (count > 0 ==> reinserted < 2 * count)
  }

  /** The keys this run must find: those an opening of the file could read, and all added since. */
  ghost predicate Findable(targets: seq<bytes>, earlier: nat, t: bytes)
    requires earlier <= |targets|
  {
    |t| == KEY_LENGTH && (t in Readable(targets[..earlier]) || t in targets[earlier..])
  }

  /** The file is the history, and the keys in the filter are exactly those this run must find. */
  ghost predicate Kept(targets: seq<bytes>, store: bytes, earlier: nat, count: nat, members: set<bytes>) {
    && store == FileOf(targets) && |targets| == earlier + count
    && forall t :: |t| == KEY_LENGTH ==> (t in members <==> Findable(targets, earlier, t))
  }

  datatype Growth = Growth(cap: nat, count: nat, doublings: nat, earlier: nat, reinserted: nat)

  ghost predicate Sound(history: Option<seq<bytes>>, store: bytes, members: set<bytes>, g: Growth) {
    && g.count < g.cap == DEFAULT_CAP * Pow2(g.doublings)
    && (history.Some? ==> Kept(history.value, store, g.earlier, g.count, members))
    && (history.Some? && g.earlier == 0 ==> Frugal(g.reinserted, g.cap, g.count))
  }

  function More(history: Option<seq<bytes>>, target: bytes): Option<seq<bytes>> {
    if history.None? then None else Some(history.value + [target])
  }

  lemma OneMore(targets: seq<bytes>, earlier: nat, target: bytes)
    requires earlier <= |targets|
    ensures forall t :: Findable(targets + [target], earlier, t) <==> Findable(targets, earlier, t) || (t == target && |t| == KEY_LENGTH)
  {
    assert (targets + [target])[..earlier] == targets[..earlier];
    assert (targets + [target])[earlier..] == targets[earlier..] + [target];
  }

  /** A file that can be read to its end gives back all keys: what growth puts into the new filter. */
  lemma WholeFileFindable(targets: seq<bytes>, earlier: nat)
    requires earlier <= |targets| && !Scan(FileOf(targets)).failed
    ensures forall t :: t in KeySet(FileOf(targets)) <==> Findable(targets, earlier, t)
    ensures |Scan(FileOf(targets)).keys| <= |targets|
  {
    ScanOfFile(targets);
    AllShortReadable(targets);
    AllShortReadable(targets[..earlier]);
    assert targets == targets[..earlier] + targets[earlier..];
  }

  lemma KeptGrows(targets: seq<bytes>, store: bytes, earlier: nat, count: nat, members: set<bytes>, target: bytes)
    requires Kept(targets, store, earlier, count, members)
    ensures Kept(targets + [target], store + LineOf(target), earlier, count + 1, members + {target})
  {
    FileGrows(targets, target);
    OneMore(targets, earlier, target);
  }

  lemma KeptRebuilt(targets: seq<bytes>, store: bytes, earlier: nat, count: nat, members: set<bytes>, target: bytes)
    requires Kept(targets, store, earlier, count, members) && !Scan(store).failed
    ensures Kept(targets + [target], store + LineOf(target), earlier, count + 1, KeySet(store) + {target})
    ensures |Scan(store).keys| <= earlier + count
  {
    WholeFileFindable(targets, earlier);
    KeptGrows(targets, store, earlier, count, KeySet(store), target);
  }

  lemma CapsDouble(g: Growth)
    requires g.count < g.cap == DEFAULT_CAP * Pow2(g.doublings)
    ensures g.cap * 2 == DEFAULT_CAP * Pow2(g.doublings + 1)
  {
  }

  lemma PlainAdd(history: Option<seq<bytes>>, store: bytes, members: set<bytes>, g: Growth, target: bytes)
    requires Sound(history, store, members, g) && g.count + 1 < g.cap
    ensures Sound(More(history, target), store + LineOf(target), members + {target}, g.(count := g.count + 1))
  {
    if history.Some? {
      KeptGrows(history.value, store, g.earlier, g.count, members, target);
    }
  }

  function Doubled(g: Growth): Growth {
    g.(cap := g.cap * 2, doublings := g.doublings + 1)
  }

  lemma FailedAdd(history: Option<seq<bytes>>, store: bytes, members: set<bytes>, g: Growth)
    requires Sound(history, store, members, g)
    ensures Sound(history, store, members, Doubled(g))
  {
    CapsDouble(g);
  }

  lemma GrowingAdd(history: Option<seq<bytes>>, store: bytes, members: set<bytes>, g: Growth, target: bytes)
    requires Sound(history, store, members, g) && g.count + 1 >= g.cap && !Scan(store).failed
    ensures Sound(More(history, target), store + LineOf(target), KeySet(store) + {target},
      Doubled(g).(count := g.count + 1, reinserted := g.reinserted + |Scan(store).keys|))
  {
    CapsDouble(g);
    if history.Some? {
      KeptRebuilt(history.value, store, g.earlier, g.count, members, target);
    }
  }

  lemma NothingSince(targets: seq<bytes>)
    ensures forall t :: Findable(targets, |targets|, t) <==> t in Readable(targets) && |t| == KEY_LENGTH
  {
    assert targets[..|targets|] == targets && targets[|targets|..] == [];
  }

  /** Opening a written file finds the keys it gives back. */
  lemma OpenedKept(targets: seq<bytes>)
    ensures Kept(targets, FileOf(targets), |targets|, 0, KeySet(FileOf(targets)))
  {
    KeySetOfFile(targets);
    NothingSince(targets);
  }

  class BanItem {
    const hashing: Hashing
    var filter: BloomFilter
    var cap: nat
    var count: nat
    var store: bytes
    /** The targets added since the file was last empty, if the file holds nothing else. */
    ghost var history: Option<seq<bytes>>
    /** How many of them an earlier run added. */
    ghost var earlier: nat
    ghost var doublings: nat
    /** Keys put again into a new filter, over all rebuilds since the start or the last clear. */
    ghost var reinserted: nat

    ghost predicate Valid()
      reads this, filter, filter.bits
    {
      filter.Valid() && filter.hashing == hashing && Sound(history, store, filter.members, Progress())
    }

    ghost function Progress(): Growth
      reads this
    {
      Growth(cap, count, doublings, earlier, reinserted)
    }

    /** Every place the hash functions send the target to is one they send some member to. */
    ghost predicate Hits(target: bytes)
      reads this, filter
    {
      filter.bits.Length > 0 &&
      forall i: nat :: i < filter.k ==>
        Covered(hashing, filter.k, filter.bits.Length, filter.members, hashing.send(target, i) % filter.bits.Length)
    }

    /** The filter was made for so many targets. */
    ghost predicate MadeFor(n: nat)
      reads this, filter
    {
      filter.bits.Length == AtLeastOne(hashing.bitsFor(n)) && filter.k == AtLeastOne(hashing.hashesFor(n))
    }

    /** An empty filter finds nobody, and one with members finds each of them. */
    lemma HitsOf(target: bytes)
      requires Valid()
      ensures filter.members == {} ==> !Hits(target)
      ensures target in filter.members ==> Hits(target)
    {
      if filter.members == {} {
        assert !Covered(hashing, filter.k, filter.bits.Length, filter.members, hashing.send(target, 0) % filter.bits.Length);
      }
    }

    /** Opening the file a run left behind, or any file. */
    constructor (hashing: Hashing, file: bytes, ghost history: Option<seq<bytes>>)
      requires history.Some? ==> file == FileOf(history.value)
      ensures Valid() && fresh(filter) && fresh(filter.bits)
      ensures this.hashing == hashing && store == file && this.history == history
      ensures filter.members == KeySet(file) && cap == 32 && count == 0 && MadeFor(32)
      ensures history.Some? ==> earlier == |history.value|
    {
      if history.Some? { OpenedKept(history.value); }
      this.hashing := hashing;
      var keys, _ := ReadKeys(file);
      var loaded := FilterOf(hashing, DEFAULT_CAP, keys);
      filter := loaded;
      cap, count, store := DEFAULT_CAP, 0, file;
      this.history := history;
      earlier := if history.Some? then |history.value| else 0;
      doublings, reinserted := 0, 0;
    }

    /** No false negatives. A key added in this run is found whatever else was added, and one an
        earlier run added is found unless a target too long to read back was added before it. For
        the filter's members among keys this is exact. */
    method Test(target: bytes) returns (r: bool)
      requires Valid()
      ensures r <==> forall i: nat :: i < filter.k ==>
        Covered(hashing, filter.k, filter.bits.Length, filter.members, hashing.send(target, i) % filter.bits.Length)
      ensures r == Hits(target) && (filter.members == {} ==> !r)
      ensures target in filter.members ==> r
      ensures history.Some? ==> earlier <= |history.value|
      ensures history.Some? && Findable(history.value, earlier, target) ==> r
      ensures history.Some? && |target| == 20 ==>
        (target in filter.members <==> Findable(history.value, earlier, target))
      ensures history.Some? && target in Keys(Readable(history.value)) ==> r
      ensures history.Some? && (forall t :: t in history.value ==> Short(t)) && target in Keys(history.value) ==> r
    {
      r := filter.Test(target);
      HitsOf(target);
      if history.Some? {
        AllShortReadable(history.value);
        if target in Readable(history.value) { ReadableSplit(history.value, earlier, target); }
      }
    }

    method Clear()
      requires Valid()
      modifies this
      ensures Valid() && fresh(filter) && fresh(filter.bits)
      ensures store == [] && history == Some([]) && earlier == 0 && filter.members == {} && cap == 32 && count == 0 && MadeFor(32)
    {
      filter := new BloomFilter(hashing, DEFAULT_CAP);
      cap, count, store := DEFAULT_CAP, 0, [];
      history, earlier, doublings, reinserted := Some([]), 0, 0, 0;
    }

    method Add(target: bytes) returns (failed: bool)
      requires Valid()
      modifies this, filter, filter.bits
      ensures Valid()
      ensures filter == old(filter) || (fresh(filter) && fresh(filter.bits))
      ensures failed <==> old(count) + 1 >= old(cap) && Scan(old(store)).failed
      ensures cap == if old(count) + 1 >= old(cap) then 2 * old(cap) else old(cap)
      ensures failed ==> count == old(count) && store == old(store) && history == old(history) && filter.members == old(filter.members)
      ensures !failed ==> store == old(store) + LineOf(target) && count == old(count) + 1
      ensures earlier == old(earlier) && count < cap == 32 * Pow2(doublings)
      ensures if !failed && old(count) + 1 >= old(cap) then MadeFor(cap) else filter == old(filter)
      ensures !failed && history.Some? && earlier == 0 ==> reinserted < 2 * count
      ensures !failed ==> history == More(old(history), target)
      ensures !failed ==> filter.members == (if old(count) + 1 >= old(cap) then KeySet(old(store)) else old(filter.members)) + {target}
    {
      if count + 1 >= cap {
        failed := AddGrowing(target);
      } else {
        filter.Add(target);
        Append(target, old(filter.members));
        failed := false;
      }
    }

    /** Add with growth: a filter of twice the capacity, from the file. */
    method AddGrowing(target: bytes) returns (failed: bool)
      requires Valid() && count + 1 >= cap
      modifies this
      ensures Valid() && cap == 2 * old(cap) && earlier == old(earlier)
      ensures failed == Scan(old(store)).failed
      ensures failed ==> filter == old(filter) && count == old(count) && store == old(store) && history == old(history)
      ensures failed ==> filter.members == old(filter.members)
      ensures !failed ==> fresh(filter) && fresh(filter.bits) && MadeFor(cap) && filter.members == KeySet(old(store)) + {target}
      ensures !failed ==> store == old(store) + LineOf(target) && count == old(count) + 1 && history == More(old(history), target)
    {
      ghost var members, g := filter.members, Progress();
      cap := cap * 2;
      doublings := doublings + 1;
      var newFilter, migrated := Rebuild(hashing, cap, store, target);
      if newFilter == null {
        FailedAdd(history, store, members, g);
        return true;
      }
      GrowingAdd(history, store, members, g, target);
      filter := newFilter;
      reinserted := reinserted + migrated;
      count := count + 1;
      store := store + LineOf(target);
      history := More(history, target);
      return false;
    }

    /** The target, already in the filter, is counted and written to the file. */
    method Append(target: bytes, ghost members: set<bytes>)
      requires filter.Valid() && filter.hashing == hashing && filter.members == members + {target}
      requires Sound(history, store, members, Progress()) && count + 1 < cap
      modifies this`count, this`store, this`history
      ensures Valid() && count == old(count) + 1 && store == old(store) + LineOf(target) && history == More(old(history), target)
    {
      PlainAdd(history, store, members, Progress(), target);
      count := count + 1;
      store := store + LineOf(target);
      history := More(history, target);
    }
  }

  /** The scan loop: to a line that is not hex, or too long, or the end. */
  method ReadKeys(file: bytes) returns (keys: seq<bytes>, failed: bool)
    ensures Scanned(keys, failed) == Scan(file)
  {
    keys, failed := [], false;
    var rest := file;
    while true
      invariant keys + Scan(rest).keys == Scan(file).keys && Scan(rest).failed == Scan(file).failed
      decreases |rest|
    {
      var line := NextLine(rest);
      match line
      case End => return keys, false;
      case TooLong => return keys, true;
      case Line(text, after) =>
        var key := HexDecode(text);
        if key.None? {
          return keys, false;
        }
        if |key.value| == KEY_LENGTH {
          keys := keys + [key.value];
        }
        rest := after;
    }
  }

  /** A new filter of some capacity with the file's keys and one more, unless the file cannot be read. */
  method Rebuild(hashing: Hashing, cap: nat, store: bytes, target: bytes) returns (filter: BloomFilter?, migrated: nat)
    ensures filter == null <==> Scan(store).failed
    ensures filter != null ==>
      fresh(filter) && fresh(filter.bits) && filter.Valid() && filter.hashing == hashing && filter.members == KeySet(store) + {target}
    ensures filter != null ==>
      filter.bits.Length == AtLeastOne(hashing.bitsFor(cap)) && filter.k == AtLeastOne(hashing.hashesFor(cap))
    ensures migrated == |Scan(store).keys|
  {
    var currentBanlist, err := ReadKeys(store);
    migrated := |currentBanlist|;
    if err {
      return null, migrated;
    }
    filter := FilterOf(hashing, cap, currentBanlist + [target]);
    assert filter.members == KeySet(store) + {target};
  }

  /** A new filter of some capacity holding these keys. */
  method FilterOf(hashing: Hashing, cap: nat, keys: seq<bytes>) returns (filter: BloomFilter)
    ensures fresh(filter) && fresh(filter.bits) && filter.Valid() && filter.hashing == hashing
    ensures filter.bits.Length == AtLeastOne(hashing.bitsFor(cap)) && filter.k == AtLeastOne(hashing.hashesFor(cap))
    ensures filter.members == set k | k in keys
  {
    filter := new BloomFilter(hashing, cap);
    for i := 0 to |keys|
      invariant filter.Valid() && filter.members == set k | k in keys[..i]
    {
      filter.Add(keys[i]);
      assert keys[..i + 1] == keys[..i] + [keys[i]];
    }
    assert keys[..|keys|] == keys;
  }
}
