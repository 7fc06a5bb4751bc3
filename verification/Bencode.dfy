/** Bencoding: the canonical encoder of any value and a strict parser, exact inverses of each other.
    FastBencode.dfy has the hand-written encoders that are measured against them. */
module Bencode {
  import opened Bytes

  datatype Value = Int(i: int) | Str(s: bytes) | List(items: seq<Value>) | Dict(entries: seq<Entry>)
  datatype Entry = Entry(key: bytes, value: Value)

  // ---------- Decimal numbers ----------

  const ZERO: byte := 48
  const MINUS: byte := 45
  const COLON: byte := 58
  const D: byte := 100
  const E: byte := 101
  const I: byte := 105
  const L: byte := 108

  predicate IsDigit(b: byte) { ZERO <= b < ZERO + 10 }

  /** strconv.Itoa, on non-negative numbers and on all. */
  function Digits(n: nat): (r: bytes)
    ensures r != [] && forall i :: 0 <= i < |r| ==> IsDigit(r[i])
    ensures r[0] == ZERO ==> r == [ZERO]
  {
    if n < 10 then [ZERO + n] else Digits(n / 10) + [ZERO + n % 10]
  }

  function Itoa(i: int): bytes {
    if i < 0 then [MINUS] + Digits(-i) else Digits(i)
  }

  function NumberOf(ds: bytes): int {
    if ds == [] then 0 else 10 * NumberOf(ds[..|ds| - 1]) + ds[|ds| - 1] - ZERO
  }

  lemma {:induction false} NumberOfDigits(n: nat)
    ensures NumberOf(Digits(n)) == n
  {
    if n >= 10 {
      NumberOfDigits(n / 10);
      assert Digits(n)[..|Digits(n)| - 1] == Digits(n / 10);
    }
  }

  // ---------- The canonical encoder ----------

  function EncodeString(s: bytes): (r: bytes)
    ensures r != [] && IsDigit(r[0])
  {
    Digits(|s|) + [COLON] + s
  }

  function Encode(v: Value): (r: bytes)
    ensures r != [] && r[0] != E
    decreases v
  {
    match v
    case Int(i) => [I] + Itoa(i) + [E]
    case Str(s) => EncodeString(s)
    case List(items) => [L] + EncodeItems(items) + [E]
    case Dict(entries) => [D] + EncodeEntries(entries) + [E]
  }

  function EncodeItems(items: seq<Value>): bytes
    decreases items
  {
    if items == [] then [] else Encode(items[0]) + EncodeItems(items[1..])
  }

  function EncodeEntries(entries: seq<Entry>): bytes
    decreases entries
  {
    if entries == [] then []
    else EncodeString(entries[0].key) + Encode(entries[0].value) + EncodeEntries(entries[1..])
  }

  /** What the texts look like. */
  lemma NumberText()
    ensures Encode(Int(-120)) == Ascii("i-120e")
  {
    assert Digits(1) == [49] && Digits(12) == [49, 50] && Digits(120) == [49, 50, 48];
    assert [I] + ([MINUS] + [49, 50, 48]) + [E] == Ascii("i-120e");
  }

  lemma StringText()
    ensures EncodeString(Ascii("spam")) == Ascii("4:spam")
  {
    assert Digits(4) == [52];
    assert [52] + [COLON] + Ascii("spam") == Ascii("4:spam");
  }

  lemma ListText()
    ensures Encode(List([Str([])])) == Ascii("l0:e")
  {
    assert EncodeString([]) == [48, COLON];
    assert EncodeItems([Str([])]) == [48, COLON];
  }

  lemma DictText()
    ensures Encode(Dict([Entry([], Str([]))])) == Ascii("d0:0:e")
  {
    assert EncodeString([]) == [48, COLON];
    assert EncodeEntries([Entry([], Str([]))]) == [48, COLON, 48, COLON];
  }

  /** Dictionary keys are strictly ascending, all the way down. */
  predicate Canonical(v: Value)
    decreases v
  {
    match v
    case Int(_) => true
    case Str(_) => true
    case List(items) => forall i :: 0 <= i < |items| ==> Canonical(items[i])
    case Dict(entries) => CanonicalEntries(entries)
  }

  predicate CanonicalEntries(entries: seq<Entry>)
    decreases entries
  {
    entries == [] || (Canonical(entries[0].value) && CanonicalEntries(entries[1..]) &&
                      (|entries| > 1 ==> Less(entries[0].key, entries[1].key)))
  }

  // ---------- A strict parser ----------

  type Parsed<T> = Option<(T, bytes)>

  function LeadingDigits(s: bytes): (k: nat)
    ensures k <= |s| && forall i :: 0 <= i < k ==> IsDigit(s[i])
  {
    if s == [] || !IsDigit(s[0]) then 0 else 1 + LeadingDigits(s[1..])
  }

  /** A number without leading zeros, as long as it goes. */
  function ParseNumber(s: bytes): (r: Parsed<int>)
    ensures r.Some? ==> |r.value.1| < |s|
  {
    var k := LeadingDigits(s);
    if k == 0 || (k > 1 && s[0] == ZERO) then None else Some((NumberOf(s[..k]), s[k..]))
  }

  function ParseString(s: bytes): (r: Parsed<bytes>)
    ensures r.Some? ==> |r.value.1| < |s|
  {
    match ParseNumber(s)
    case None => None
    case Some((n, rest)) =>
      if rest == [] || rest[0] != COLON || n < 0 || |rest| - 1 < n then None
      else Some((rest[1..1 + n], rest[1 + n..]))
  }

  /** A number and its closing e. */
  function ParseClosed(s: bytes): (r: Parsed<int>)
    ensures r.Some? ==> |r.value.1| < |s|
  {
    match ParseNumber(s)
    case None => None
    case Some((n, rest)) => if rest == [] || rest[0] != E then None else Some((n, rest[1..]))
  }

  function ParseInt(s: bytes): (r: Parsed<int>)
    ensures r.Some? ==> |r.value.1| < |s|
  {
    if s != [] && s[0] == MINUS then
      match ParseClosed(s[1..])
      case None => None
      case Some((n, rest)) => if n == 0 then None else Some((-n, rest))
    else
      ParseClosed(s)
  }

  function Parse(s: bytes): (r: Parsed<Value>)
    ensures r.Some? ==> |r.value.1| < |s|
    decreases |s|, 0
  {
    if s == [] then None
    else if s[0] == I then
      match ParseInt(s[1..])
      case None => None
      case Some((i, rest)) => Some((Int(i), rest))
    else if s[0] == L then
      match ParseItems(s[1..])
      case None => None
      case Some((items, rest)) => Some((List(items), rest))
    else if s[0] == D then
      match ParseEntries(s[1..])
      case None => None
      case Some((entries, rest)) => Some((Dict(entries), rest))
    else
      match ParseString(s)
      case None => None
      case Some((b, rest)) => Some((Str(b), rest))
  }

  /** Items up to the closing e. */
  function ParseItems(s: bytes): (r: Parsed<seq<Value>>)
    ensures r.Some? ==> |r.value.1| < |s|
    decreases |s|, 1
  {
    if s == [] then None
    else if s[0] == E then Some(([], s[1..]))
    else
      match Parse(s)
      case None => None
      case Some((v, rest)) =>
        match ParseItems(rest)
        case None => None
        case Some((items, rest')) => Some(([v] + items, rest'))
  }

  /** Entries up to the closing e; keys out of order are refused. */
  function ParseEntries(s: bytes): (r: Parsed<seq<Entry>>)
    ensures r.Some? ==> |r.value.1| < |s|
    decreases |s|, 1
  {
    if s == [] then None
    else if s[0] == E then Some(([], s[1..]))
    else
      match ParseString(s)
      case None => None
      case Some((key, rest)) =>
        match Parse(rest)
        case None => None
        case Some((v, rest')) =>
          match ParseEntries(rest')
          case None => None
          case Some((entries, rest'')) =>
            if entries != [] && !Less(key, entries[0].key) then None
            else Some(([Entry(key, v)] + entries, rest''))
  }

  // ---------- Parsing undoes encoding ----------

  lemma {:induction false} LeadingDigitsOf(ds: bytes, rest: bytes)
    requires forall i :: 0 <= i < |ds| ==> IsDigit(ds[i])
    requires rest != [] && !IsDigit(rest[0])
    ensures LeadingDigits(ds + rest) == |ds|
  {
    if ds == [] {
      assert ds + rest == rest;
    } else {
      assert (ds + rest)[1..] == ds[1..] + rest;
      LeadingDigitsOf(ds[1..], rest);
    }
  }

  lemma NumberBack(n: nat, rest: bytes)
    requires rest != [] && !IsDigit(rest[0])
    ensures ParseNumber(Digits(n) + rest) == Some((n, rest))
  {
    var s := Digits(n) + rest;
    LeadingDigitsOf(Digits(n), rest);
    NumberOfDigits(n);
    assert s[..|Digits(n)|] == Digits(n) && s[|Digits(n)|..] == rest;
  }

  lemma StringBack(b: bytes, rest: bytes)
    ensures ParseString(EncodeString(b) + rest) == Some((b, rest))
  {
    var after := [COLON] + b + rest;
    assert EncodeString(b) + rest == Digits(|b|) + after;
    NumberBack(|b|, after);
    assert after[1..1 + |b|] == b && after[1 + |b|..] == rest;
  }

  lemma ClosedBack(n: nat, rest: bytes)
    ensures ParseClosed(Digits(n) + [E] + rest) == Some((n, rest))
  {
    var after := [E] + rest;
    NumberBack(n, after);
    assert Digits(n) + [E] + rest == Digits(n) + after;
    assert after[1..] == rest;
  }

  lemma AfterMinus(digits: bytes, rest: bytes)
    ensures var s := [MINUS] + digits + [E] + rest; s[0] == MINUS && s[1..] == digits + [E] + rest
  {
  }

  lemma AfterDigits(digits: bytes, rest: bytes)
    requires digits != [] && IsDigit(digits[0])
    ensures (digits + [E] + rest)[0] != MINUS
  {
  }

  lemma IntBack(i: int, rest: bytes)
    ensures ParseInt(Itoa(i) + [E] + rest) == Some((i, rest))
  {
    if i < 0 {
      ClosedBack(-i, rest);
      AfterMinus(Digits(-i), rest);
    } else {
      ClosedBack(i, rest);
      AfterDigits(Digits(i), rest);
    }
  }

  lemma Inside(b: byte, inner: bytes, rest: bytes)
    ensures var s := [b] + inner + [E] + rest;
      s[0] == b && s[1..] == inner + [E] + rest
  {
  }

  /** Whatever follows, parsing gives back the value and leaves what follows. */
  lemma {:induction false} ValueBack(v: Value, rest: bytes)
    requires Canonical(v)
    ensures Parse(Encode(v) + rest) == Some((v, rest))
    decreases v
  {
    var s := Encode(v) + rest;
    match v
    case Int(i) =>
      Inside(I, Itoa(i), rest);
      IntBack(i, rest);
    case Str(b) =>
      StringBack(b, rest);
    case List(items) =>
      Inside(L, EncodeItems(items), rest);
      ItemsBack(items, rest);
    case Dict(entries) =>
      Inside(D, EncodeEntries(entries), rest);
      EntriesBack(entries, rest);
  }

  lemma ItemsStep(s: bytes, v: Value, after: bytes, items: seq<Value>, rest: bytes)
    requires s != [] && s[0] != E
    requires Parse(s) == Some((v, after)) && ParseItems(after) == Some((items, rest))
    ensures ParseItems(s) == Some(([v] + items, rest))
  {
  }

  lemma {:induction false} ItemsBack(items: seq<Value>, rest: bytes)
    requires forall i :: 0 <= i < |items| ==> Canonical(items[i])
    ensures ParseItems(EncodeItems(items) + [E] + rest) == Some((items, rest))
    decreases items
  {
    var s := EncodeItems(items) + [E] + rest;
    if items == [] {
      assert s == [E] + rest;
    } else {
      var after := EncodeItems(items[1..]) + [E] + rest;
      assert s == Encode(items[0]) + after;
      ValueBack(items[0], after);
      ItemsBack(items[1..], rest);
      ItemsStep(s, items[0], after, items[1..], rest);
      assert items == [items[0]] + items[1..];
    }
  }

  lemma EntriesStep(s: bytes, key: bytes, value: bytes, v: Value, after: bytes, entries: seq<Entry>, rest: bytes)
    requires s != [] && s[0] != E && ParseString(s) == Some((key, value))
    requires Parse(value) == Some((v, after)) && ParseEntries(after) == Some((entries, rest))
    requires entries != [] ==> Less(key, entries[0].key)
    ensures ParseEntries(s) == Some(([Entry(key, v)] + entries, rest))
  {
  }

  lemma {:induction false} EntriesBack(entries: seq<Entry>, rest: bytes)
    requires CanonicalEntries(entries)
    ensures ParseEntries(EncodeEntries(entries) + [E] + rest) == Some((entries, rest))
    decreases entries
  {
    var s := EncodeEntries(entries) + [E] + rest;
    if entries == [] {
      assert s == [E] + rest;
    } else {
      var key, v := entries[0].key, entries[0].value;
      var after := EncodeEntries(entries[1..]) + [E] + rest;
      assert s == EncodeString(key) + (Encode(v) + after);
      StringBack(key, Encode(v) + after);
      ValueBack(v, after);
      EntriesBack(entries[1..], rest);
      EntriesStep(s, key, Encode(v) + after, v, after, entries[1..], rest);
      assert entries == [Entry(key, v)] + entries[1..];
    }
  }

  // ---------- The parser accepts nothing else ----------

  lemma LastDigit(high: int, d: int)
    requires 0 <= d < 10
    ensures (10 * high + d) / 10 == high && (10 * high + d) % 10 == d
  {
  }

  lemma {:induction false} DigitsOfNumber(ds: bytes)
    requires ds != [] && (forall i :: 0 <= i < |ds| ==> IsDigit(ds[i])) && (|ds| > 1 ==> ds[0] != ZERO)
    ensures NumberOf(ds) >= 0 && Digits(NumberOf(ds)) == ds
  {
    var n := |ds| - 1;
    if n > 0 {
      DigitsOfNumber(ds[..n]);
      var high := NumberOf(ds[..n]);
      assert high != 0;
      LastDigit(high, ds[n] - ZERO);
    } else {
      assert NumberOf(ds[..0]) == 0;
    }
  }

  lemma NumberExact(s: bytes)
    ensures ParseNumber(s).Some? ==> var (n, rest) := ParseNumber(s).value; n >= 0 && s == Digits(n) + rest
  {
    var k := LeadingDigits(s);
    if ParseNumber(s).Some? {
      DigitsOfNumber(s[..k]);
      assert s == s[..k] + s[k..];
    }
  }

  lemma ColonSplit(digits: bytes, after: bytes, n: nat)
    requires after != [] && after[0] == COLON && n < |after|
    ensures digits + after == digits + [COLON] + after[1..1 + n] + after[1 + n..]
  {
    assert after == [COLON] + after[1..1 + n] + after[1 + n..];
  }

  lemma StringExact(s: bytes)
    ensures ParseString(s).Some? ==> var (b, rest) := ParseString(s).value; s == EncodeString(b) + rest
  {
    NumberExact(s);
    if ParseString(s).Some? {
      var (n, after) := ParseNumber(s).value;
      ColonSplit(Digits(n), after, n);
    }
  }

  lemma Assoc(a: bytes, b: bytes, c: bytes)
    ensures a + b + c == a + (b + c)
  {
  }

  lemma ClosedExact(s: bytes)
    ensures ParseClosed(s).Some? ==> var (n, rest) := ParseClosed(s).value; n >= 0 && s == Digits(n) + ([E] + rest)
  {
    NumberExact(s);
    if ParseClosed(s).Some? {
      var (n, after) := ParseNumber(s).value;
      assert after == [E] + after[1..];
    }
  }

  lemma IntExact(s: bytes)
    ensures ParseInt(s).Some? ==> var (i, rest) := ParseInt(s).value; s == Itoa(i) + ([E] + rest)
  {
    if s != [] && s[0] == MINUS {
      ClosedExact(s[1..]);
      if ParseInt(s).Some? {
        var (n, rest) := ParseClosed(s[1..]).value;
        assert s == [MINUS] + s[1..];
        Assoc([MINUS], Digits(n), [E] + rest);
      }
    } else {
      ClosedExact(s);
    }
  }

  lemma Wrapped(b: byte, inner: bytes, s: bytes, rest: bytes)
    requires s != [] && s[0] == b && s[1..] == inner + ([E] + rest)
    ensures s == [b] + inner + [E] + rest
  {
    assert s == [b] + s[1..];
    Assoc([b], inner, [E] + rest);
    Assoc([b] + inner, [E], rest);
  }

  /** Only what encodes a value with ordered keys is parsed, and only to that value. */
  lemma {:induction false} ValueExact(s: bytes)
    ensures Parse(s).Some? ==> var (v, rest) := Parse(s).value; Canonical(v) && s == Encode(v) + rest
    decreases |s|, 0
  {
    if Parse(s).Some? {
      var (v, rest) := Parse(s).value;
      if s[0] == I {
        IntExact(s[1..]);
        Wrapped(I, Itoa(v.i), s, rest);
      } else if s[0] == L {
        ItemsExact(s[1..]);
        Wrapped(L, EncodeItems(v.items), s, rest);
      } else if s[0] == D {
        EntriesExact(s[1..]);
        Wrapped(D, EncodeEntries(v.entries), s, rest);
      } else {
        StringExact(s);
      }
    }
  }

  lemma ItemsGlue(v: Value, items: seq<Value>, after: bytes, rest: bytes)
    requires after == EncodeItems(items) + ([E] + rest)
    ensures Encode(v) + after == EncodeItems([v] + items) + ([E] + rest)
  {
    assert ([v] + items)[1..] == items;
    Assoc(Encode(v), EncodeItems(items), [E] + rest);
  }

  lemma {:induction false} ItemsExact(s: bytes)
    ensures ParseItems(s).Some? ==> var (items, rest) := ParseItems(s).value;
      (forall i :: 0 <= i < |items| ==> Canonical(items[i])) && s == EncodeItems(items) + ([E] + rest)
    decreases |s|, 1
  {
    if ParseItems(s).Some? {
      if s[0] == E {
        assert s == [] + ([E] + s[1..]);
      } else {
        ValueExact(s);
        var (v, after) := Parse(s).value;
        ItemsExact(after);
        var (items, rest) := ParseItems(after).value;
        ItemsGlue(v, items, after, rest);
      }
    }
  }

  lemma EntriesGlue(key: bytes, v: Value, entries: seq<Entry>, value: bytes, after: bytes, rest: bytes)
    requires value == Encode(v) + after && after == EncodeEntries(entries) + ([E] + rest)
    requires Canonical(v) && CanonicalEntries(entries) && (entries != [] ==> Less(key, entries[0].key))
    ensures EncodeString(key) + value == EncodeEntries([Entry(key, v)] + entries) + ([E] + rest)
    ensures CanonicalEntries([Entry(key, v)] + entries)
  {
    assert ([Entry(key, v)] + entries)[1..] == entries;
    Assoc(EncodeString(key), Encode(v), after);
    Assoc(EncodeString(key) + Encode(v), EncodeEntries(entries), [E] + rest);
  }

  lemma {:induction false} EntriesExact(s: bytes)
    ensures ParseEntries(s).Some? ==> var (entries, rest) := ParseEntries(s).value;
      CanonicalEntries(entries) && s == EncodeEntries(entries) + ([E] + rest)
    decreases |s|, 1
  {
    if ParseEntries(s).Some? {
      if s[0] == E {
        assert s == [] + ([E] + s[1..]);
      } else {
        StringExact(s);
        var (key, value) := ParseString(s).value;
        ValueExact(value);
        var (v, after) := Parse(value).value;
        EntriesExact(after);
        var (entries, rest) := ParseEntries(after).value;
        EntriesGlue(key, v, entries, value, after, rest);
      }
    }
  }

  /** The parser and the encoder are exact inverses. */
  lemma ParseIff(s: bytes, v: Value, rest: bytes)
    ensures Parse(s) == Some((v, rest)) <==> Canonical(v) && s == Encode(v) + rest
  {
    ValueExact(s);
    if Canonical(v) { ValueBack(v, rest); }
  }

  // ---------- Dictionaries from fields ----------

  /** The fields of a message, each under its name, without an order. */
  type Fields = map<bytes, Value>

  function Entries(m: Fields, ks: seq<bytes>): (r: seq<Entry>)
    requires forall k :: k in ks ==> k in m
    ensures |r| == |ks| && forall i :: 0 <= i < |ks| ==> r[i] == Entry(ks[i], m[ks[i]])
  {
    seq(|ks|, i requires 0 <= i < |ks| => Entry(ks[i], m[ks[i]]))
  }

  /** What BEP 3 asks of a dictionary: all fields, keys in the order of their bytes. */
  function Dictionary(m: Fields): Value {
    Dict(Entries(m, Sorted(m.Keys)))
  }

  lemma {:induction false} AscendingUnique(a: seq<bytes>, b: seq<bytes>)
    requires Ascending(a) && Ascending(b) && forall k :: k in a <==> k in b
    ensures a == b
  {
    assert a != [] ==> a[0] in b;
    assert b != [] ==> b[0] in a;
    if a != [] {
      assert a[0] in b && b[0] in a;
      var i :| 0 <= i < |b| && b[i] == a[0];
      var j :| 0 <= j < |a| && a[j] == b[0];
      if i > 0 && j > 0 {
        assert Less(b[0], b[i]) && Less(a[0], a[j]);
        LeqAntisymmetric(a[0], b[0]);
      }
      forall k | k in a[1..] ensures k in b[1..] {
        assert k in b && k != b[0];
      }
      forall k | k in b[1..] ensures k in a[1..] {
        assert k in a && k != a[0];
      }
      AscendingUnique(a[1..], b[1..]);
      assert a == [a[0]] + a[1..] && b == [b[0]] + b[1..];
    }
  }

  /** A dictionary without its closing e. */
  function Opening(m: Fields): bytes {
    OpeningOf(m, Sorted(m.Keys))
  }

  function OpeningOf(m: Fields, ks: seq<bytes>): bytes
    requires forall k :: k in ks ==> k in m
  {
    [D] + EncodeEntries(Entries(m, ks))
  }

  ghost predicate NoneBeyond(m: Fields, last: bytes) {
    forall k :: k in m ==> Leq(k, last)
  }

  lemma AscendingGrows(ks: set<bytes>, r: seq<bytes>, r': seq<bytes>, last: bytes, key: bytes)
    requires (forall k :: k in ks ==> Leq(k, last)) && Less(last, key)
    requires Ascending(r) && forall k :: k in r <==> k in ks
    requires Ascending(r') && forall k :: k in r' <==> k in ks + {key}
    ensures key !in ks && r' == r + [key]
    ensures forall k :: k in ks + {key} ==> Leq(k, key)
  {
    forall k | k in ks
      ensures Less(k, key)
    {
      LeqTransitive(k, last, key);
      if k == key { LeqAntisymmetric(last, key); }
    }
    LeqReflexive(key);
    forall i | 0 <= i < |r|
      ensures Less(r[i], key)
    {
      assert r[i] in r;
    }
    AscendingUnique(r', r + [key]);
  }

  lemma EntriesGrow(m: Fields, ks: seq<bytes>, key: bytes, v: Value)
    requires key !in m && forall k :: k in ks ==> k in m
    ensures Entries(m[key := v], ks + [key]) == Entries(m, ks) + [Entry(key, v)]
  {
  }

  lemma EncodingGrows(m: Fields, ks: seq<bytes>, key: bytes, v: Value)
    requires key !in m && forall k :: k in ks ==> k in m
    ensures OpeningOf(m[key := v], ks + [key]) == OpeningOf(m, ks) + EncodeString(key) + Encode(v)
  {
    EntriesGrow(m, ks, key, v);
    EncodeSnoc(Entries(m, ks), Entry(key, v));
    Regroup([D], EncodeEntries(Entries(m, ks)), EncodeString(key), Encode(v));
  }

  lemma Regroup(was: bytes, o: bytes, a: bytes, b: bytes)
    ensures was + o + a + b == was + (o + a + b)
  {
  }

  lemma GrownOpening(m: Fields, r: seq<bytes>, r': seq<bytes>, last: bytes, key: bytes, v: Value)
    requires NoneBeyond(m, last) && Less(last, key)
    requires Ascending(r) && forall k :: k in r <==> k in m.Keys
    requires Ascending(r') && forall k :: k in r' <==> k in m[key := v].Keys
    ensures NoneBeyond(m[key := v], key)
    ensures OpeningOf(m[key := v], r') == OpeningOf(m, r) + EncodeString(key) + Encode(v)
  {
    AscendingGrows(m.Keys, r, r', last, key);
    EncodingGrows(m, r, key, v);
  }

  /** A field whose key follows all others goes at the end. */
  lemma OpeningGrows(m: Fields, last: bytes, key: bytes, v: Value)
    requires NoneBeyond(m, last) && Less(last, key)
    ensures NoneBeyond(m[key := v], key)
    ensures Opening(m[key := v]) == Opening(m) + EncodeString(key) + Encode(v)
  {
    GrownOpening(m, Sorted(m.Keys), Sorted(m[key := v].Keys), last, key, v);
  }

  lemma {:induction false} EncodeSnoc(entries: seq<Entry>, e: Entry)
    ensures EncodeEntries(entries + [e]) == EncodeEntries(entries) + EncodeString(e.key) + Encode(e.value)
  {
    if entries == [] {
      assert entries + [e] == [e];
    } else {
      assert (entries + [e])[1..] == entries[1..] + [e];
      EncodeSnoc(entries[1..], e);
    }
  }

  lemma {:induction false} FlatCanonical(entries: seq<Entry>)
    requires forall i, j :: 0 <= i < j < |entries| ==> Less(entries[i].key, entries[j].key)
    requires forall i :: 0 <= i < |entries| ==> entries[i].value.Int? || entries[i].value.Str?
    ensures CanonicalEntries(entries)
  {
    if entries != [] { FlatCanonical(entries[1..]); }
  }

  /** A message of numbers and strings, whatever follows, is parsed back to its dictionary. */
  lemma DictionaryBack(m: Fields, rest: bytes)
    requires forall k :: k in m ==> m[k].Int? || m[k].Str?
    ensures Parse(Encode(Dictionary(m)) + rest) == Some((Dictionary(m), rest))
  {
    FlatCanonical(Entries(m, Sorted(m.Keys)));
    ValueBack(Dictionary(m), rest);
  }

  /** The value under a key, for a reader that looks through the entries. */
  function FieldIn(entries: seq<Entry>, key: bytes): Option<Value> {
    if entries == [] then None
    else if entries[0].key == key then Some(entries[0].value)
    else FieldIn(entries[1..], key)
  }

  lemma {:induction false} FieldAmong(m: Fields, ks: seq<bytes>, key: bytes)
    requires forall k :: k in ks ==> k in m
    ensures FieldIn(Entries(m, ks), key) == if key in ks then Some(m[key]) else None
  {
    if ks != [] {
      FieldAmong(m, ks[1..], key);
      assert Entries(m, ks)[1..] == Entries(m, ks[1..]);
    }
  }

  function Get(m: Fields, key: bytes): Option<Value> {
    if key in m then Some(m[key]) else None
  }

  /** One dictionary and nothing after it. */
  function WholeDictionary(s: bytes): Option<seq<Entry>> {
    match Parse(s)
    case None => None
    case Some((v, rest)) => if v.Dict? && rest == [] then Some(v.entries) else None
  }

  ghost predicate Flat(m: Fields) {
    forall k :: k in m ==> m[k].Int? || m[k].Str?
  }

  ghost predicate Holds(s: bytes, m: Fields) {
    WholeDictionary(s).Some? && forall k :: FieldIn(WholeDictionary(s).value, k) == Get(m, k)
  }

  /** The text of a message is one dictionary with exactly its fields. */
  lemma TextHolds(m: Fields)
    requires Flat(m)
    ensures Holds(Encode(Dictionary(m)), m)
  {
    var text := Encode(Dictionary(m));
    DictionaryBack(m, []);
    assert text + [] == text;
    assert WholeDictionary(text) == Some(Entries(m, Sorted(m.Keys)));
    forall k
      ensures FieldIn(WholeDictionary(text).value, k) == Get(m, k)
    {
      FieldAmong(m, Sorted(m.Keys), k);
    }
  }

  /** Messages that differ in a field differ in their text. */
  lemma TextsDiffer(a: Fields, b: Fields, k: bytes)
    requires Flat(a) && Flat(b) && Get(a, k) != Get(b, k)
    ensures Encode(Dictionary(a)) != Encode(Dictionary(b))
  {
    TextHolds(a);
    TextHolds(b);
    if Encode(Dictionary(a)) == Encode(Dictionary(b)) {
      SameFields(Encode(Dictionary(a)), a, b, k);
    }
  }

  lemma SameFields(s: bytes, a: Fields, b: Fields, k: bytes)
    requires Holds(s, a) && Holds(s, b)
    ensures Get(a, k) == Get(b, k)
  {
    assert FieldIn(WholeDictionary(s).value, k) == Get(a, k);
  }
}
