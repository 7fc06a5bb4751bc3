/** Byte strings as the tracker uses them: Go strings and byte slices, their
    lexicographic order, and the fixed-width integer encodings of encoding/binary. */
module Bytes {

  type byte = x: int | 0 <= x < 256
  type bytes = seq<byte>

  datatype Option<+T> = None | Some(value: T)

  /** The ASCII bytes of a literal. */
  function Ascii(s: string): (r: bytes)
    ensures |r| == |s|
  {
    seq(|s|, i requires 0 <= i < |s| => (s[i] as int) % 256)
  }

  // ---------- Lexicographic order ----------

  predicate Leq(a: bytes, b: bytes) {
    a == [] || (b != [] && (a[0] < b[0] || (a[0] == b[0] && Leq(a[1..], b[1..]))))
  }

  predicate Less(a: bytes, b: bytes) {
    Leq(a, b) && a != b
  }

  lemma LeqReflexive(a: bytes)
    ensures Leq(a, a)
  {
  }

  lemma {:induction false} LeqTotal(a: bytes, b: bytes)
    ensures Leq(a, b) || Leq(b, a)
  {
    if a != [] && b != [] && a[0] == b[0] {
      LeqTotal(a[1..], b[1..]);
    }
  }

  lemma {:induction false} LeqAntisymmetric(a: bytes, b: bytes)
    requires Leq(a, b) && Leq(b, a)
    ensures a == b
  {
    if a != [] && b != [] {
      LeqAntisymmetric(a[1..], b[1..]);
      assert a == [a[0]] + a[1..] && b == [b[0]] + b[1..];
    }
  }

  lemma {:induction false} LeqTransitive(a: bytes, b: bytes, c: bytes)
    requires Leq(a, b) && Leq(b, c)
    ensures Leq(a, c)
  {
    if a != [] && a[0] == b[0] && b[0] == c[0] {
      LeqTransitive(a[1..], b[1..], c[1..]);
    }
  }

  ghost predicate Ascending(ks: seq<bytes>) {
    forall i, j :: 0 <= i < j < |ks| ==> Less(ks[i], ks[j])
  }

  predicate IsLeast(k: bytes, ks: set<bytes>) {
    k in ks && forall k' :: k' in ks ==> Leq(k, k')
  }

  lemma {:induction false} LeastExists(ks: set<bytes>)
    requires ks != {}
    ensures exists k :: IsLeast(k, ks)
  {
    var x :| x in ks;
    LeqReflexive(x);
    if ks == {x} {
      assert IsLeast(x, ks);
    } else {
      LeastExists(ks - {x});
      var y :| IsLeast(y, ks - {x});
      LeqTotal(x, y);
      if Leq(y, x) {
        assert IsLeast(y, ks);
      } else {
        forall k' | k' in ks - {x}
          ensures Leq(x, k')
        {
          LeqTransitive(x, y, k');
        }
        assert IsLeast(x, ks);
      }
    }
  }

  lemma LeastUnique(ks: set<bytes>)
    ensures forall a, b :: IsLeast(a, ks) && IsLeast(b, ks) ==> a == b
  {
    forall a, b | IsLeast(a, ks) && IsLeast(b, ks)
      ensures a == b
    {
      LeqAntisymmetric(a, b);
    }
  }

  function Least(ks: set<bytes>): (k: bytes)
    requires ks != {}
    ensures IsLeast(k, ks)
  {
    LeastExists(ks);
    LeastUnique(ks);
    var k :| k in ks && IsLeast(k, ks);
    k
  }

  /** The order in which a skip map ranges over its keys. */
  function Sorted(ks: set<bytes>): (r: seq<bytes>)
    ensures forall k :: k in r <==> k in ks
    ensures Ascending(r)
    ensures |r| == |ks|
    decreases |ks|
  {
    if ks == {} then [] else
      var k := Least(ks);
      var rest := Sorted(ks - {k});
      LeastBeforeRest(k, ks, rest);
      [k] + rest
  }

  lemma LeastBeforeRest(k: bytes, ks: set<bytes>, rest: seq<bytes>)
    requires IsLeast(k, ks) && Ascending(rest)
    requires forall x :: x in rest <==> x in ks - {k}
    ensures Ascending([k] + rest)
    ensures forall x :: x in [k] + rest <==> x in ks
  {
    forall j | 0 <= j < |rest|
      ensures Less(k, rest[j])
    {
      assert rest[j] in rest;
    }
  }

  // ---------- Fixed-width integers ----------

  function Pow256(w: nat): (r: nat)
    ensures r > 0
  {
    if w == 0 then 1 else 256 * Pow256(w - 1)
  }

  /** The value of a big-endian byte string. */
  function BigEndian(s: bytes): nat {
    if s == [] then 0 else 256 * BigEndian(s[..|s| - 1]) + s[|s| - 1]
  }

  /** The low w bytes of v, most significant first: what PutUint16/32/64 store. */
  function PutBig(v: nat, w: nat): (r: bytes)
    ensures |r| == w
  {
    if w == 0 then [] else PutBig(v / 256, w - 1) + [v % 256]
  }

  lemma {:induction false} BigEndianOfPut(v: nat, w: nat)
    ensures BigEndian(PutBig(v, w)) == v % Pow256(w)
  {
    if w > 0 {
      BigEndianOfPut(v / 256, w - 1);
      var r := PutBig(v, w);
      assert r[..w - 1] == PutBig(v / 256, w - 1);
      ModSplit(v, Pow256(w - 1));
    }
  }

  lemma ModSplit(v: nat, p: nat)
    requires p > 0
    ensures 256 * (v / 256 % p) + v % 256 == v % (256 * p)
  {
    var q := v / 256;
    var a, b := q / p, q % p;
    assert v == 256 * q + v % 256;
    assert q == a * p + b;
    assert v == (256 * p) * a + (256 * b + v % 256) by {
      assert 256 * (a * p + b) == (256 * p) * a + 256 * b;
    }
    DivModUnique(v, 256 * p, a, 256 * b + v % 256);
  }

  lemma MulAtLeast(d: int, n: int)
    requires d > 0 && n >= 1
    ensures d * n >= d
  {
  }

  lemma DivModUnique(v: int, d: int, q: int, r: int)
    requires d > 0 && 0 <= r < d && v == d * q + r
    ensures v % d == r
  {
    var q', r' := v / d, v % d;
    assert v == d * q' + r' && 0 <= r' < d;
    assert d * (q - q') == d * q - d * q';
    assert d * (q' - q) == d * q' - d * q;
    if q > q' {
      MulAtLeast(d, q - q');
    } else if q < q' {
      MulAtLeast(d, q' - q);
    }
  }

  lemma {:induction false} BigEndianBound(s: bytes)
    ensures BigEndian(s) < Pow256(|s|)
  {
    if s != [] {
      BigEndianBound(s[..|s| - 1]);
    }
  }

  lemma MulSwap(x: int, y: int)
    ensures 256 * (x * y) == x * (256 * y)
  {
  }

  lemma {:induction false} BigEndianAppend(a: bytes, b: bytes)
    ensures BigEndian(a + b) == BigEndian(a) * Pow256(|b|) + BigEndian(b)
  {
    if b == [] {
      assert a + b == a;
    } else {
      var n := |b| - 1;
      assert (a + b)[..|a + b| - 1] == a + b[..n];
      BigEndianAppend(a, b[..n]);
      assert (a + b)[|a + b| - 1] == b[n];
      MulSwap(BigEndian(a), Pow256(n));
    }
  }

  /** The value of a little-endian byte string, and its inverse. */
  function LittleEndian(s: bytes): nat {
    if s == [] then 0 else s[0] + 256 * LittleEndian(s[1..])
  }

  function PutLittle(v: nat, w: nat): (r: bytes)
    ensures |r| == w
  {
    if w == 0 then [] else [v % 256] + PutLittle(v / 256, w - 1)
  }

  lemma {:induction false} LittleEndianOfPut(v: nat, w: nat)
    requires v < Pow256(w)
    ensures LittleEndian(PutLittle(v, w)) == v
  {
    if w > 0 {
      assert v / 256 < Pow256(w - 1);
      LittleEndianOfPut(v / 256, w - 1);
      assert PutLittle(v, w)[1..] == PutLittle(v / 256, w - 1);
    }
  }

  /** Four bytes, the last or the first one the lowest. */
  lemma FourBytes(b: bytes)
    requires |b| == 4
    ensures BigEndian(b) == b[3] as int + 0x100 * (b[2] as int) + 0x1_0000 * (b[1] as int) + 0x100_0000 * (b[0] as int)
    ensures LittleEndian(b) == b[0] as int + 0x100 * (b[1] as int) + 0x1_0000 * (b[2] as int) + 0x100_0000 * (b[3] as int)
  {
    assert b[..3][..2] == b[..2] && b[..2][..1] == b[..1] && b[..1][..0] == [];
    assert BigEndian(b[..1]) == b[0];
    assert BigEndian(b[..2]) == 256 * (b[0] as int) + b[1] as int;
    assert BigEndian(b[..3]) == 256 * BigEndian(b[..2]) + b[2];
    assert b[1..][1..] == b[2..] && b[2..][1..] == b[3..] && b[3..][1..] == [];
    assert LittleEndian(b[3..]) == b[3];
    assert LittleEndian(b[2..]) == b[2] as int + 256 * (b[3] as int);
    assert LittleEndian(b[1..]) == b[1] as int + 256 * LittleEndian(b[2..]);
  }
}
