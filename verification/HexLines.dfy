/** The append file of a ban list: one line of hex per target, read back by bufio.Scanner with its
    limit on the length of a line (biz/services/peer/mux_local/ban/item.go). */
module HexLines {
  import opened Bytes

  const NEWLINE: byte := 10
  const RETURN: byte := 13

  // ---------- Hex ----------

  function HexDigit(n: int): (b: byte)
    requires 0 <= n < 16
    ensures HexValue(b) == Some(n) && b >= 48
  {
    if n < 10 then 48 + n else 87 + n
  }

  function HexValue(b: byte): (n: Option<int>)
    ensures n.Some? ==> 0 <= n.value < 16
  {
    if 48 <= b < 58 then Some(b - 48)
    else if 97 <= b < 103 then Some(b - 87)
    else if 65 <= b < 71 then Some(b - 55)
    else None
  }

  function HexEncode(s: bytes): (r: bytes)
    ensures |r| == 2 * |s| && forall i :: 0 <= i < |r| ==> r[i] >= 48
  {
    if s == [] then [] else [HexDigit(s[0] / 16), HexDigit(s[0] % 16)] + HexEncode(s[1..])
  }

  function HexDecode(s: bytes): Option<bytes> {
    if s == [] then Some([])
    else if |s| == 1 then None
    else
      var high, low, rest := HexValue(s[0]), HexValue(s[1]), HexDecode(s[2..]);
      if high.None? || low.None? || rest.None? then None
      else Some([16 * high.value + low.value] + rest.value)
  }

  lemma {:induction false} HexRoundTrip(s: bytes)
    ensures HexDecode(HexEncode(s)) == Some(s)
  {
    if s != [] {
      HexRoundTrip(s[1..]);
      assert HexEncode(s)[2..] == HexEncode(s[1..]);
      assert s == [s[0]] + s[1..];
    }
  }

  // ---------- Lines ----------

  /** bufio.MaxScanTokenSize. */
  const MAX_TOKEN: nat := 65536

  datatype Token = Line(text: bytes, rest: bytes) | TooLong | End

  function IndexOf(s: bytes, b: byte): (i: nat)
    ensures i <= |s|
  {
    if s == [] || s[0] == b then 0 else 1 + IndexOf(s[1..], b)
  }

  function DropReturn(s: bytes): bytes {
    if s != [] && s[|s| - 1] == RETURN then s[..|s| - 1] else s
  }

  /** One Scan with the default buffer: a line must end, newline included, within the buffer. */
  function NextLine(s: bytes): (t: Token)
    ensures t.Line? ==> |t.rest| < |s|
  {
    var i := IndexOf(s, NEWLINE);
    if s == [] then End
    else if i >= MAX_TOKEN then TooLong
    else if i < |s| then Line(DropReturn(s[..i]), s[i + 1..])
    else Line(DropReturn(s), [])
  }

  const KEY_LENGTH: nat := 20

  datatype Scanned = Scanned(keys: seq<bytes>, failed: bool)

  /** What a scan of the file yields: its keys up to a line that is not hex or is too long, other
      lengths skipped. Only a line that is too long is a failure. */
  function Scan(file: bytes): Scanned
    decreases |file|
  {
    match NextLine(file)
    case End => Scanned([], false)
    case TooLong => Scanned([], true)
    case Line(text, rest) =>
      match HexDecode(text)
      case None => Scanned([], false)
      case Some(key) =>
        var after := Scan(rest);
        if |key| == KEY_LENGTH then Scanned([key] + after.keys, after.failed) else after
  }

  function LineOf(target: bytes): bytes {
    HexEncode(target) + [NEWLINE]
  }

  /** The file after these targets have been added. */
  function FileOf(targets: seq<bytes>): bytes {
    if targets == [] then [] else LineOf(targets[0]) + FileOf(targets[1..])
  }

  lemma {:induction false} FileGrows(targets: seq<bytes>, target: bytes)
    ensures FileOf(targets + [target]) == FileOf(targets) + LineOf(target)
  {
    if targets == [] {
      assert targets + [target] == [target];
    } else {
      assert (targets + [target])[1..] == targets[1..] + [target];
      FileGrows(targets[1..], target);
    }
  }

  /** Its hex and the newline fill at most one scan buffer. */
  predicate Short(target: bytes) {
    2 * |target| < MAX_TOKEN
  }

  /** The targets in front of the first whose line is too long. */
  function Readable(targets: seq<bytes>): (r: seq<bytes>)
    ensures r <= targets
  {
    if targets == [] || !Short(targets[0]) then [] else [targets[0]] + Readable(targets[1..])
  }

  function Keys(targets: seq<bytes>): (ks: seq<bytes>)
    ensures |ks| <= |targets| && forall k :: k in ks <==> k in targets && |k| == KEY_LENGTH
  {
    if targets == [] then []
    else if |targets[0]| == KEY_LENGTH then [targets[0]] + Keys(targets[1..])
    else Keys(targets[1..])
  }

  lemma {:induction false} NewlineAt(a: bytes, rest: bytes)
    requires forall i :: 0 <= i < |a| ==> a[i] >= 48
    ensures IndexOf(a + [NEWLINE] + rest, NEWLINE) == |a|
  {
    var s := a + [NEWLINE] + rest;
    if a != [] {
      assert s[1..] == a[1..] + [NEWLINE] + rest;
      NewlineAt(a[1..], rest);
    }
  }

  lemma FirstLine(target: bytes, rest: bytes)
    ensures NextLine(LineOf(target) + rest) == if Short(target) then Line(HexEncode(target), rest) else TooLong
  {
    NewlineAt(HexEncode(target), rest);
    var s := LineOf(target) + rest;
    assert s == HexEncode(target) + [NEWLINE] + rest;
    assert s[..|HexEncode(target)|] == HexEncode(target);
    assert s[|HexEncode(target)| + 1..] == rest;
  }

  /** Exactly the keys before the first overlong line come back, and the scan fails exactly when
      there is such a line. */
  lemma {:induction false} ScanOfFile(targets: seq<bytes>)
    ensures Scan(FileOf(targets)) == Scanned(Keys(Readable(targets)), Readable(targets) != targets)
  {
    if targets != [] {
      var target, rest := targets[0], targets[1..];
      FirstLine(target, FileOf(rest));
      if Short(target) {
        HexRoundTrip(target);
        ScanOfFile(rest);
        assert Readable(targets)[1..] == Readable(rest);
        assert targets == [target] + rest;
        assert Readable(rest) == rest <==> Readable(targets) == targets;
      }
    }
  }

  ghost function KeySet(file: bytes): set<bytes> {
    set k | k in Scan(file).keys
  }

  lemma KeySetOfFile(targets: seq<bytes>)
    ensures forall t :: t in KeySet(FileOf(targets)) <==> t in Readable(targets) && |t| == KEY_LENGTH
  {
    ScanOfFile(targets);
  }

  lemma {:induction false} ReadableSplit(targets: seq<bytes>, e: nat, t: bytes)
    requires e <= |targets| && t in Readable(targets)
    ensures t in Readable(targets[..e]) || t in targets[e..]
  {
    if e > 0 {
      assert targets[..e][1..] == targets[1..][..e - 1] && targets[1..][e - 1..] == targets[e..];
      if t != targets[0] { ReadableSplit(targets[1..], e - 1, t); }
    }
  }

  /** Reading the file back loses no key that was added exactly when each stands, at least once,
      before the first target that is too long. */
  lemma KeysSurviveIff(targets: seq<bytes>)
    ensures (forall t :: t in targets && |t| == KEY_LENGTH ==> t in Scan(FileOf(targets)).keys) <==>
            (forall t :: t in targets && |t| == KEY_LENGTH ==> t in Readable(targets))
  {
    ScanOfFile(targets);
  }

  lemma {:induction false} AllShortReadable(targets: seq<bytes>)
    ensures Readable(targets) == targets <==> forall t :: t in targets ==> Short(t)
  {
    if targets != [] {
      AllShortReadable(targets[1..]);
      assert targets == [targets[0]] + targets[1..];
      assert Readable(targets) == targets ==> Readable(targets)[1..] == targets[1..];
    }
  }

  /** A target of more than 32767 bytes in front of a key makes the key unreadable, a shorter one does
      not. */
  lemma LongestLine(target: bytes, key: bytes)
    requires |key| == 20
    ensures Scan(FileOf([target, key])).keys ==
      if |target| > 32767 then [] else if |target| == 20 then [target, key] else [key]
    ensures Scan(FileOf([target, key])).failed <==> |target| > 32767
  {
    ScanOfFile([target, key]);
    assert [target, key][1..] == [key] && [key][1..] == [];
    assert Readable([key]) == [key] && Keys([key]) == [key];
    if |target| <= 32767 {
      assert Readable([target, key]) == [target, key];
    }
  }

  /** One target of 32768 bytes in front of a key makes the key unreadable. */
  lemma OverlongLosesKeys()
    ensures var long, key := seq(32768, _ => 0), seq(KEY_LENGTH, _ => 7);
      Scan(FileOf([long, key])).keys == [] && Scan(FileOf([key])).keys == [key]
  {
    var long, key := seq(32768, _ => 0), seq(KEY_LENGTH, _ => 7);
    LongestLine(long, key);
    ScanOfFile([key]);
    assert Readable([key]) == [key] && Keys([key]) == [key];
  }

  // ---------- Lines nobody wrote ----------

  /** A line of other text: carriage return and newline end it, upper-case hex is read as well, and
      what is not hex ends the scan without a failure. */
  lemma ForeignLine(text: bytes, rest: bytes)
    requires |text| < 65536 && forall i :: 0 <= i < |text| ==> text[i] >= 48
    ensures var found, after := HexDecode(text), Scan(rest);
      Scan(text + [10] + rest) ==
        if found.None? then Scanned([], false)
        else if |found.value| == 20 then Scanned([found.value] + after.keys, after.failed) else after
  {
    NewlineAt(text, rest);
    var s := text + [NEWLINE] + rest;
    assert s[..|text|] == text && s[|text| + 1..] == rest;
  }

  lemma ReturnDropped(text: bytes, rest: bytes)
    requires |text| < 65535 && forall i :: 0 <= i < |text| ==> text[i] >= 48
    ensures NextLine(text + [13, 10] + rest) == Line(text, rest)
  {
    var s := text + [13, 10] + rest;
    ReturnAt(text, rest);
    assert s[..|text| + 1] == text + [13] && s[|text| + 2..] == rest;
    assert (text + [13])[..|text|] == text;
  }

  lemma {:induction false} ReturnAt(text: bytes, rest: bytes)
    requires forall i :: 0 <= i < |text| ==> text[i] >= 48
    ensures IndexOf(text + [13, 10] + rest, 10) == |text| + 1
  {
    var s := text + [13, 10] + rest;
    if text == [] {
      assert s[1..][0] == 10;
    } else {
      assert s[1..] == text[1..] + [13, 10] + rest;
      ReturnAt(text[1..], rest);
    }
  }

  // ---------- The digits ----------

  lemma HexDigits(n: int, b: byte)
    requires 0 <= n < 16
    ensures HexDigit(n) as char == "0123456789abcdef"[n]
    ensures HexValue(b) == Some(n) <==> b as char == "0123456789abcdef"[n] || b as char == "0123456789ABCDEF"[n]
  {
  }

  /** The high half of a byte comes first. */
  lemma {:induction false} HexAt(s: bytes, i: nat)
    requires i < |s|
    ensures HexEncode(s)[2 * i] == HexDigit(s[i] / 16) && HexEncode(s)[2 * i + 1] == HexDigit(s[i] % 16)
  {
    if i > 0 {
      HexAt(s[1..], i - 1);
    }
  }
}
