/** The hand-written encoders of biz/model/fast_bencode.go: with their hard-coded key order and
    lengths they write what the canonical encoder makes of the fields. */
module FastBencode {
  import opened Bytes
  import opened Bencode
  import opened Writers

  datatype AnnounceCompactResponse = AnnounceCompactResponse(
    interval: int, peers: bytes, peers6: bytes, externalIp: bytes, trackerId: bytes, complete: int, incomplete: int)

  datatype ErrorResponse = ErrorResponse(failureReason: bytes, retry: bytes, trackerId: bytes)

  const COMPLETE: bytes := Ascii("complete")
  const EXTERNAL_IP: bytes := Ascii("external ip")
  const INCOMPLETE: bytes := Ascii("incomplete")
  const INTERVAL: bytes := Ascii("interval")
  const PEERS: bytes := Ascii("peers")
  const PEERS6: bytes := Ascii("peers6")
  const TRACKER_ID: bytes := Ascii("tracker id")
  const FAILURE_REASON: bytes := Ascii("failure reason")
  const RETRY_IN: bytes := Ascii("retry in")

  /** A field that is left out when empty. */
  function OmitEmpty(key: bytes, s: bytes): Fields {
    if s == [] then map[] else map[key := Str(s)]
  }

  /** The fields by their struct tags (biz/model/http.go): only peers6 is omitted when empty. */
  function Tagged(a: AnnounceCompactResponse): Fields {
    Required(a) + OmitEmpty(PEERS6, a.peers6) + map[TRACKER_ID := Str(a.trackerId)]
  }

  /** The fields the fast encoder writes: an empty tracker id is omitted as well. */
  function Written(a: AnnounceCompactResponse): Fields {
    Required(a) + OmitEmpty(PEERS6, a.peers6) + OmitEmpty(TRACKER_ID, a.trackerId)
  }

  function Required(a: AnnounceCompactResponse): Fields {
    map[COMPLETE := Int(a.complete), EXTERNAL_IP := Str(a.externalIp), INCOMPLETE := Int(a.incomplete),
        INTERVAL := Int(a.interval), PEERS := Str(a.peers)]
  }

  lemma OmittedOrAdded(m: Fields, key: bytes, s: bytes)
    ensures m + OmitEmpty(key, s) == if |s| > 0 then m[key := Str(s)] else m
  {
  }

  function TaggedError(e: ErrorResponse): Fields {
    map[FAILURE_REASON := Str(e.failureReason), RETRY_IN := Str(e.retry)] + map[TRACKER_ID := Str(e.trackerId)]
  }

  function WrittenError(e: ErrorResponse): Fields {
    map[FAILURE_REASON := Str(e.failureReason), RETRY_IN := Str(e.retry)] + OmitEmpty(TRACKER_ID, e.trackerId)
  }

  // ---------- Key order ----------

  lemma {:induction false} CommonPrefix(p: bytes, a: bytes, b: bytes)
    requires Leq(a, b)
    ensures Leq(p + a, p + b)
  {
    if p == [] {
      assert p + a == a && p + b == b;
    } else {
      CommonPrefix(p[1..], a, b);
      assert (p + a)[1..] == p[1..] + a && (p + b)[1..] == p[1..] + b;
    }
  }

  lemma SplitOrder(p: string, a: string, b: string)
    requires Leq(Ascii(a), Ascii(b)) && a != b && Ascii(a) != Ascii(b)
    ensures Less(Ascii(p + a), Ascii(p + b))
  {
    CommonPrefix(Ascii(p), Ascii(a), Ascii(b));
    assert Ascii(p + a) == Ascii(p) + Ascii(a) && Ascii(p + b) == Ascii(p) + Ascii(b);
    assert Ascii(p + a)[|p|..] == Ascii(a) && Ascii(p + b)[|p|..] == Ascii(b);
  }

  lemma FirstByte(a: string, b: string)
    requires |a| > 0 && |b| > 0 && a[0] < b[0] < 128 as char
    ensures Less(Ascii(a), Ascii(b))
  {
    assert Ascii(a)[0] < Ascii(b)[0];
  }

  lemma KeyOrder()
    ensures Less([], COMPLETE) && Less(COMPLETE, EXTERNAL_IP) && Less(EXTERNAL_IP, INCOMPLETE) && Less(INCOMPLETE, INTERVAL)
    ensures Less(INTERVAL, PEERS) && Less(PEERS, PEERS6) && Less(PEERS, TRACKER_ID) && Less(PEERS6, TRACKER_ID)
    ensures Less([], FAILURE_REASON) && Less(FAILURE_REASON, RETRY_IN) && Less(RETRY_IN, TRACKER_ID)
  {
    FirstByte("complete", "external ip");
    FirstByte("external ip", "incomplete");
    FirstByte("complete", "terval");
    SplitOrder("in", "complete", "terval");
    assert "in" + "complete" == "incomplete" && "in" + "terval" == "interval";
    FirstByte("interval", "peers");
    SplitOrder("peers", "", "6");
    assert "peers" + "" == "peers" && "peers" + "6" == "peers6";
    FirstByte("peers", "tracker id");
    FirstByte("peers6", "tracker id");
    FirstByte("failure reason", "retry in");
    FirstByte("retry in", "tracker id");
  }

  // ---------- Writing ----------

  method WriteString(w: Writer, s: bytes)
    modifies w
    ensures w.written == old(w.written) + Encode(Str(s))
  {
    w.Write(Itoa(|s|));
    w.Write(Ascii(":"));
    w.Write(s);
  }

  method WriteInt(w: Writer, i: int)
    modifies w
    ensures w.written == old(w.written) + Encode(Int(i))
  {
    w.Write(Ascii("i"));
    w.Write(Itoa(i));
    w.Write(Ascii("e"));
  }

  lemma AsciiAppend(a: string, b: string)
    ensures Ascii(a + b) == Ascii(a) + Ascii(b)
  {
  }

  lemma Join(n: bytes, key: bytes)
    requires n == Digits(|key|)
    ensures n + [COLON] + key == EncodeString(key)
  {
  }

  /** A literal that is a length, a colon and a key is that key encoded. */
  lemma Literal(n: string, key: string)
    requires Ascii(n) == Digits(|key|)
    ensures Ascii(n + ":" + key) == EncodeString(Ascii(key))
  {
    Join(Ascii(n), Ascii(key));
    AsciiAppend(n + ":", key);
    AsciiAppend(n, ":");
    Colon();
  }

  lemma Colon()
    ensures Ascii(":") == [COLON] && Ascii("e") == [E] && Ascii("i") == [I] && Ascii("d") == [D]
  {
  }

  lemma FirstLiteral(n: string, key: string)
    requires Ascii(n) == Digits(|key|)
    ensures Ascii("d" + (n + ":" + key)) == [D] + EncodeString(Ascii(key))
  {
    Literal(n, key);
    AsciiAppend("d", n + ":" + key);
    Colon();
  }

  lemma AnnounceLiterals()
    ensures Ascii("d8:complete") == [D] + EncodeString(COMPLETE)
    ensures Ascii("11:external ip") == EncodeString(EXTERNAL_IP)
    ensures Ascii("10:incomplete") == EncodeString(INCOMPLETE)
    ensures Ascii("8:interval") == EncodeString(INTERVAL)
    ensures Ascii("5:peers") == EncodeString(PEERS)
    ensures Ascii("6:peers6") == EncodeString(PEERS6)
  {
    OneDigit("5", 5); OneDigit("6", 6); OneDigit("8", 8);
    TwoDigits("10", 10); TwoDigits("11", 11);
    FirstLiteral("8", "complete");
    Literal("11", "external ip");
    Literal("10", "incomplete");
    Literal("8", "interval");
    Literal("5", "peers");
    Literal("6", "peers6");
  }

  lemma ErrorLiterals()
    ensures Ascii("d14:failure reason") == [D] + EncodeString(FAILURE_REASON)
    ensures Ascii("8:retry in") == EncodeString(RETRY_IN)
    ensures Ascii("10:tracker id") == EncodeString(TRACKER_ID)
  {
    OneDigit("8", 8);
    TwoDigits("10", 10); TwoDigits("14", 14);
    FirstLiteral("14", "failure reason");
    Literal("8", "retry in");
    Literal("10", "tracker id");
  }

  lemma OneDigit(s: string, n: nat)
    requires n < 10 && |s| == 1 && s[0] as int == ZERO + n
    ensures Ascii(s) == Digits(n)
  {
  }

  lemma TwoDigits(s: string, n: nat)
    requires 10 <= n < 100 && |s| == 2 && s[0] as int == ZERO + n / 10 && s[1] as int == ZERO + n % 10
    ensures Ascii(s) == Digits(n)
  {
    assert Digits(n / 10) == [ZERO + n / 10];
  }

  /** What has been written so far is the beginning of a dictionary of these fields. */
  ghost predicate Begun(out: bytes, was: bytes, m: Fields, last: bytes) {
    out == was + Opening(m) && NoneBeyond(m, last)
  }

  lemma Begin(was: bytes)
    ensures Begun(was + [D], was, map[], [])
  {
    assert Opening(map[]) == [D];
  }

  lemma FieldWritten(out: bytes, was: bytes, m: Fields, last: bytes, key: bytes, v: Value)
    requires Begun(out, was, m, last) && Less(last, key)
    ensures Begun(out + EncodeString(key) + Encode(v), was, m[key := v], key)
  {
    OpeningGrows(m, last, key, v);
    Regroup(was, Opening(m), EncodeString(key), Encode(v));
  }

  lemma Finish(out: bytes, was: bytes, m: Fields, last: bytes)
    requires Begun(out, was, m, last)
    ensures out + Ascii("e") == was + Encode(Dictionary(m))
  {
    assert Ascii("e") == [E];
  }

  lemma FirstWritten(was: bytes, key: bytes, v: Value)
    requires Less([], key)
    ensures Begun(was + ([D] + EncodeString(key)) + Encode(v), was, map[key := v], key)
  {
    Begin(was);
    FieldWritten(was + [D], was, map[], [], key, v);
    assert was + ([D] + EncodeString(key)) == was + [D] + EncodeString(key);
  }

  lemma RequiredWritten(was: bytes, a: AnnounceCompactResponse)
    ensures Begun(
      was + ([D] + EncodeString(COMPLETE)) + Encode(Int(a.complete))
      + EncodeString(EXTERNAL_IP) + Encode(Str(a.externalIp)) + EncodeString(INCOMPLETE) + Encode(Int(a.incomplete))
      + EncodeString(INTERVAL) + Encode(Int(a.interval)) + EncodeString(PEERS) + Encode(Str(a.peers)),
      was, Required(a), PEERS)
  {
    KeyOrder();
    FiveWritten(was, COMPLETE, Int(a.complete), EXTERNAL_IP, Str(a.externalIp), INCOMPLETE, Int(a.incomplete),
      INTERVAL, Int(a.interval), PEERS, Str(a.peers));
  }

  lemma FiveWritten(was: bytes, k1: bytes, v1: Value, k2: bytes, v2: Value, k3: bytes, v3: Value, k4: bytes, v4: Value, k5: bytes, v5: Value)
    requires Less([], k1) && Less(k1, k2) && Less(k2, k3) && Less(k3, k4) && Less(k4, k5)
    ensures Begun(
      was + ([D] + EncodeString(k1)) + Encode(v1) + EncodeString(k2) + Encode(v2) + EncodeString(k3) + Encode(v3)
      + EncodeString(k4) + Encode(v4) + EncodeString(k5) + Encode(v5),
      was, map[k1 := v1, k2 := v2, k3 := v3, k4 := v4, k5 := v5], k5)
  {
    FirstWritten(was, k1, v1);
    var out := was + ([D] + EncodeString(k1)) + Encode(v1);
    FieldWritten(out, was, map[k1 := v1], k1, k2, v2);
    out := out + EncodeString(k2) + Encode(v2);
    FieldWritten(out, was, map[k1 := v1, k2 := v2], k2, k3, v3);
    out := out + EncodeString(k3) + Encode(v3);
    FieldWritten(out, was, map[k1 := v1, k2 := v2, k3 := v3], k3, k4, v4);
    out := out + EncodeString(k4) + Encode(v4);
    FieldWritten(out, was, map[k1 := v1, k2 := v2, k3 := v3, k4 := v4], k4, k5, v5);
  }

  /** One message is one canonical dictionary, appended. */
  method AnnounceBencode(a: AnnounceCompactResponse, w: Writer)
    modifies w
    ensures w.written == old(w.written) + Encode(Dictionary(Written(a)))
  {
    ghost var was := w.written;
    AnnounceLiterals();
    ErrorLiterals();
    w.Write(Ascii("d8:complete"));
    WriteInt(w, a.complete);
    w.Write(Ascii("11:external ip"));
    WriteString(w, a.externalIp);
    w.Write(Ascii("10:incomplete"));
    WriteInt(w, a.incomplete);
    w.Write(Ascii("8:interval"));
    WriteInt(w, a.interval);
    w.Write(Ascii("5:peers"));
    WriteString(w, a.peers);
    RequiredWritten(was, a);
    ghost var m, last := Required(a), PEERS;
    KeyOrder();
    OmittedOrAdded(m, PEERS6, a.peers6);
    if |a.peers6| > 0 {
      FieldWritten(w.written, was, m, last, PEERS6, Str(a.peers6));
      w.Write(Ascii("6:peers6"));
      WriteString(w, a.peers6);
      m, last := m[PEERS6 := Str(a.peers6)], PEERS6;
    }
    OmittedOrAdded(m, TRACKER_ID, a.trackerId);
    if |a.trackerId| > 0 {
      FieldWritten(w.written, was, m, last, TRACKER_ID, Str(a.trackerId));
      w.Write(Ascii("10:tracker id"));
      WriteString(w, a.trackerId);
      m, last := m[TRACKER_ID := Str(a.trackerId)], TRACKER_ID;
    }
    Finish(w.written, was, m, last);
    w.Write(Ascii("e"));
  }

  method ErrorBencode(e: ErrorResponse, w: Writer)
    modifies w
    ensures w.written == old(w.written) + Encode(Dictionary(WrittenError(e)))
  {
    ghost var was := w.written;
    ErrorLiterals();
    KeyOrder();
    FirstWritten(was, FAILURE_REASON, Str(e.failureReason));
    w.Write(Ascii("d14:failure reason"));
    WriteString(w, e.failureReason);
    ghost var m, last := map[FAILURE_REASON := Str(e.failureReason)], FAILURE_REASON;
    FieldWritten(w.written, was, m, last, RETRY_IN, Str(e.retry));
    w.Write(Ascii("8:retry in"));
    WriteString(w, e.retry);
    m, last := m[RETRY_IN := Str(e.retry)], RETRY_IN;
    OmittedOrAdded(m, TRACKER_ID, e.trackerId);
    if |e.trackerId| > 0 {
      FieldWritten(w.written, was, m, last, TRACKER_ID, Str(e.trackerId));
      w.Write(Ascii("10:tracker id"));
      WriteString(w, e.trackerId);
      m, last := m[TRACKER_ID := Str(e.trackerId)], TRACKER_ID;
    }
    Finish(w.written, was, m, last);
    w.Write(Ascii("e"));
  }

  // ---------- Reading back ----------

  function IntIn(entries: seq<Entry>, key: bytes): int {
    match FieldIn(entries, key)
    case Some(Int(i)) => i
    case _ => 0
  }

  function StringIn(entries: seq<Entry>, key: bytes): bytes {
    match FieldIn(entries, key)
    case Some(Str(s)) => s
    case _ => []
  }

  /** A client: absent fields read as empty. */
  function ReadAnnounce(es: seq<Entry>): AnnounceCompactResponse {
    AnnounceCompactResponse(IntIn(es, INTERVAL), StringIn(es, PEERS), StringIn(es, PEERS6), StringIn(es, EXTERNAL_IP),
      StringIn(es, TRACKER_ID), IntIn(es, COMPLETE), IntIn(es, INCOMPLETE))
  }

  function ReadError(es: seq<Entry>): ErrorResponse {
    ErrorResponse(StringIn(es, FAILURE_REASON), StringIn(es, RETRY_IN), StringIn(es, TRACKER_ID))
  }

  lemma KeysDiffer()
    ensures COMPLETE != EXTERNAL_IP && COMPLETE != INCOMPLETE && COMPLETE != INTERVAL && COMPLETE != PEERS
    ensures EXTERNAL_IP != INCOMPLETE && EXTERNAL_IP != INTERVAL && EXTERNAL_IP != PEERS
    ensures INCOMPLETE != INTERVAL && INCOMPLETE != PEERS && INTERVAL != PEERS
    ensures PEERS6 !in [COMPLETE, EXTERNAL_IP, INCOMPLETE, INTERVAL, PEERS]
    ensures TRACKER_ID !in [COMPLETE, EXTERNAL_IP, INCOMPLETE, INTERVAL, PEERS, PEERS6]
    ensures FAILURE_REASON != RETRY_IN && TRACKER_ID !in [FAILURE_REASON, RETRY_IN]
  {
    assert COMPLETE[0] == 99 && INTERVAL[0] == 105 && INCOMPLETE[0] == 105 && TRACKER_ID[0] == 116;
  }

  lemma GetRequired(k0: bytes, v0: Value, k1: bytes, v1: Value, k2: bytes, v2: Value, k3: bytes, v3: Value, k4: bytes, v4: Value)
    requires k0 != k1 && k0 != k2 && k0 != k3 && k0 != k4 && k1 != k2 && k1 != k3 && k1 != k4 && k2 != k3 && k2 != k4 && k3 != k4
    ensures var m := map[k0 := v0, k1 := v1, k2 := v2, k3 := v3, k4 := v4];
      && Get(m, k0) == Some(v0) && Get(m, k1) == Some(v1) && Get(m, k2) == Some(v2) && Get(m, k3) == Some(v3) && Get(m, k4) == Some(v4)
      && forall k :: k !in [k0, k1, k2, k3, k4] ==> k !in m
  {
  }

  lemma GetOmitted(m: Fields, key: bytes, s: bytes)
    requires key !in m
    ensures forall k :: Get(m + OmitEmpty(key, s), k) == if k == key && s != [] then Some(Str(s)) else Get(m, k)
  {
  }

  lemma WrittenFields(a: AnnounceCompactResponse)
    ensures Flat(Written(a)) && Flat(Tagged(a))
    ensures var m := Written(a);
      && Get(m, COMPLETE) == Some(Int(a.complete)) && Get(m, EXTERNAL_IP) == Some(Str(a.externalIp))
      && Get(m, INCOMPLETE) == Some(Int(a.incomplete)) && Get(m, INTERVAL) == Some(Int(a.interval))
      && Get(m, PEERS) == Some(Str(a.peers))
      && Get(m, PEERS6) == (if a.peers6 != [] then Some(Str(a.peers6)) else None)
      && Get(m, TRACKER_ID) == (if a.trackerId != [] then Some(Str(a.trackerId)) else None)
  {
    KeysDiffer();
    GetRequired(COMPLETE, Int(a.complete), EXTERNAL_IP, Str(a.externalIp), INCOMPLETE, Int(a.incomplete),
      INTERVAL, Int(a.interval), PEERS, Str(a.peers));
    GetOmitted(Required(a), PEERS6, a.peers6);
    GetOmitted(Required(a) + OmitEmpty(PEERS6, a.peers6), TRACKER_ID, a.trackerId);
  }

  /** What the fast encoder writes is one dictionary that reads back to the very response, whatever
      its strings and numbers. */
  lemma AnnounceBack(a: AnnounceCompactResponse)
    ensures var read := WholeDictionary(Encode(Dictionary(Written(a))));
      read.Some? && ReadAnnounce(read.value) == a
  {
    WrittenFields(a);
    TextHolds(Written(a));
    ReadBack(WholeDictionary(Encode(Dictionary(Written(a)))).value, Written(a), a);
  }

  lemma ReadBack(es: seq<Entry>, m: Fields, a: AnnounceCompactResponse)
    requires forall k :: FieldIn(es, k) == Get(m, k)
    requires
      && Get(m, COMPLETE) == Some(Int(a.complete)) && Get(m, EXTERNAL_IP) == Some(Str(a.externalIp))
      && Get(m, INCOMPLETE) == Some(Int(a.incomplete)) && Get(m, INTERVAL) == Some(Int(a.interval))
      && Get(m, PEERS) == Some(Str(a.peers))
      && Get(m, PEERS6) == (if a.peers6 != [] then Some(Str(a.peers6)) else None)
      && Get(m, TRACKER_ID) == (if a.trackerId != [] then Some(Str(a.trackerId)) else None)
    ensures ReadAnnounce(es) == a
  {
  }

  /** The fast encoder agrees with the canonical one on the tagged fields exactly when there is a
      tracker id: it drops an empty one, which the tags keep. */
  lemma FastIsCanonicalIff(a: AnnounceCompactResponse)
    ensures Encode(Dictionary(Written(a))) == Encode(Dictionary(Tagged(a))) <==> a.trackerId != []
  {
    if a.trackerId == [] {
      WrittenFields(a);
      TextsDiffer(Written(a), Tagged(a), TRACKER_ID);
    }
  }

  lemma WrittenErrorFields(e: ErrorResponse)
    ensures Flat(WrittenError(e)) && Flat(TaggedError(e))
    ensures var m := WrittenError(e);
      && Get(m, FAILURE_REASON) == Some(Str(e.failureReason)) && Get(m, RETRY_IN) == Some(Str(e.retry))
      && Get(m, TRACKER_ID) == (if e.trackerId != [] then Some(Str(e.trackerId)) else None)
  {
    KeysDiffer();
    GetOmitted(map[FAILURE_REASON := Str(e.failureReason), RETRY_IN := Str(e.retry)], TRACKER_ID, e.trackerId);
  }

  lemma ErrorBack(e: ErrorResponse)
    ensures var read := WholeDictionary(Encode(Dictionary(WrittenError(e))));
      read.Some? && ReadError(read.value) == e
  {
    WrittenErrorFields(e);
    TextHolds(WrittenError(e));
  }

  lemma FastErrorIsCanonicalIff(e: ErrorResponse)
    ensures Encode(Dictionary(WrittenError(e))) == Encode(Dictionary(TaggedError(e))) <==> e.trackerId != []
  {
    if e.trackerId == [] {
      WrittenErrorFields(e);
      TextsDiffer(WrittenError(e), TaggedError(e), TRACKER_ID);
    }
  }
}
