/** The record format of the persistence files: what a file says, for any bytes at all, and what
    a written file says when it is cut off anywhere. */
module Frames {
  import opened Bytes
  import opened Adaptor

  /** trunker.Store. */
  datatype StoreRecord = StoreRecord(infoHash: bytes, peer: IdlPeer)

  /** frugal followed by zstd, as a pair of functions; decoding may fail. */
  datatype Codec = Codec(encode: StoreRecord -> bytes, decode: bytes -> Option<StoreRecord>)

  /** The pooled read buffers: the buffer pool rounds a request for 400 bytes up to 512. */
  const BUFFER_CAP: nat := 512

  datatype Status = EndOfFile | ZeroLength | ReadFailed | DecodeFailed | Panicked

  datatype Loaded = Loaded(records: seq<StoreRecord>, status: Status)

  /** What loading makes of a file: records up to the first obstacle. A length beyond the buffer
      capacity panics when the buffer is resliced, before anything is read. */
  function Parse(decode: bytes -> Option<StoreRecord>, file: bytes): Loaded {
    if |file| < 4 then Loaded([], EndOfFile) else
      var size := LittleEndian(file[..4]);
      if size == 0 then Loaded([], ZeroLength)
      else if size > BUFFER_CAP then Loaded([], Panicked)
      else if 4 + size > |file| then Loaded([], ReadFailed)
      else
        match decode(file[4..4 + size])
        case None => Loaded([], DecodeFailed)
        case Some(record) =>
          var rest := Parse(decode, file[4 + size..]);
          Loaded([record] + rest.records, rest.status)
  }

  function Frame(codec: Codec, record: StoreRecord): (f: bytes)
    ensures |f| == 4 + |codec.encode(record)|
  {
    PutLittle(|codec.encode(record)|, 4) + codec.encode(record)
  }

  function FileOf(codec: Codec, records: seq<StoreRecord>): bytes {
    if records == [] then [] else Frame(codec, records[0]) + FileOf(codec, records[1..])
  }

  /** Small enough for the buffers, and decoded back. */
  predicate Fits(codec: Codec, record: StoreRecord) {
    1 <= |codec.encode(record)| <= BUFFER_CAP && codec.decode(codec.encode(record)) == Some(record)
  }

  /** How many records lie wholly before position t of the written file. */
  function WhollyBefore(codec: Codec, records: seq<StoreRecord>, t: nat): (k: nat)
    ensures k <= |records|
  {
    if records == [] || |Frame(codec, records[0])| > t then 0
    else 1 + WhollyBefore(codec, records[1..], t - |Frame(codec, records[0])|)
  }

  /** One written frame in front of anything: the record, then the rest. */
  lemma ParseFrame(codec: Codec, record: StoreRecord, rest: bytes)
    requires 1 <= |codec.encode(record)| <= BUFFER_CAP
    ensures Parse(codec.decode, Frame(codec, record) + rest) ==
      match codec.decode(codec.encode(record))
      case None => Loaded([], DecodeFailed)
      case Some(r) => Loaded([r] + Parse(codec.decode, rest).records, Parse(codec.decode, rest).status)
  {
    var payload := codec.encode(record);
    var file := Frame(codec, record) + rest;
    assert file[..4] == PutLittle(|payload|, 4);
    assert Pow256(4) == 0x1_0000_0000;
    LittleEndianOfPut(|payload|, 4);
    assert file[4..4 + |payload|] == payload;
    assert file[4 + |payload|..] == rest;
  }

  /** A frame cut short yields nothing, never a corrupted record. */
  lemma ParseCutFrame(codec: Codec, record: StoreRecord, t: nat)
    requires 1 <= |codec.encode(record)| <= BUFFER_CAP && t < |Frame(codec, record)|
    ensures Parse(codec.decode, Frame(codec, record)[..t]) == Loaded([], if t < 4 then EndOfFile else ReadFailed)
  {
    if t >= 4 {
      var payload := codec.encode(record);
      assert Frame(codec, record)[..t][..4] == PutLittle(|payload|, 4);
      assert Pow256(4) == 0x1_0000_0000;
      LittleEndianOfPut(|payload|, 4);
    }
  }

  /** Whatever the point where the written file ends, exactly the records wholly before it are
      loaded, and the load ends by end of file or by a failed read. */
  lemma {:induction false} TruncationSafe(codec: Codec, records: seq<StoreRecord>, t: nat)
    requires (forall r :: r in records ==> Fits(codec, r)) && t <= |FileOf(codec, records)|
    ensures var loaded := Parse(codec.decode, FileOf(codec, records)[..t]);
      && loaded.records == records[..WhollyBefore(codec, records, t)]
      && (loaded.status == EndOfFile || loaded.status == ReadFailed)
      && (t == |FileOf(codec, records)| ==> loaded == Loaded(records, EndOfFile))
  {
    if records != [] {
      var first, rest := records[0], FileOf(codec, records[1..]);
      var frame := Frame(codec, first);
      assert first in records;
      if t < |frame| {
        assert (frame + rest)[..t] == frame[..t];
        ParseCutFrame(codec, first, t);
      } else {
        assert (frame + rest)[..t] == frame + rest[..t - |frame|];
        ParseFrame(codec, first, rest[..t - |frame|]);
        TruncationSafe(codec, records[1..], t - |frame|);
        assert records == [first] + records[1..];
      }
    }
  }

  /** A codec whose decoder gives back what was encoded or fails. */
  predicate Honest(codec: Codec, records: seq<StoreRecord>) {
    forall r :: r in records ==>
      1 <= |codec.encode(r)| < 0x1_0000_0000
      && (codec.decode(codec.encode(r)) == Some(r) || codec.decode(codec.encode(r)) == None)
  }

  /** The records in front of the first that does not fit. */
  function FittingPrefix(codec: Codec, records: seq<StoreRecord>): (r: seq<StoreRecord>)
    ensures r <= records
  {
    if records == [] || !Fits(codec, records[0]) then [] else [records[0]] + FittingPrefix(codec, records[1..])
  }

  /** How loading a written file ends: at its end if every record fits, else as its first record
      that does not fit has it. A panic ends the whole process, and every other load with it. */
  function Ending(codec: Codec, records: seq<StoreRecord>): Status {
    var fitting := FittingPrefix(codec, records);
    if fitting == records then EndOfFile
    else if |codec.encode(records[|fitting|])| > BUFFER_CAP then Panicked
    else DecodeFailed
  }

  /** A record that does not fit loses itself and everything after it in its file; if it is longer
      than the buffers, loading panics. */
  lemma {:induction false} LoadsFittingPrefix(codec: Codec, records: seq<StoreRecord>)
    requires Honest(codec, records)
    ensures Parse(codec.decode, FileOf(codec, records)) == Loaded(FittingPrefix(codec, records), Ending(codec, records))
  {
    if records != [] {
      var first, rest := records[0], FileOf(codec, records[1..]);
      assert first in records;
      if |codec.encode(first)| <= BUFFER_CAP {
        ParseFrame(codec, first, rest);
        LoadsFittingPrefix(codec, records[1..]);
        if Fits(codec, first) { EndingStep(codec, records); }
      } else {
        var file := Frame(codec, first) + rest;
        assert file[..4] == PutLittle(|codec.encode(first)|, 4);
        assert Pow256(4) == 0x1_0000_0000;
        LittleEndianOfPut(|codec.encode(first)|, 4);
      }
    }
  }

  lemma EndingStep(codec: Codec, records: seq<StoreRecord>)
    requires records != [] && Fits(codec, records[0])
    ensures Ending(codec, records) == Ending(codec, records[1..])
  {
    assert records == [records[0]] + records[1..];
    assert FittingPrefix(codec, records) == [records[0]] + FittingPrefix(codec, records[1..]);
  }

  /** A file gives back all that was written into it exactly when every record fits. */
  lemma {:induction false} CompleteIffAllFit(codec: Codec, records: seq<StoreRecord>)
    requires Honest(codec, records)
    ensures Parse(codec.decode, FileOf(codec, records)).records == records <==>
      forall r :: r in records ==> |codec.encode(r)| <= 512 && codec.decode(codec.encode(r)) == Some(r)
  {
    LoadsFittingPrefix(codec, records);
    AllFitIffPrefixIsAll(codec, records);
  }

  lemma {:induction false} AllFitIffPrefixIsAll(codec: Codec, records: seq<StoreRecord>)
    ensures FittingPrefix(codec, records) == records <==> forall r :: r in records ==> Fits(codec, r)
  {
    if records != [] {
      AllFitIffPrefixIsAll(codec, records[1..]);
      assert records == [records[0]] + records[1..];
      assert FittingPrefix(codec, records) == records ==>
        FittingPrefix(codec, records)[1..] == records[1..];
    }
  }
}
