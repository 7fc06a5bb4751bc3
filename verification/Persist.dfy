/** Loading one persistence file (biz/services/peer/mux_local/persist.go): the record loop over
    pooled buffers, with its repair of short reads and its expiry filter. */
module Persist {
  import opened Bytes
  import opened Peers
  import opened Adaptor
  import opened BufferedReader
  import opened Frames

  /** data = append(data[:at], more...), in place because the capacity suffices. */
  method Overwrite(data: array<byte>, at: nat, more: array<byte>, len: nat)
    requires data != more && len <= more.Length && at + len <= data.Length
    modifies data
    ensures data[..at] == old(data[..at]) && data[at..at + len] == more[..len]
  {
    for i := 0 to len
      invariant data[..at] == old(data[..at])
      invariant forall j :: 0 <= j < i ==> data[at + j] == more[j]
    {
      data[at + i] := more[i];
    }
    assert data[at..at + len] == more[..len];
  }

  /** Reading one payload. A short read is repaired by reading the remainder into a second buffer;
      each round of the repair writes at the same place, so it is right only if one round suffices.
      It does: after a short delivery the reader's buffer is empty and the remainder is smaller
      than that buffer, so another short delivery means the end of the file, and a failed read. */
  method ReadPayload(reader: Reader, data: array<byte>, raminBuf: array<byte>, size: nat) returns (length: nat, failed: bool)
    requires reader.Valid() && 0 < size <= BUFFER_CAP && data.Length == raminBuf.Length == BUFFER_CAP
    requires data != raminBuf && data != reader.buf && raminBuf != reader.buf
    modifies reader, reader.buf, data, raminBuf
    ensures reader.Valid()
    ensures failed <==> |old(reader.Rest())| < size
    ensures !failed ==> length == size && data[..size] == old(reader.Rest())[..size] && reader.Rest() == old(reader.Rest())[size..]
  {
    ghost var rest := reader.Rest();
    var readCount;
    readCount, failed := reader.Read(data, size);
    length := size;
    if failed {
      return;
    }
    if readCount != size {
      var remain := size - readCount;
      ghost var repaired := false;
      while remain > 0
        invariant reader.Valid() && (remain > 0 ==> reader.r == reader.w) && 0 <= remain <= size - readCount
        invariant data[..readCount] == rest[..readCount]
        invariant !repaired ==> remain == size - readCount && reader.Rest() == rest[readCount..]
        invariant repaired && remain > 0 ==> reader.Rest() == [] && |rest| < size
        invariant repaired && remain == 0 ==>
          |rest| >= size && length == size && data[..size] == rest[..size] && reader.Rest() == rest[size..]
      {
        var n, eof := reader.Read(raminBuf, remain);
        if eof {
          return length, true;
        }
        if n < remain {
          assert reader.Rest() == [];
          assert !repaired ==> rest[readCount..][n..] == [];
        }
        Overwrite(data, readCount, raminBuf, remain);
        length := readCount + remain;
        if n == remain {
          assert data[..size] == data[..readCount] + data[readCount..size];
          assert rest[..size] == rest[..readCount] + rest[readCount..][..n];
        }
        remain := remain - n;
        repaired := true;
      }
    }
  }

  predicate Survives(ttl: int, now: int, record: StoreRecord) {
    !(record.peer.lastSeen * SECOND + ttl < now)
  }

  function Surviving(ttl: int, now: int, records: seq<StoreRecord>): (r: seq<StoreRecord>)
    ensures forall x :: x in r <==> x in records && Survives(ttl, now, x)
  {
    if records == [] then [] else
      var n := |records| - 1;
      Surviving(ttl, now, records[..n]) + if Survives(ttl, now, records[n]) then [records[n]] else []
  }

  /** The record loop over one file: what it hands to DirectStore, in order, and how it ends. */
  method LoadFile(decode: bytes -> Option<StoreRecord>, reader: Reader, ttl: int, now: int)
    returns (stored: seq<StoreRecord>, expired: nat, status: Status)
    requires reader.Valid()
    modifies reader, reader.buf
    ensures var parsed := Parse(decode, old(reader.Rest()));
      && status == parsed.status
      && stored == Surviving(ttl, now, parsed.records)
      && |stored| + expired == |parsed.records|
  {
    var data := new byte[BUFFER_CAP](_ => 0);
    var raminBuf := new byte[BUFFER_CAP](_ => 0);
    ghost var whole := Parse(decode, reader.Rest());
    ghost var left := whole;
    ghost var seen: seq<StoreRecord> := [];
    stored, expired, status := [], 0, EndOfFile;
    var more := true;
    while more
      invariant reader.Valid() && fresh(data) && fresh(raminBuf)
      invariant more ==> left == Parse(decode, reader.Rest())
      invariant !more ==> left == Loaded([], status)
      invariant seen + left.records == whole.records && left.status == whole.status
      invariant stored == Surviving(ttl, now, seen) && |stored| + expired == |seen|
      decreases more, |reader.Rest()|
    {
      var next;
      next, status := NextRecord(decode, reader, data, raminBuf);
      if next.None? {
        more := false;
      } else {
        var record := next.value;
        SurvivingSnoc(ttl, now, seen, record);
        ghost var after := Parse(decode, reader.Rest());
        MoveOne(seen, record, after.records);
        seen, left := seen + [record], after;
        if record.peer.lastSeen * SECOND + ttl < now {
          expired := expired + 1;
        } else {
          stored := stored + [record];
        }
      }
    }
    assert seen + [] == seen;
  }

  lemma MoveOne(seen: seq<StoreRecord>, record: StoreRecord, after: seq<StoreRecord>)
    ensures seen + ([record] + after) == (seen + [record]) + after
  {
  }

  lemma SurvivingSnoc(ttl: int, now: int, seen: seq<StoreRecord>, record: StoreRecord)
    ensures Surviving(ttl, now, seen + [record]) ==
            Surviving(ttl, now, seen) + if Survives(ttl, now, record) then [record] else []
  {
    assert (seen + [record])[..|seen|] == seen;
  }

  /** One round of the record loop, up to the decoded record. */
  method NextRecord(decode: bytes -> Option<StoreRecord>, reader: Reader, data: array<byte>, raminBuf: array<byte>)
    returns (record: Option<StoreRecord>, status: Status)
    requires reader.Valid() && data.Length == raminBuf.Length == BUFFER_CAP
    requires data != raminBuf && data != reader.buf && raminBuf != reader.buf
    modifies reader, reader.buf, data, raminBuf
    ensures reader.Valid()
    ensures var parsed := Parse(decode, old(reader.Rest()));
      if record.None? then parsed == Loaded([], status)
      else
        && |reader.Rest()| < |old(reader.Rest())|
        && parsed == Loaded([record.value] + Parse(decode, reader.Rest()).records, Parse(decode, reader.Rest()).status)
  {
    ghost var rest := reader.Rest();
    var size, eof := reader.ReadUint32();
    if eof {
      return None, EndOfFile;
    }
    if size == 0 {
      return None, ZeroLength;
    }
    if size > BUFFER_CAP {
      return None, Panicked;
    }
    var length, failed := ReadPayload(reader, data, raminBuf, size);
    if failed {
      return None, ReadFailed;
    }
    assert data[..length] == rest[4..4 + size] && reader.Rest() == rest[4 + size..];
    record, status := decode(data[..length]), DecodeFailed;
  }
}
