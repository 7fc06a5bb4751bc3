/** bufio.Reader over a regular file, and encoding/binary reading a length from it: the behaviour
    the record loop of biz/services/peer/mux_local/persist.go relies on. */
module BufferedReader {
  import opened Bytes

  const BUFFER_SIZE: nat := 4096

  function Min(a: nat, b: nat): nat { if a < b then a else b }

  class Reader {
    const file: bytes          // the file; the system call returns all that fits and is left
    var pos: nat               // how much of it has been read from the system
    const buf: array<byte>
    var r: nat
    var w: nat

    ghost predicate Valid()
      reads this
    {
      buf.Length == BUFFER_SIZE && r <= w <= BUFFER_SIZE && pos <= |file|
    }

    /** What is still to be delivered. */
    ghost function Rest(): bytes
      requires Valid()
      reads this, buf
    {
      buf[r..w] + file[pos..]
    }

    constructor (file: bytes)
      ensures Valid() && Rest() == file && fresh(buf)
    {
      this.file := file;
      buf := new byte[BUFFER_SIZE](_ => 0);
      pos, r, w := 0, 0, 0;
    }

    /** Refill the empty buffer with one system read. */
    method Fill()
      requires Valid() && r == w
      modifies this, buf
      ensures Valid() && Rest() == old(Rest())
      ensures r == 0 && w == Min(4096, |old(Rest())|) && pos == old(pos) + w
    {
      var n := Min(BUFFER_SIZE, |file| - pos);
      ghost var rest := file[pos..];
      forall i | 0 <= i < n {
        buf[i] := file[pos + i];
      }
      r, w, pos := 0, n, pos + n;
      assert buf[..n] == rest[..n];
      assert file[pos..] == rest[n..];
    }

    /** Read delivers what is buffered, else what one system read brings; it may deliver less than
        asked for. After a short delivery the buffer is empty, and a short delivery from an empty
        buffer means the file has ended. */
    method Read(p: array<byte>, len: nat) returns (n: nat, eof: bool)
      requires Valid() && p != buf && len <= p.Length
      modifies this, buf, p
      ensures Valid()
      ensures eof <==> len > 0 && old(Rest()) == []
      ensures n <= len && n <= |old(Rest())| && (n == 0 <==> len == 0 || eof)
      ensures p[..n] == old(Rest())[..n] && p[n..] == old(p[n..])
      ensures Rest() == old(Rest())[n..]
      ensures n < len ==> r == w
      ensures n < len < 4096 && old(r == w) ==> Rest() == []
    {
      if len == 0 {
        assert p[..0] == old(Rest())[..0];
        return 0, false;
      }
      if r == w {
        if len >= BUFFER_SIZE {
          n, eof := ReadDirectly(p, len);
          return;
        }
        Fill();
        if w == 0 {
          assert p[..0] == old(Rest())[..0];
          return 0, true;
        }
      }
      eof := false;
      n := Deliver(p, len);
    }

    /** Copy out what is buffered. */
    method Deliver(p: array<byte>, len: nat) returns (n: nat)
      requires Valid() && p != buf && 0 < len <= p.Length && r < w
      modifies this`r, p
      ensures Valid() && n == Min(len, old(w - r)) && r == old(r) + n
      ensures p[..n] == old(Rest())[..n] && p[n..] == old(p[n..])
      ensures Rest() == old(Rest())[n..]
    {
      n := Min(len, w - r);
      SplitRest(buf[..], file[pos..], r, n, w);
      forall i | 0 <= i < n {
        p[i] := buf[r + i];
      }
      assert p[..n] == buf[r..r + n];
      r := r + n;
    }

    /** A large read with an empty buffer bypasses it. */
    method ReadDirectly(p: array<byte>, len: nat) returns (n: nat, eof: bool)
      requires Valid() && p != buf && 0 < len <= p.Length && r == w
      modifies this, p
      ensures Valid() && r == w && buf[..] == old(buf[..])
      ensures eof <==> old(Rest()) == []
      ensures n == Min(len, |old(Rest())|)
      ensures p[..n] == old(Rest())[..n] && p[n..] == old(p[n..])
      ensures Rest() == old(Rest())[n..]
    {
      ghost var rest := file[pos..];
      assert Rest() == rest;
      n := Min(len, |file| - pos);
      forall i | 0 <= i < n {
        p[i] := file[pos + i];
      }
      pos := pos + n;
      eof := n == 0;
      assert file[pos..] == rest[n..];
      assert p[..n] == rest[..n];
    }

    /** binary.Read of a little-endian uint32: four bytes, however many reads they take. */
    method ReadUint32() returns (value: nat, eof: bool)
      requires Valid()
      modifies this, buf
      ensures Valid()
      ensures eof <==> |old(Rest())| < 4
      ensures !eof ==> value == LittleEndian(old(Rest())[..4]) && Rest() == old(Rest())[4..]
      ensures !eof ==> var b := old(Rest());
        value == b[0] as int + 0x100 * (b[1] as int) + 0x1_0000 * (b[2] as int) + 0x100_0000 * (b[3] as int)
    {
      ghost var rest := Rest();
      if |rest| >= 4 { FourBytes(rest[..4]); }
      var got: bytes := [];
      var chunk := new byte[4](_ => 0);
      while |got| < 4
        invariant Valid() && |got| <= 4 && got + Rest() == rest
        decreases 4 - |got|
      {
        ghost var before := Rest();
        var n;
        n, eof := Read(chunk, 4 - |got|);
        if eof {
          return 0, true;
        }
        Moved(got, before, n);
        got := got + chunk[..n];
      }
      assert rest[..4] == got;
      return LittleEndian(got), false;
    }
  }

  lemma SplitRest(buffer: bytes, after: bytes, r: nat, n: nat, w: nat)
    requires r + n <= w <= |buffer|
    ensures (buffer[r..w] + after)[..n] == buffer[r..r + n]
    ensures (buffer[r..w] + after)[n..] == buffer[r + n..w] + after
  {
  }

  lemma Moved(a: bytes, b: bytes, n: nat)
    requires n <= |b|
    ensures a + b[..n] + b[n..] == a + b
  {
  }
}
