/** bytes.Buffer, as the target of successive writes. */
module Writers {
  import opened Bytes

  class Writer {
    var written: bytes

    constructor ()
      ensures written == []
    {
      written := [];
    }

    method Write(p: bytes)
      modifies this
      ensures written == old(written) + p
    {
      written := written + p;
    }

    /** binary.Write of an unsigned big-endian integer of some width. */
    method WriteBig(v: nat, width: nat)
      modifies this
      ensures written == old(written) + PutBig(v, width)
    {
      written := written + PutBig(v, width);
    }
  }
}
