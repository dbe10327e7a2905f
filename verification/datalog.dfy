/**
 * The data file as capture uses it: a byte sequence that only grows at its
 * end. Its size is what fileSize reports through the open handle, and every
 * gob encoder attached to it appends. Whether the operating system's stat
 * or write call fails is a parameter.
 */
module DataLog {
  import opened Common

  class AppendLog {
    /** The file's bytes, from offset 0. */
    var data: seq<Byte>

    /** A file size is an int64. */
    ghost predicate Valid()
      reads this
    {
      |data| <= MaxInt64
    }

    /** os.Create: the file exists and is empty. */
    constructor ()
      ensures Valid() && data == []
    {
      data := [];
    }

    /**
     * fileSize: the current size, or -1 and the error when Stat fails.
     */
    method FileSize(statFails: bool) returns (size: Int64, err: Option<Error>)
      requires Valid()
      ensures err.None? <==> !statFails
      ensures err.None? ==> size == |data|
      ensures err.Some? ==> size == -1 && err == Some(IoError(Stat))
    {
      if statFails {
        size, err := -1, Some(IoError(Stat));
      } else {
        size, err := |data|, None;
      }
    }

    /**
     * A write of `bytes` at the end of the file. It fails when the operating
     * system reports an error or when the file would outgrow an int64 size;
     * a failed write leaves the file as it was.
     */
    method Append(bytes: seq<Byte>, writeFails: bool) returns (err: Option<Error>)
      requires Valid()
      modifies this
      ensures Valid()
      ensures err.None? <==> !writeFails && |old(data)| + |bytes| <= MaxInt64
      ensures err.None? ==> data == old(data) + bytes
      ensures err.Some? ==> err == Some(IoError(Write)) && data == old(data)
    {
      if writeFails || |data| + |bytes| > MaxInt64 {
        err := Some(IoError(Write));
      } else {
        data := data + bytes;
        err := None;
      }
    }
  }
}
