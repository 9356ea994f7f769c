/** The byte sink and byte source the codecs are generic over (`std::io::Write` and `std::io::Read`). */
module Streams {
  import opened Results
  import opened Bytes

  /**
   * A sink that takes every write whole and never fails: the growing `Vec<u8>`
   * behind `to_bytes`, or the contents of a freshly created file.
   */
  class Writer {
    var data: seq<byte>

    constructor ()
      ensures data == []
    {
      data := [];
    }

    /** `write`/`write_all`: appends `bytes` to what was written so far. */
    method Write(bytes: seq<byte>)
      modifies this
      ensures data == old(data) + bytes
    {
      data := data + bytes;
    }
  }

  /** A source over fixed contents with a read position: a `Cursor` or an opened file. */
  class Reader {
    const bytes: seq<byte>
    var pos: nat

    ghost predicate Valid()
      reads this
    {
      pos <= |bytes|
    }

    /** What has not been read yet. */
    function Rest(): seq<byte>
      reads this
      requires Valid()
    {
      bytes[pos..]
    }

    constructor (contents: seq<byte>)
      ensures bytes == contents && pos == 0
      ensures Valid() && Rest() == contents
    {
      bytes := contents;
      pos := 0;
    }

    /**
     * `read_exact` of `n` bytes: either the next `n` bytes, or `UnexpectedEof`
     * when fewer remain, in which case the source is left exhausted.
     */
    method ReadExact(n: nat) returns (res: Result<seq<byte>>)
      requires Valid()
      modifies this`pos
      ensures Valid()
      ensures n <= |old(Rest())| ==> res == Ok(old(Rest())[..n]) && Rest() == old(Rest())[n..]
      ensures n > |old(Rest())| ==> res == Err(UnexpectedEof) && Rest() == []
    {
      if n <= |bytes| - pos {
        assert bytes[pos..pos + n] == bytes[pos..][..n];
        res := Ok(bytes[pos..pos + n]);
        pos := pos + n;
      } else {
        res := Err(UnexpectedEof);
        pos := |bytes|;
      }
    }
  }
}
