/** An input file stream over bytes, with the state bits the parsers look at. */
module WalStream {
  import opened Domain
  import opened Checksum

  /** What `tellg` returns on a stream that is not good, as an unsigned offset. */
  const NO_OFFSET: nat := U64_LIMIT - 1

  /** Unformatted input as in [istream.unformatted] of the C++ standard. */
  class InputFile {
    const bytes: seq<byte>
    var pos: nat
    var eof: bool
    var fail: bool
    var count: nat

    constructor (bytes: seq<byte>)
      ensures this.bytes == bytes && At(0) && count == 0
    {
      this.bytes := bytes;
      pos, eof, fail, count := 0, false, false, 0;
    }

    ghost predicate Valid()
      reads this
    {
      pos <= |bytes|
    }

    /** The stream is good and stands at `offset`. */
    ghost predicate At(offset: nat)
      reads this
    {
      Valid() && pos == offset && !eof && !fail
    }

    /** The end was hit by a skip: only the end-of-file bit is set. */
    ghost predicate RanOut()
      reads this
    {
      Valid() && pos == |bytes| && eof && !fail
    }

    /** Reads `n` bytes; when fewer are left it takes them all and sets both bits. */
    method Read(n: nat) returns (data: seq<byte>)
      requires Valid()
      modifies this`pos, this`eof, this`fail, this`count
      ensures Valid() && |data| == count
      ensures !old(eof) && !old(fail) && n <= |bytes| - old(pos) ==>
        At(old(pos) + n) && count == n && data == bytes[old(pos)..old(pos) + n]
      ensures !old(eof) && !old(fail) && n > |bytes| - old(pos) ==>
        pos == |bytes| && eof && fail && count == |bytes| - old(pos) && data == bytes[old(pos)..]
      ensures old(eof) || old(fail) ==> pos == old(pos) && eof == old(eof) && fail && count == 0
    {
      count := 0;
      data := [];
      if eof || fail {
        fail := true;
        return;
      }
      count := if n <= |bytes| - pos then n else |bytes| - pos;
      data := bytes[pos..pos + count];
      pos := pos + count;
      if count < n {
        eof, fail := true, true;
      }
    }

    /** Skips `n` bytes; running out sets the end-of-file bit alone. A negative `n` skips nothing. */
    method Ignore(n: int)
      requires Valid()
      modifies this`pos, this`eof, this`fail, this`count
      ensures Valid()
      ensures !old(eof) && !old(fail) && n <= |bytes| - old(pos) ==> At(old(pos) + if n > 0 then n else 0)
      ensures !old(eof) && !old(fail) && n > |bytes| - old(pos) ==> RanOut()
    {
      count := 0;
      if eof || fail {
        fail := true;
        return;
      }
      if n > 0 {
        count := if n <= |bytes| - pos then n else |bytes| - pos;
        pos := pos + count;
        if count < n {
          eof := true;
        }
      }
    }

    method Tellg() returns (offset: nat)
      requires Valid()
      modifies this`fail
      ensures Valid() && fail == (old(eof) || old(fail))
      ensures offset == if !old(eof) && !old(fail) then pos else NO_OFFSET
    {
      if eof || fail {
        fail := true;
        return NO_OFFSET;
      }
      return pos;
    }

    method Clear()
      modifies this`eof, this`fail
      ensures !eof && !fail
    {
      eof, fail := false, false;
    }
  }
}
