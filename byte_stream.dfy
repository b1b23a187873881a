/** A binary file object opened for reading: a fixed byte string and a read
    position. `Read(n)` returns at most `n` bytes and fewer only at the end
    of the data, which is what `read(n)` does on a file opened with `'rb'`
    or on an in-memory `BytesIO` buffer. */
module ByteStream {
  import opened BigEndian

  function Min(a: int, b: int): (m: int)
    ensures m <= a && m <= b && (m == a || m == b)
  {
    if a <= b then a else b
  }

  class Stream {
    /** The whole content of the file. */
    const data: seq<Byte>
    /** The read position: the number of bytes consumed so far. */
    var pos: nat

    ghost predicate Valid()
      reads this
    {
      pos <= |data|
    }

    /** The bytes not read yet. */
    function Unread(): (rest: seq<Byte>)
      reads this
      requires Valid()
      ensures |rest| == |data| - pos
    {
      data[pos..]
    }

    constructor (bytes: seq<Byte>)
      ensures Valid()
      ensures data == bytes && pos == 0
    {
      data := bytes;
      pos := 0;
    }

    /** Reads up to `n` bytes: exactly `n` while that many remain, otherwise
        everything left (so the empty string once the data is exhausted). */
    method Read(n: nat) returns (chunk: seq<Byte>)
      requires Valid()
      modifies this`pos
      ensures Valid()
      ensures pos == Min(old(pos) + n, |data|)
      ensures chunk == data[old(pos)..pos]
      ensures |chunk| == Min(n, |old(Unread())|)
    {
      var end := Min(pos + n, |data|);
      chunk := data[pos..end];
      pos := end;
    }
  }
}
