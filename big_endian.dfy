/** Unsigned big-endian integers ("network order", the `!` prefix of Python's
    `struct` formats), as the Git index header and entries store them. */
module BigEndian {

  /** One octet of the index file. */
  type Byte = b: int | 0 <= b < 256

  /** 256 to the power `n`: one more than the largest `n`-byte unsigned value. */
  function Pow256(n: nat): (p: nat)
    ensures p >= 1
  {
    if n == 0 then 1 else 256 * Pow256(n - 1)
  }

  /** The unsigned value of `b`, most significant byte first. */
  function Decode(b: seq<Byte>): (v: nat)
    ensures v < Pow256(|b|)
    decreases |b|
  {
    if b == [] then 0
    else
      var high := Decode(b[..|b| - 1]);
      assert high <= Pow256(|b| - 1) - 1;
      high * 256 + b[|b| - 1]
  }

  /** The `width`-byte big-endian representation of `v`. */
  function Encode(v: nat, width: nat): (b: seq<Byte>)
    requires v < Pow256(width)
    ensures |b| == width
    decreases width
  {
    if width == 0 then []
    else Encode(v / 256, width - 1) + [v % 256]
  }

  /** A `u32` is four bytes wide. */
  function U32(b: seq<Byte>): (v: nat)
    requires |b| == 4
    ensures v < 0x1_0000_0000
  {
    Decode(b)
  }

  /** A `u16` is two bytes wide. */
  function U16(b: seq<Byte>): (v: nat)
    requires |b| == 2
    ensures v < 0x1_0000
  {
    Decode(b)
  }

  /** The bytes of a `u32` weigh 2^24, 2^16, 2^8 and 1, most significant
      first. */
  lemma U32Value(b: seq<Byte>)
    requires |b| == 4
    ensures U32(b) == (b[0] as int) * 0x100_0000 + (b[1] as int) * 0x1_0000 + (b[2] as int) * 0x100 + b[3]
  {
    var b0, b1, b2 := b[0] as int, b[1] as int, b[2] as int;
    assert b[..3][..2] == [b[0], b[1]];
    assert [b[0], b[1]][..1] == [b[0]];
    assert Decode([b[0]]) == b0 by { assert [b[0]][..0] == []; }
    var d2 := Decode(b[..3][..2]);
    assert d2 == b0 * 0x100 + b1;
    var d3 := Decode(b[..3]);
    assert d3 == d2 * 0x100 + b2 == b0 * 0x1_0000 + b1 * 0x100 + b2;
  }

  /** The bytes of a `u16` weigh 2^8 and 1, most significant first. */
  lemma U16Value(b: seq<Byte>)
    requires |b| == 2
    ensures U16(b) == (b[0] as int) * 0x100 + b[1]
  {
    assert b[..1] == [b[0]];
    assert Decode(b[..1]) == b[0];
  }

  /** Decoding what was encoded gives the value back. */
  lemma {:induction false} DecodeEncode(v: nat, width: nat)
    requires v < Pow256(width)
    ensures Decode(Encode(v, width)) == v
    decreases width
  {
    if width > 0 {
      var b := Encode(v, width);
      DecodeEncode(v / 256, width - 1);
      assert b[..|b| - 1] == Encode(v / 256, width - 1);
    }
  }

  /** Encoding a decoded value at its own width gives the bytes back. */
  lemma {:induction false} EncodeDecode(b: seq<Byte>)
    ensures Decode(b) < Pow256(|b|)
    ensures Encode(Decode(b), |b|) == b
    decreases |b|
  {
    if b != [] {
      var init, last := b[..|b| - 1], b[|b| - 1];
      EncodeDecode(init);
      var v := Decode(b);
      assert v == Decode(init) * 256 + last;
      assert v / 256 == Decode(init) && v % 256 == last;
      assert b == init + [last];
    }
  }

  /** Big-endian decoding is injective: equal values at equal width come
      from equal bytes. */
  lemma DecodeInjective(a: seq<Byte>, b: seq<Byte>)
    requires |a| == |b| && Decode(a) == Decode(b)
    ensures a == b
  {
    EncodeDecode(a);
    EncodeDecode(b);
  }
}
