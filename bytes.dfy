/** Java integer and byte semantics used by the codec.
    A Java `byte` is modelled by its unsigned bit pattern (0..255) and a
    Java `int` by a mathematical integer in [INT_MIN, INT_MAX]; every
    wrap-around and truncation the codec relies on is written out here. */
module Bytes {

  const INT_MIN: int := -0x8000_0000
  const INT_MAX: int := 0x7FFF_FFFF
  const TWO_32: int := 0x1_0000_0000

  /** The bit pattern of a Java `byte`. */
  type byte = x: int | 0 <= x < 0x100

  /** A value a Java `int` can hold. */
  predicate IsInt32(x: int) {
    INT_MIN <= x <= INT_MAX
  }

  /** Java's `int` arithmetic: the mathematical result reduced to 32 bits
      and read back as a signed two's-complement value. */
  function Wrap32(x: int): (r: int)
    ensures IsInt32(r)
    ensures r % TWO_32 == x % TWO_32
    ensures IsInt32(x) ==> r == x
  {
    var u := x % TWO_32;
    if u > INT_MAX then
      DivisionUnique(u - TWO_32, TWO_32, -1, u);
      u - TWO_32
    else
      DivisionUnique(u, TWO_32, 0, u);
      if INT_MIN <= x < 0 then
        DivisionUnique(x, TWO_32, -1, x + TWO_32);
        u
      else
        u
  }

  /** Java's `/` on `int`: the quotient truncated toward zero. */
  function JavaDiv(a: int, b: int): (q: int)
    requires b > 0
    ensures 0 <= a ==> 0 <= a - q * b < b
    ensures a < 0 ==> -b < a - q * b <= 0
  {
    if 0 <= a then a / b else -((-a) / b)
  }

  /** The cast `(byte) x`: the low eight bits of `x`. */
  function LowByte(x: int): byte {
    x % 0x100
  }

  // Java's `x >> n` rounds down, and so does Dafny's `x / 2^n`, so the
  // shifts below are written as divisions.

  /** The four bytes `(byte)(v & 0xff)`, `(byte)((v >> 8) & 0xff)`,
      `(byte)((v >> 16) & 0xff)`, `(byte)((v >> 24) & 0xff)` of a Java int:
      its two's-complement pattern, least significant byte first. */
  function LittleEndian32(v: int): seq<byte>
    requires IsInt32(v)
  {
    [LowByte(v), LowByte(v / 0x100), LowByte(v / 0x1_0000), LowByte(v / 0x100_0000)]
  }

  /** The four bytes `(byte)(v >> 24)`, `(byte)(v >> 16)`, `(byte)(v >> 8)`,
      `(byte) v` of a Java int: most significant byte first. */
  function BigEndian32(v: int): seq<byte>
    requires IsInt32(v)
  {
    [LowByte(v / 0x100_0000), LowByte(v / 0x1_0000), LowByte(v / 0x100), LowByte(v)]
  }

  /** How a reader of a little-endian unsigned 32-bit field sees four bytes. */
  function ReadUInt32LE(b: seq<byte>): (r: int)
    requires |b| == 4
    ensures 0 <= r < TWO_32
  {
    b[0] as int + 0x100 * (b[1] as int) + 0x1_0000 * (b[2] as int) + 0x100_0000 * (b[3] as int)
  }

  /** How a reader of a little-endian unsigned 16-bit field sees two bytes. */
  function ReadUInt16LE(b: seq<byte>): (r: int)
    requires |b| == 2
    ensures 0 <= r < 0x1_0000
  {
    b[0] as int + 0x100 * (b[1] as int)
  }

  /** The Java expression
      `((b[0] & 0xFF) << 24) | ((b[1] & 0xFF) << 16) | ((b[2] & 0xFF) << 8) | (b[3] & 0xFF)`:
      the four shifted bytes do not overlap, so the `|` is a sum, and the
      top bit of `b[0]` becomes the sign bit of the resulting `int`. */
  function ReadInt32BE(b: seq<byte>): (r: int)
    requires |b| == 4
    ensures IsInt32(r)
    ensures r < 0 <==> b[0] >= 0x80
  {
    var u := (b[0] as int) * 0x100_0000 + (b[1] as int) * 0x1_0000 + (b[2] as int) * 0x100 + (b[3] as int);
    if u > INT_MAX then u - TWO_32 else u
  }

  /** Splitting a 32-bit pattern into bytes and adding them back gives the pattern. */
  lemma ByteSplit(u: int)
    requires 0 <= u < TWO_32
    ensures u == u % 0x100 + 0x100 * (u / 0x100 % 0x100)
                 + 0x1_0000 * (u / 0x1_0000 % 0x100) + 0x100_0000 * (u / 0x100_0000 % 0x100)
  {
    assert u / 0x100_0000 < 0x100;
    assert u / 0x100 == (u / 0x100 % 0x100) + 0x100 * (u / 0x1_0000);
    assert u / 0x1_0000 == (u / 0x1_0000 % 0x100) + 0x100 * (u / 0x100_0000);
  }

  lemma MulGrows(t: int, d: int)
    requires t >= 1 && d > 0
    ensures t * d >= d
  {
    assert t * d == (t - 1) * d + d;
  }

  /** Euclidean division is unique: a quotient and remainder that add up
      are the quotient and remainder. */
  lemma DivisionUnique(a: int, d: int, q: int, r: int)
    requires 0 < d && 0 <= r < d && a == q * d + r
    ensures a / d == q && a % d == r
  {
    var q', r' := a / d, a % d;
    assert a == q' * d + r';
    if q' > q {
      assert (q' - q) * d == q' * d - q * d;
      MulGrows(q' - q, d);
    } else if q' < q {
      assert (q - q') * d == q * d - q' * d;
      MulGrows(q - q', d);
    }
  }

  /** A byte taken after a shift depends only on the 32-bit pattern of the
      shifted int, so a negative int gives the bytes of its two's complement. */
  lemma ShiftedByte(v: int, k: int)
    requires k == 1 || k == 0x100 || k == 0x1_0000 || k == 0x100_0000
    ensures LowByte(v / k) == (v % TWO_32) / k % 0x100
  {
    var m := v / TWO_32;
    var u := v % TWO_32;
    var c := TWO_32 / k;   // a multiple of 0x100 for every allowed k
    assert c * k == TWO_32 && c == (c / 0x100) * 0x100;
    DivisionUnique(v, k, u / k + m * c, u % k);
    DivisionUnique(u / k + m * c, 0x100, (u / k) / 0x100 + m * (c / 0x100), (u / k) % 0x100);
  }

  /** A little-endian field reads back as the written int's 32-bit pattern. */
  lemma LittleEndian32RoundTrip(v: int)
    requires IsInt32(v)
    ensures |LittleEndian32(v)| == 4
    ensures ReadUInt32LE(LittleEndian32(v)) == v % TWO_32
    ensures 0 <= v ==> ReadUInt32LE(LittleEndian32(v)) == v
  {
    var u := v % TWO_32;
    if v >= 0 {
      DivisionUnique(v, TWO_32, 0, v);
    }
    ShiftedByte(v, 1); ShiftedByte(v, 0x100); ShiftedByte(v, 0x1_0000); ShiftedByte(v, 0x100_0000);
    ByteSplit(u);
    var b := LittleEndian32(v);
    assert b[0] as int == u % 0x100 && b[1] as int == u / 0x100 % 0x100;
    assert b[2] as int == u / 0x1_0000 % 0x100 && b[3] as int == u / 0x100_0000 % 0x100;
  }

  /** Reading a big-endian int back gives the written int, negative ones included. */
  lemma BigEndian32RoundTrip(v: int)
    requires IsInt32(v)
    ensures |BigEndian32(v)| == 4
    ensures ReadInt32BE(BigEndian32(v)) == v
  {
    var u := v % TWO_32;
    ShiftedByte(v, 1); ShiftedByte(v, 0x100); ShiftedByte(v, 0x1_0000); ShiftedByte(v, 0x100_0000);
    ByteSplit(u);
    var b := BigEndian32(v);
    assert (b[0] as int) * 0x100_0000 + (b[1] as int) * 0x1_0000 + (b[2] as int) * 0x100 + (b[3] as int) == u;
    if v < 0 {
      DivisionUnique(v, TWO_32, -1, v + TWO_32);
    } else {
      DivisionUnique(v, TWO_32, 0, v);
    }
  }

  /** The other direction: every four bytes are the big-endian form of the
      int they are read as, so no two byte patterns read as the same int. */
  lemma ReadInt32BERoundTrip(b: seq<byte>)
    requires |b| == 4
    ensures BigEndian32(ReadInt32BE(b)) == b
  {
    var b0, b1, b2, b3 := b[0] as int, b[1] as int, b[2] as int, b[3] as int;
    var u := b0 * 0x100_0000 + b1 * 0x1_0000 + b2 * 0x100 + b3;
    var v := ReadInt32BE(b);
    if v < 0 {
      DivisionUnique(v, TWO_32, -1, u);
    } else {
      DivisionUnique(v, TWO_32, 0, u);
    }
    ShiftedByte(v, 1); ShiftedByte(v, 0x100); ShiftedByte(v, 0x1_0000); ShiftedByte(v, 0x100_0000);
    DivisionUnique(u, 0x100_0000, b0, b1 * 0x1_0000 + b2 * 0x100 + b3);
    DivisionUnique(u, 0x1_0000, b0 * 0x100 + b1, b2 * 0x100 + b3);
    DivisionUnique(u, 0x100, b0 * 0x1_0000 + b1 * 0x100 + b2, b3);
    DivisionUnique(u, 1, u, 0);
    DivisionUnique(b0 * 0x100 + b1, 0x100, b0, b1);
    DivisionUnique(b0 * 0x1_0000 + b1 * 0x100 + b2, 0x100, b0 * 0x100 + b1, b2);
    DivisionUnique(b0, 0x100, 0, b0);
  }
}
