/** Java's fixed-width integer types and the arithmetic the decoder relies on,
    written out explicitly over Dafny's unbounded integers. */
module JavaInt {

  /** An unsigned byte: what `InputStream.read()` and `b & 0xff` produce, and the
      contents of every byte array of the model. */
  type byte = b: int | 0 <= b < 256

  /** Java's signed `byte`, used where the source sign-extends a table byte. */
  type int8 = x: int | -0x80 <= x < 0x80

  /** Java's `short`. */
  type i16 = x: int | -0x8000 <= x < 0x8000

  /** Java's `int`. */
  type i32 = x: int | -0x8000_0000 <= x < 0x8000_0000

  const TWO32: int := 0x1_0000_0000
  const TWO16: int := 0x1_0000

  /** The `int` that Java's two's-complement arithmetic yields for the exact value `x`:
      the unique `i32` congruent to `x` modulo 2^32. */
  function Wrap32(x: int): (r: i32)
    ensures -0x8000_0000 <= x < 0x8000_0000 ==> r == x
  {
    var m := x % TWO32;
    if m < 0x8000_0000 then m else m - TWO32
  }

  /** The `short` that a `(short)` cast yields for the exact value `x`. */
  function Wrap16(x: int): (r: i16)
    ensures r % TWO16 == x % TWO16
    ensures -0x8000 <= x < 0x8000 ==> r == x
  {
    var m := x % TWO16;
    if m < 0x8000 then m else m - TWO16
  }

  /** Java's `(byte)` cast of a value in 0..255. */
  function Signed(b: byte): (r: int8)
    ensures Unsigned(r) == b
    ensures 0 <= r <==> b < 0x80
  {
    if b < 0x80 then b else b - 0x100
  }

  /** Java's `x & 0xff` of a signed byte. */
  function Unsigned(x: int8): (r: byte)
    ensures r % 0x100 == x % 0x100
  {
    if 0 <= x then x else x + 0x100
  }

  /** Java's `%` on `int`: the remainder takes the sign of the dividend (truncating
      division), unlike Dafny's Euclidean `%`. */
  function JavaRem(a: int, n: int): (r: int)
    requires n > 0
    ensures 0 <= a ==> r == a % n
    ensures a < 0 ==> -n < r <= 0
    ensures r < 0 ==> a < 0
  {
    if 0 <= a then a % n else -((-a) % n)
  }

  /** Subtracting a multiple of 2^32 does not change a residue. */
  lemma {:induction false} ModShift(y: int, c: int)
    ensures (y + TWO32 * c) % TWO32 == y % TWO32
    decreases if c < 0 then -c else c
  {
    if c > 0 {
      ModShift(y, c - 1);
      assert y + TWO32 * c == (y + TWO32 * (c - 1)) + TWO32;
    } else if c < 0 {
      ModShift(y, c + 1);
      assert y + TWO32 * c == (y + TWO32 * (c + 1)) - TWO32;
    }
  }

  /** A `short` is its own two bytes read back unsigned and cast. */
  lemma Wrap16Residue(x: i16)
    ensures Wrap16(x % TWO16) == x
  {
    if x < 0 {
      assert x % TWO16 == x + TWO16;
    } else {
      assert x % TWO16 == x;
    }
  }

  /** Wrap32 depends only on the residue modulo 2^32. */
  lemma WrapCongruent(x: int, y: int)
    requires x % TWO32 == y % TWO32
    ensures Wrap32(x) == Wrap32(y)
  {
  }

  /** `(x << 7) | d` on a Java `int` whose low seven bits `d` fills. */
  function Shl7Or(x: i32, d: int): i32
    requires 0 <= d < 128
  {
    Wrap32(x * 128 + d)
  }

  /** One step of the varint accumulator `ret = (ret << 7) | d` on a Java `int`
      agrees with wrapping the exact value once at the end. */
  lemma {:induction false} WrapShiftAdd(x: int, d: int)
    requires 0 <= d < 128
    ensures Wrap32(Wrap32(x) * 128 + d) == Wrap32(x * 128 + d)
  {
    var w := Wrap32(x);
    var q := (x - w) / TWO32;
    assert x - w == TWO32 * q;
    assert w * 128 + d == (x * 128 + d) + TWO32 * (-q * 128);
    ModShift(x * 128 + d, -q * 128);
    WrapCongruent(w * 128 + d, x * 128 + d);
  }
}
