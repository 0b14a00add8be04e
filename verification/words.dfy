/**
 * Thirty-two-bit machine integers as C# sees them.
 *
 * Both C# `int` and C# `uint` are held as mathematical integers in their
 * ranges: `int32` in [-2^31, 2^31) and `uint32` in [0, 2^32).  Arithmetic
 * in an unchecked context keeps the low 32 bits of the exact result, which
 * `Wrap` (for `int`) and `% TWO_TO_32` (for `uint`) model.  The casts
 * `(uint)i` and `(int)w` reinterpret the same 32 bits.  Bitwise operators
 * work on the `bv32` view of a `uint`, reached through `Bits`/`FromBits`.
 */
module Words {

  const TWO_TO_32: int := 0x1_0000_0000
  const TWO_TO_31: int := 0x8000_0000

  type uint32 = n: int | 0 <= n < 0x1_0000_0000

  type int32 = x: int | -0x8000_0000 <= x < 0x8000_0000

  const INT_MIN: int32 := -0x8000_0000
  const INT_MAX: int32 := 0x7FFF_FFFF

  // ---------------------------------------------------------------------------
  // `int` arithmetic.
  // ---------------------------------------------------------------------------

  /** The low 32 bits of an exact integer result, read as an `int`:
      what C# keeps from `int` arithmetic that overflows. */
  function Wrap(x: int): (r: int32)
    ensures r % TWO_TO_32 == x % TWO_TO_32
    ensures INT_MIN <= x <= INT_MAX ==> r == x
  {
    var m := x % TWO_TO_32;
    if m < TWO_TO_31 then m else m - TWO_TO_32
  }

  /** `a + b` on C# `int`s. */
  function IntAdd(a: int32, b: int32): int32 {
    Wrap(a + b)
  }

  /** `a - b` on C# `int`s. */
  function IntSub(a: int32, b: int32): int32 {
    Wrap(a - b)
  }

  /** `a * b` on C# `int`s. */
  function IntMul(a: int32, b: int32): int32 {
    Wrap(a * b)
  }

  /** `i++` on a C# `int`: the successor, except that INT_MAX steps to INT_MIN. */
  function IntIncrement(i: int32): (r: int32)
    ensures i < INT_MAX ==> r == i + 1
    ensures i == INT_MAX ==> r == INT_MIN
  {
    IntAdd(i, 1)
  }

  /** Two integers wrap to the same `int` exactly when they agree modulo 2^32. */
  lemma WrapEqual(a: int, b: int)
    ensures Wrap(a) == Wrap(b) <==> a % TWO_TO_32 == b % TWO_TO_32
  {
  }

  /** Wrapping an intermediate sum does not change the wrapped total. */
  lemma WrapAddInner(a: int, b: int)
    ensures Wrap(Wrap(a) + b) == Wrap(a + b)
  {
    ModAddCongruent(Wrap(a), a, b);
  }

  // ---------------------------------------------------------------------------
  // `uint` arithmetic.
  // ---------------------------------------------------------------------------

  /** `a + b` on C# `uint`s. */
  function UintAdd(a: uint32, b: uint32): uint32 {
    (a + b) % TWO_TO_32
  }

  /** `a - b` on C# `uint`s. */
  function UintSub(a: uint32, b: uint32): uint32 {
    (a - b) % TWO_TO_32
  }

  /** `a * b` on C# `uint`s. */
  function UintMul(a: uint32, b: uint32): uint32 {
    (a * b) % TWO_TO_32
  }

  /** Subtracting `b` undoes adding it, and adding undoes subtracting. */
  lemma UintAddInverse(x: uint32, b: uint32)
    ensures UintSub(UintAdd(x, b), b) == x
    ensures UintAdd(UintSub(x, b), b) == x
  {
    ModAddCongruent((x + b) % TWO_TO_32, x + b, -(b as int));
    ModAddCongruent((x - b) % TWO_TO_32, x - b, b);
  }

  /** Multiplying by `d` undoes multiplying by `c` when `c * d` is 1 modulo 2^32. */
  lemma UintMulInverse(x: uint32, c: uint32, d: uint32, k: int)
    requires c * d == TWO_TO_32 * k + 1
    ensures UintMul(UintMul(x, c), d) == x
  {
    var q := (x * c) / TWO_TO_32;
    var y := (x * c) % TWO_TO_32;
    assert x * c == TWO_TO_32 * q + y;
    assert y * d == x + TWO_TO_32 * (x * k - q * d) by {
      calc {
        y * d;
        (x * c - TWO_TO_32 * q) * d;
        { assert (x * c - TWO_TO_32 * q) * d == x * c * d - TWO_TO_32 * q * d; }
        x * c * d - TWO_TO_32 * q * d;
        { assert x * c * d == x * (c * d); }
        x * (TWO_TO_32 * k + 1) - TWO_TO_32 * q * d;
        { assert x * (TWO_TO_32 * k + 1) == TWO_TO_32 * (x * k) + x; }
        x + TWO_TO_32 * (x * k - q * d);
      }
    }
    ModUnique(y * d, x * k - q * d, x);
  }

  // ---------------------------------------------------------------------------
  // The casts between `int` and `uint`.
  // ---------------------------------------------------------------------------

  /** `(uint)i`: the two's-complement bits of an `int`, read unsigned. */
  function ToUnsigned(i: int32): (w: uint32)
    ensures 0 <= i ==> w == i
    ensures i < 0 ==> w == i + TWO_TO_32
  {
    i % TWO_TO_32
  }

  /** `(int)w`: the bits of a `uint`, read as a two's-complement `int`. */
  function ToSigned(w: uint32): (i: int32)
    ensures w < TWO_TO_31 ==> i == w
    ensures TWO_TO_31 <= w ==> i == w - TWO_TO_32
  {
    if w < TWO_TO_31 then w else w - TWO_TO_32
  }

  /** `(int)` undoes `(uint)`. */
  lemma SignedOfUnsigned(i: int32)
    ensures ToSigned(ToUnsigned(i)) == i
  {
  }

  /** `(uint)` undoes `(int)`. */
  lemma UnsignedOfSigned(w: uint32)
    ensures ToUnsigned(ToSigned(w)) == w
  {
  }

  // ---------------------------------------------------------------------------
  // Integer facts modulo 2^32.
  // ---------------------------------------------------------------------------

  /** Euclidean division by 2^32 has only one remainder. */
  lemma ModUnique(u: int, q: int, r: int)
    requires u == TWO_TO_32 * q + r && 0 <= r < TWO_TO_32
    ensures u % TWO_TO_32 == r
  {
  }

  /** Adding a multiple of 2^32 does not change a residue. */
  lemma ModShift(u: int, k: int)
    ensures (u + TWO_TO_32 * k) % TWO_TO_32 == u % TWO_TO_32
  {
    var q := u / TWO_TO_32;
    var r := u % TWO_TO_32;
    assert u + TWO_TO_32 * k == TWO_TO_32 * (q + k) + r;
    ModUnique(u + TWO_TO_32 * k, q + k, r);
  }

  /** Congruence modulo 2^32 is preserved by adding the same number. */
  lemma ModAddCongruent(a: int, a': int, b: int)
    requires a % TWO_TO_32 == a' % TWO_TO_32
    ensures (a + b) % TWO_TO_32 == (a' + b) % TWO_TO_32
  {
    var k := a / TWO_TO_32 - a' / TWO_TO_32;
    assert a + b == (a' + b) + TWO_TO_32 * k;
    ModShift(a' + b, k);
  }

  /** Congruence modulo 2^32 is preserved by multiplying by the same number. */
  lemma ModMulCongruent(a: int, a': int, c: int)
    requires a % TWO_TO_32 == a' % TWO_TO_32
    ensures (c * a) % TWO_TO_32 == (c * a') % TWO_TO_32
  {
    var k := a / TWO_TO_32 - a' / TWO_TO_32;
    assert a == a' + TWO_TO_32 * k;
    assert c * a == c * a' + TWO_TO_32 * (c * k) by {
      assert c * (a' + TWO_TO_32 * k) == c * a' + c * (TWO_TO_32 * k);
    }
    ModShift(c * a', c * k);
  }

  // ---------------------------------------------------------------------------
  // The bit view of a `uint`.  The solver relates integers and bit-vectors
  // cheaply only a byte at a time, so a 32-bit word is assembled from bytes.
  // ---------------------------------------------------------------------------

  /** The 32 bits of a `uint`. */
  function Bits(w: uint32): bv32 {
    w as bv32
  }

  /** The `uint` whose bits these are. */
  function FromBits(b: bv32): uint32 {
    b as int
  }

  /** Reading the bits of a word back gives the same bits. */
  lemma BitsOfFromBits(b: bv32)
    ensures Bits(FromBits(b)) == b
  {
  }

  /** Every `uint` is the value of its own bits. */
  lemma FromBitsOfBits(w: uint32)
    ensures FromBits(Bits(w)) == w
  {
    var hi, lo := w / 0x1_0000, w % 0x1_0000;
    HalfRoundTrip(hi);
    HalfRoundTrip(lo);
    var b: bv32 := ((hi as bv16 as bv32) << 16) | (lo as bv16 as bv32);
    JoinHalves(hi as bv16, lo as bv16);
    assert FromBits(b) == w;
    BitsOfFromBits(b);
  }

  /** A 16-bit number survives the trip to `bv16` and back. */
  lemma HalfRoundTrip(h: int)
    requires 0 <= h < 0x1_0000
    ensures (h as bv16) as int == h
  {
    var hi, lo := h / 0x100, h % 0x100;
    ByteRoundTrip(hi);
    ByteRoundTrip(lo);
    var b: bv16 := ((hi as bv8 as bv16) << 8) | (lo as bv8 as bv16);
    JoinBytes(hi as bv8, lo as bv8);
    assert b as int == h;
    HalfOfValue(b);
  }

  /** A `bv16` is the cast of its own value. */
  lemma HalfOfValue(b: bv16)
    ensures (b as int) as bv16 == b
  {
  }

  /** A byte survives the trip to `bv8` and back. */
  lemma ByteRoundTrip(n: int)
    requires 0 <= n < 0x100
    ensures (n as bv8) as int == n
  {
    // The solver settles the cast one eighth of the byte range at a time.
    if n < 0x20 {
    } else if n < 0x40 {
    } else if n < 0x60 {
    } else if n < 0x80 {
    } else if n < 0xA0 {
    } else if n < 0xC0 {
    } else if n < 0xE0 {
    } else {
    }
  }

  lemma JoinBytes(hi: bv8, lo: bv8)
    ensures (((hi as bv16) << 8) | (lo as bv16)) as int == hi as int * 0x100 + lo as int
  {
  }

  lemma JoinHalves(hi: bv16, lo: bv16)
    ensures (((hi as bv32) << 16) | (lo as bv32)) as int == hi as int * 0x1_0000 + lo as int
  {
  }
}
