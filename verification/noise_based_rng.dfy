/**
 * The public noise functions: 1 to 4 integer coordinates are folded into
 * one `int` index with wrapping `int` arithmetic and large primes, and the
 * index is hashed with SquirrelNoise5.  The `(int)` reinterpretation that
 * the signed (`NegOneToOne`) variants apply to the word before scaling it to
 * a float is modelled too; the float scaling is not.
 */
module NoiseBasedRNG {
  import opened Words
  import opened SquirrelNoise

  const PRIME_NUMBER: int32 := 198491317
  const PRIME_NUMBER_2: int32 := 6542989
  const PRIME_NUMBER_3: int32 := 357239

  // ---------------------------------------------------------------------------
  // Folding coordinates into one index.
  // ---------------------------------------------------------------------------

  /** `positionX + (PRIME_NUMBER * positionY)` in `int` arithmetic: the exact sum, wrapped once. */
  function Index2d(x: int32, y: int32): (i: int32)
    ensures i == Wrap(x + PRIME_NUMBER * y)
  {
    WrapAddInner(PRIME_NUMBER * y, x);
    IntAdd(x, IntMul(PRIME_NUMBER, y))
  }

  /** The 3D fold, left to right as C# evaluates it: the exact sum, wrapped once. */
  function Index3d(x: int32, y: int32, z: int32): (i: int32)
    ensures i == Wrap(x + PRIME_NUMBER * y + PRIME_NUMBER_2 * z)
  {
    var s := x + PRIME_NUMBER * y;
    var m := IntMul(PRIME_NUMBER_2, z);
    WrapAddInner(s, m);
    WrapAddInner(PRIME_NUMBER_2 * z, s);
    IntAdd(Index2d(x, y), m)
  }

  /** The 4D fold, left to right as C# evaluates it: the exact sum, wrapped once. */
  function Index4d(x: int32, y: int32, z: int32, t: int32): (i: int32)
    ensures i == Wrap(x + PRIME_NUMBER * y + PRIME_NUMBER_2 * z + PRIME_NUMBER_3 * t)
  {
    var s := x + PRIME_NUMBER * y + PRIME_NUMBER_2 * z;
    var m := IntMul(PRIME_NUMBER_3, t);
    WrapAddInner(s, m);
    WrapAddInner(PRIME_NUMBER_3 * t, s);
    IntAdd(Index3d(x, y, z), m)
  }

  // ---------------------------------------------------------------------------
  // The unit noise functions.
  // ---------------------------------------------------------------------------

  /** The noise word at a 1D position: the SquirrelNoise5 hash itself, from which both
      the position and the seed can be recovered. */
  function Get1dNoiseUnit(position: int32, seed: uint32): (r: uint32)
    ensures r == SquirrelNoise5(position, seed)
    ensures PositionOf(r, seed) == position
    ensures SeedOf(r, position) == seed
  {
    PositionOfNoise(position, seed);
    SeedOfNoise(position, seed);
    SquirrelNoise5(position, seed)
  }

  /** The noise word at a 2D position: the 1D noise at the exact fold wrapped once, which
      the hash gives back. */
  function Get2dNoiseUnit(x: int32, y: int32, seed: uint32): (r: uint32)
    ensures r == Get1dNoiseUnit(Wrap(x + PRIME_NUMBER * y), seed)
    ensures PositionOf(r, seed) == Wrap(x + PRIME_NUMBER * y)
  {
    Get1dNoiseUnit(Index2d(x, y), seed)
  }

  /** The noise word at a 3D position: the 1D noise at the exact fold wrapped once. */
  function Get3dNoiseUnit(x: int32, y: int32, z: int32, seed: uint32): (r: uint32)
    ensures r == Get1dNoiseUnit(Wrap(x + PRIME_NUMBER * y + PRIME_NUMBER_2 * z), seed)
    ensures PositionOf(r, seed) == Wrap(x + PRIME_NUMBER * y + PRIME_NUMBER_2 * z)
  {
    Get1dNoiseUnit(Index3d(x, y, z), seed)
  }

  /** The noise word at a 4D position: the 1D noise at the exact fold wrapped once. */
  function Get4dNoiseUnit(x: int32, y: int32, z: int32, t: int32, seed: uint32): (r: uint32)
    ensures r == Get1dNoiseUnit(Wrap(x + PRIME_NUMBER * y + PRIME_NUMBER_2 * z + PRIME_NUMBER_3 * t), seed)
    ensures PositionOf(r, seed) == Wrap(x + PRIME_NUMBER * y + PRIME_NUMBER_2 * z + PRIME_NUMBER_3 * t)
  {
    Get1dNoiseUnit(Index4d(x, y, z, t), seed)
  }

  /** The 1D noise is one-to-one in the position for a fixed seed, and in the seed for a fixed position. */
  lemma Get1dNoiseUnitInjective(p1: int32, p2: int32, s1: uint32, s2: uint32)
    ensures Get1dNoiseUnit(p1, s1) == Get1dNoiseUnit(p2, s1) <==> p1 == p2
    ensures Get1dNoiseUnit(p1, s1) == Get1dNoiseUnit(p1, s2) <==> s1 == s2
  {
    NoiseInjectiveInPosition(p1, p2, s1);
    NoiseInjectiveInSeed(p1, s1, s2);
  }

  /** A zero last coordinate gives the noise of the lower dimension. */
  lemma TrailingZeroCoordinate(x: int32, y: int32, z: int32, seed: uint32)
    ensures Get2dNoiseUnit(x, 0, seed) == Get1dNoiseUnit(x, seed)
    ensures Get3dNoiseUnit(x, y, 0, seed) == Get2dNoiseUnit(x, y, seed)
    ensures Get4dNoiseUnit(x, y, z, 0, seed) == Get3dNoiseUnit(x, y, z, seed)
  {
    assert Index2d(x, 0) == Wrap(x);
    assert Index3d(x, y, 0) == Wrap(x + PRIME_NUMBER * y) == Index2d(x, y);
    assert Index4d(x, y, z, 0) == Wrap(x + PRIME_NUMBER * y + PRIME_NUMBER_2 * z) == Index3d(x, y, z);
  }

  /** Two 2D positions share a noise word exactly when their exact folds agree modulo 2^32. */
  lemma Get2dNoiseUnitCollision(x1: int32, y1: int32, x2: int32, y2: int32, seed: uint32)
    ensures Get2dNoiseUnit(x1, y1, seed) == Get2dNoiseUnit(x2, y2, seed)
        <==> (x1 + PRIME_NUMBER * y1) % TWO_TO_32 == (x2 + PRIME_NUMBER * y2) % TWO_TO_32
  {
    NoiseInjectiveInPosition(Index2d(x1, y1), Index2d(x2, y2), seed);
    WrapEqual(x1 + PRIME_NUMBER * y1, x2 + PRIME_NUMBER * y2);
  }

  /** Two 3D positions share a noise word exactly when their exact folds agree modulo 2^32. */
  lemma Get3dNoiseUnitCollision(x1: int32, y1: int32, z1: int32, x2: int32, y2: int32, z2: int32, seed: uint32)
    ensures Get3dNoiseUnit(x1, y1, z1, seed) == Get3dNoiseUnit(x2, y2, z2, seed)
        <==> ((x1 + PRIME_NUMBER * y1 + PRIME_NUMBER_2 * z1) % TWO_TO_32
              == (x2 + PRIME_NUMBER * y2 + PRIME_NUMBER_2 * z2) % TWO_TO_32)
  {
    NoiseInjectiveInPosition(Index3d(x1, y1, z1), Index3d(x2, y2, z2), seed);
    WrapEqual(x1 + PRIME_NUMBER * y1 + PRIME_NUMBER_2 * z1, x2 + PRIME_NUMBER * y2 + PRIME_NUMBER_2 * z2);
  }

  /** Two 4D positions share a noise word exactly when their exact folds agree modulo 2^32. */
  lemma Get4dNoiseUnitCollision(x1: int32, y1: int32, z1: int32, t1: int32,
                                x2: int32, y2: int32, z2: int32, t2: int32, seed: uint32)
    ensures Get4dNoiseUnit(x1, y1, z1, t1, seed) == Get4dNoiseUnit(x2, y2, z2, t2, seed)
        <==> ((x1 + PRIME_NUMBER * y1 + PRIME_NUMBER_2 * z1 + PRIME_NUMBER_3 * t1) % TWO_TO_32
              == (x2 + PRIME_NUMBER * y2 + PRIME_NUMBER_2 * z2 + PRIME_NUMBER_3 * t2) % TWO_TO_32)
  {
    NoiseInjectiveInPosition(Index4d(x1, y1, z1, t1), Index4d(x2, y2, z2, t2), seed);
    WrapEqual(x1 + PRIME_NUMBER * y1 + PRIME_NUMBER_2 * z1 + PRIME_NUMBER_3 * t1,
              x2 + PRIME_NUMBER * y2 + PRIME_NUMBER_2 * z2 + PRIME_NUMBER_3 * t2);
  }

  /** `(a + p * Wrap(c - 1)) ≡ (b + p * c)` modulo 2^32 when `a ≡ b + p`: one step back along a
      coordinate with multiplier `p` is undone by `p` steps forward along x. */
  lemma StepBackCongruent(a: int, b: int, p: int, c: int)
    requires a % TWO_TO_32 == (b + p) % TWO_TO_32
    ensures (a + p * Wrap(c - 1)) % TWO_TO_32 == (b + p * c) % TWO_TO_32
  {
    ModMulCongruent(Wrap(c - 1), c - 1, p);
    ModAddCongruent(p * Wrap(c - 1), p * (c - 1), a);
    ModAddCongruent(a, b + p, p * (c - 1));
    assert b + p + p * (c - 1) == b + p * c;
  }

  /** Aliasing along y: moving one step down in y and PRIME_NUMBER steps right in x gives the same word. */
  lemma Get2dNoiseUnitAliasing(x: int32, y: int32, seed: uint32)
    ensures Get2dNoiseUnit(IntAdd(x, PRIME_NUMBER), IntSub(y, 1), seed) == Get2dNoiseUnit(x, y, seed)
  {
    Index2dStepBack(x, y);
  }

  lemma Index2dStepBack(x: int32, y: int32)
    ensures Index2d(IntAdd(x, PRIME_NUMBER), IntSub(y, 1)) == Index2d(x, y)
  {
    var a, b := IntAdd(x, PRIME_NUMBER), IntSub(y, 1);
    assert a % TWO_TO_32 == (x + PRIME_NUMBER) % TWO_TO_32;
    assert b == Wrap(y - 1);
    StepBackCongruent(a, x, PRIME_NUMBER, y);
    WrapEqual(a + PRIME_NUMBER * b, x + PRIME_NUMBER * y);
    assert Index2d(a, b) == Wrap(a + PRIME_NUMBER * b);
  }

  /** Aliasing along z: one step down in z and PRIME_NUMBER_2 steps right in x give the same word. */
  lemma Get3dNoiseUnitAliasing(x: int32, y: int32, z: int32, seed: uint32)
    ensures Get3dNoiseUnit(IntAdd(x, PRIME_NUMBER_2), y, IntSub(z, 1), seed) == Get3dNoiseUnit(x, y, z, seed)
  {
    Index3dStepBack(x, y, z);
  }

  lemma Index3dStepBack(x: int32, y: int32, z: int32)
    ensures Index3d(IntAdd(x, PRIME_NUMBER_2), y, IntSub(z, 1)) == Index3d(x, y, z)
  {
    var a, c := IntAdd(x, PRIME_NUMBER_2), IntSub(z, 1);
    var moved := a + PRIME_NUMBER * y + PRIME_NUMBER_2 * c;
    var here := x + PRIME_NUMBER * y + PRIME_NUMBER_2 * z;
    Fold3dStepBack(x, y, z);
    WrapEqual(moved, here);
    assert Index3d(a, y, c) == Wrap(moved);
    assert Index3d(x, y, z) == Wrap(here);
  }

  lemma Fold3dStepBack(x: int32, y: int32, z: int32)
    ensures (IntAdd(x, PRIME_NUMBER_2) + PRIME_NUMBER * y + PRIME_NUMBER_2 * IntSub(z, 1)) % TWO_TO_32
         == (x + PRIME_NUMBER * y + PRIME_NUMBER_2 * z) % TWO_TO_32
  {
    var a := IntAdd(x, PRIME_NUMBER_2);
    ModAddCongruent(a, x + PRIME_NUMBER_2, PRIME_NUMBER * y);
    StepBackCongruent(a + PRIME_NUMBER * y, x + PRIME_NUMBER * y, PRIME_NUMBER_2, z);
  }

  /** Aliasing along t: one step down in t and PRIME_NUMBER_3 steps right in x give the same word. */
  lemma Get4dNoiseUnitAliasing(x: int32, y: int32, z: int32, t: int32, seed: uint32)
    ensures Get4dNoiseUnit(IntAdd(x, PRIME_NUMBER_3), y, z, IntSub(t, 1), seed) == Get4dNoiseUnit(x, y, z, t, seed)
  {
    Index4dStepBack(x, y, z, t);
  }

  lemma Index4dStepBack(x: int32, y: int32, z: int32, t: int32)
    ensures Index4d(IntAdd(x, PRIME_NUMBER_3), y, z, IntSub(t, 1)) == Index4d(x, y, z, t)
  {
    var a, d := IntAdd(x, PRIME_NUMBER_3), IntSub(t, 1);
    var moved := a + PRIME_NUMBER * y + PRIME_NUMBER_2 * z + PRIME_NUMBER_3 * d;
    var here := x + PRIME_NUMBER * y + PRIME_NUMBER_2 * z + PRIME_NUMBER_3 * t;
    Fold4dStepBack(x, y, z, t);
    WrapEqual(moved, here);
    assert Index4d(a, y, z, d) == Wrap(moved);
    assert Index4d(x, y, z, t) == Wrap(here);
  }

  lemma Fold4dStepBack(x: int32, y: int32, z: int32, t: int32)
    ensures (IntAdd(x, PRIME_NUMBER_3) + PRIME_NUMBER * y + PRIME_NUMBER_2 * z + PRIME_NUMBER_3 * IntSub(t, 1)) % TWO_TO_32
         == (x + PRIME_NUMBER * y + PRIME_NUMBER_2 * z + PRIME_NUMBER_3 * t) % TWO_TO_32
  {
    var a := IntAdd(x, PRIME_NUMBER_3);
    var rest := PRIME_NUMBER * y + PRIME_NUMBER_2 * z;
    ModAddCongruent(a, x + PRIME_NUMBER_3, rest);
    StepBackCongruent(a + rest, x + rest, PRIME_NUMBER_3, t);
  }

  // ---------------------------------------------------------------------------
  // The `(int)` reinterpretation used by the signed variants.
  // ---------------------------------------------------------------------------

  /** `(int)Get1dNoiseUnit(...)`: the same 32 bits read as a two's-complement `int`. */
  function Get1dNoiseSigned(position: int32, seed: uint32): (r: int32)
    ensures ToUnsigned(r) == Get1dNoiseUnit(position, seed)
    ensures r < 0 <==> TWO_TO_31 <= Get1dNoiseUnit(position, seed)
  {
    UnsignedOfSigned(Get1dNoiseUnit(position, seed));
    ToSigned(Get1dNoiseUnit(position, seed))
  }

  /** `(int)Get2dNoiseUnit(...)`. */
  function Get2dNoiseSigned(x: int32, y: int32, seed: uint32): (r: int32)
    ensures ToUnsigned(r) == Get2dNoiseUnit(x, y, seed)
    ensures r < 0 <==> TWO_TO_31 <= Get2dNoiseUnit(x, y, seed)
  {
    UnsignedOfSigned(Get2dNoiseUnit(x, y, seed));
    ToSigned(Get2dNoiseUnit(x, y, seed))
  }

  /** `(int)Get3dNoiseUnit(...)`. */
  function Get3dNoiseSigned(x: int32, y: int32, z: int32, seed: uint32): (r: int32)
    ensures ToUnsigned(r) == Get3dNoiseUnit(x, y, z, seed)
    ensures r < 0 <==> TWO_TO_31 <= Get3dNoiseUnit(x, y, z, seed)
  {
    UnsignedOfSigned(Get3dNoiseUnit(x, y, z, seed));
    ToSigned(Get3dNoiseUnit(x, y, z, seed))
  }

  /** `(int)Get4dNoiseUnit(...)`. */
  function Get4dNoiseSigned(x: int32, y: int32, z: int32, t: int32, seed: uint32): (r: int32)
    ensures ToUnsigned(r) == Get4dNoiseUnit(x, y, z, t, seed)
    ensures r < 0 <==> TWO_TO_31 <= Get4dNoiseUnit(x, y, z, t, seed)
  {
    UnsignedOfSigned(Get4dNoiseUnit(x, y, z, t, seed));
    ToSigned(Get4dNoiseUnit(x, y, z, t, seed))
  }
}
