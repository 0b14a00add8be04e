/**
 * The SquirrelNoise5 bit-mixing hash: an `int` position and a `uint` seed
 * are scrambled into a `uint` by a fixed chain of wrapping multiplies, adds
 * and xor-shifts.
 *
 * Every link of the chain is a bijection on 32-bit words: the multipliers
 * are odd and so have inverses modulo 2^32, adding a constant is undone by
 * subtracting it, and `w ^ (w >> k)` is undone by xoring in the further
 * shifts by 2k, 3k, ...  This module writes the inverse chain down and
 * proves that, for a fixed seed, the hash is a bijection from positions to
 * words, and for a fixed position, a bijection from seeds to words.
 */
module SquirrelNoise {
  import opened Words

  const SQ5_BIT_NOISE1: uint32 := 0xd2a80a3f
  const SQ5_BIT_NOISE2: uint32 := 0xa884f197
  const SQ5_BIT_NOISE3: uint32 := 0x6C736F4B
  const SQ5_BIT_NOISE4: uint32 := 0xB79F3ABB
  const SQ5_BIT_NOISE5: uint32 := 0x1b56c4f5

  /** Multiplicative inverses modulo 2^32 of the three odd multipliers. */
  const SQ5_BIT_NOISE1_INVERSE: uint32 := 0xa30ae5bf
  const SQ5_BIT_NOISE3_INVERSE: uint32 := 0xcf3c2263
  const SQ5_BIT_NOISE5_INVERSE: uint32 := 0x28e0c75d

  // ---------------------------------------------------------------------------
  // The xor-shift steps.
  // ---------------------------------------------------------------------------

  /** The right-shift amounts the hash uses. */
  predicate IsHashShift(k: nat) {
    k == 9 || k == 11 || k == 13 || k == 15 || k == 17
  }

  /** `b ^ (b >> k)` on the 32 bits of a word, with a logical shift. */
  function XorShiftBits(b: bv32, k: nat): bv32
    requires IsHashShift(k)
  {
    if k == 9 then b ^ (b >> 9)
    else if k == 11 then b ^ (b >> 11)
    else if k == 13 then b ^ (b >> 13)
    else if k == 15 then b ^ (b >> 15)
    else b ^ (b >> 17)
  }

  /** The inverse of `XorShiftBits(·, k)`: xor in every multiple of `k` below 32. */
  function UnXorShiftBits(b: bv32, k: nat): bv32
    requires IsHashShift(k)
  {
    if k == 9 then b ^ (b >> 9) ^ (b >> 18) ^ (b >> 27)
    else if k == 11 then b ^ (b >> 11) ^ (b >> 22)
    else if k == 13 then b ^ (b >> 13) ^ (b >> 26)
    else if k == 15 then b ^ (b >> 15) ^ (b >> 30)
    else b ^ (b >> 17)
  }

  lemma XorShiftBitsInverse(b: bv32, k: nat)
    requires IsHashShift(k)
    ensures UnXorShiftBits(XorShiftBits(b, k), k) == b
    ensures XorShiftBits(UnXorShiftBits(b, k), k) == b
  {
    if k == 9 {
      assert UnXorShiftBits(b ^ (b >> 9), 9) == b;
      assert XorShiftBits(b ^ (b >> 9) ^ (b >> 18) ^ (b >> 27), 9) == b;
    } else if k == 11 {
      assert UnXorShiftBits(b ^ (b >> 11), 11) == b;
      assert XorShiftBits(b ^ (b >> 11) ^ (b >> 22), 11) == b;
    } else if k == 13 {
      assert UnXorShiftBits(b ^ (b >> 13), 13) == b;
      assert XorShiftBits(b ^ (b >> 13) ^ (b >> 26), 13) == b;
    } else if k == 15 {
      assert UnXorShiftBits(b ^ (b >> 15), 15) == b;
      assert XorShiftBits(b ^ (b >> 15) ^ (b >> 30), 15) == b;
    } else {
      assert UnXorShiftBits(b ^ (b >> 17), 17) == b;
      assert XorShiftBits(b ^ (b >> 17), 17) == b;
    }
  }

  /** `w ^= (w >> k)` on a `uint`. */
  function XorShift(w: uint32, k: nat): uint32
    requires IsHashShift(k)
  {
    FromBits(XorShiftBits(Bits(w), k))
  }

  /** The inverse of `XorShift(·, k)` on a `uint`. */
  function UnXorShift(w: uint32, k: nat): uint32
    requires IsHashShift(k)
  {
    FromBits(UnXorShiftBits(Bits(w), k))
  }

  /** Each xor-shift step of the hash loses no bits: `UnXorShift` undoes it, and it undoes `UnXorShift`. */
  lemma XorShiftInverse(w: uint32, k: nat)
    requires IsHashShift(k)
    ensures UnXorShift(XorShift(w, k), k) == w
    ensures XorShift(UnXorShift(w, k), k) == w
  {
    var b := Bits(w);
    BitsOfFromBits(XorShiftBits(b, k));
    BitsOfFromBits(UnXorShiftBits(b, k));
    XorShiftBitsInverse(b, k);
    FromBitsOfBits(w);
  }

  // ---------------------------------------------------------------------------
  // The mangling steps.
  // ---------------------------------------------------------------------------

  /** One line of the mangling, acting on the running word: `*= factor` (with the
      factor's inverse modulo 2^32 alongside), `+= addend`, or `^= (w >> shift)`. */
  datatype Step =
    | MulBy(factor: uint32, inverse: uint32)
    | AddTo(addend: uint32)
    | XorShiftBy(shift: nat)

  /** A step that some other step undoes. */
  predicate Invertible(s: Step) {
    match s
    case MulBy(c, d) => (c * d) % TWO_TO_32 == 1
    case AddTo(_) => true
    case XorShiftBy(k) => IsHashShift(k)
  }

  predicate AllInvertible(steps: seq<Step>) {
    forall i :: 0 <= i < |steps| ==> Invertible(steps[i])
  }

  function Apply(s: Step, m: uint32): uint32
    requires Invertible(s)
  {
    match s
    case MulBy(c, _) => UintMul(m, c)
    case AddTo(c) => UintAdd(m, c)
    case XorShiftBy(k) => XorShift(m, k)
  }

  /** The step run backwards. */
  function Undo(s: Step, r: uint32): uint32
    requires Invertible(s)
  {
    match s
    case MulBy(_, d) => UintMul(r, d)
    case AddTo(c) => UintSub(r, c)
    case XorShiftBy(k) => UnXorShift(r, k)
  }

  /** Each step loses no bits: `Undo` reverses `Apply`, and `Apply` reverses `Undo`. */
  lemma StepInverse(s: Step, m: uint32)
    requires Invertible(s)
    ensures Undo(s, Apply(s, m)) == m
    ensures Apply(s, Undo(s, m)) == m
  {
    match s
    case MulBy(c, d) =>
      var k := (c * d) / TWO_TO_32;
      assert c * d == TWO_TO_32 * k + 1;
      assert d * c == c * d;
      UintMulInverse(m, c, d, k);
      UintMulInverse(m, d, c, k);
    case AddTo(c) =>
      UintAddInverse(m, c);
    case XorShiftBy(k) =>
      XorShiftInverse(m, k);
  }

  /** The steps applied in order. */
  function Run(m: uint32, steps: seq<Step>): uint32
    requires AllInvertible(steps)
    decreases |steps|
  {
    if |steps| == 0 then m else Run(Apply(steps[0], m), steps[1..])
  }

  /** The steps undone in reverse order. */
  function UnRun(r: uint32, steps: seq<Step>): uint32
    requires AllInvertible(steps)
    decreases |steps|
  {
    if |steps| == 0 then r else Undo(steps[0], UnRun(r, steps[1..]))
  }

  /** Undoing a run of steps recovers the word it started from. */
  lemma {:induction false} UnRunOfRun(m: uint32, steps: seq<Step>)
    requires AllInvertible(steps)
    ensures UnRun(Run(m, steps), steps) == m
    decreases |steps|
  {
    if |steps| > 0 {
      var m' := Apply(steps[0], m);
      UnRunOfRun(m', steps[1..]);
      StepInverse(steps[0], m);
    }
  }

  /** Running the steps after undoing them gives back the word. */
  lemma {:induction false} RunOfUnRun(r: uint32, steps: seq<Step>)
    requires AllInvertible(steps)
    ensures Run(UnRun(r, steps), steps) == r
    decreases |steps|
  {
    if |steps| > 0 {
      var u := UnRun(r, steps[1..]);
      StepInverse(steps[0], u);
      RunOfUnRun(r, steps[1..]);
    }
  }

  // ---------------------------------------------------------------------------
  // The hash and its inverse.
  // ---------------------------------------------------------------------------

  /** The first multiplication, by the position, with its inverse. */
  const MULTIPLY_POSITION: Step := MulBy(SQ5_BIT_NOISE1, SQ5_BIT_NOISE1_INVERSE)

  /** The part of the mangling after the seed is added: everything from the first xor-shift on. */
  const AVALANCHE: seq<Step> := [
    XorShiftBy(9),
    AddTo(SQ5_BIT_NOISE2),
    XorShiftBy(11),
    MulBy(SQ5_BIT_NOISE3, SQ5_BIT_NOISE3_INVERSE),
    XorShiftBy(13),
    AddTo(SQ5_BIT_NOISE4),
    XorShiftBy(15),
    MulBy(SQ5_BIT_NOISE5, SQ5_BIT_NOISE5_INVERSE),
    XorShiftBy(17)
  ]

  /** Every step of the hash can be undone: the paired constants really are inverses. */
  lemma HashStepsInvertible()
    ensures Invertible(MULTIPLY_POSITION)
    ensures AllInvertible(AVALANCHE)
  {
  }

  function Avalanche(m2: uint32): uint32 {
    HashStepsInvertible();
    Run(m2, AVALANCHE)
  }

  /** The hash: reinterpret the position's bits as a `uint`, multiply, add the seed, avalanche.
      Running the avalanche backwards from the hash gives back `(uint)position * SQ5_BIT_NOISE1 + seed`. */
  function SquirrelNoise5(position: int32, seed: uint32): (r: uint32)
    ensures Unavalanche(r) == UintAdd(UintMul(ToUnsigned(position), SQ5_BIT_NOISE1), seed)
  {
    HashStepsInvertible();
    var m1 := Apply(MULTIPLY_POSITION, ToUnsigned(position));
    var m2 := UintAdd(m1, seed);
    UnavalancheOfAvalanche(m2);
    Avalanche(m2)
  }

  /** `Avalanche` run backwards, step by step. */
  function Unavalanche(r: uint32): uint32 {
    HashStepsInvertible();
    UnRun(r, AVALANCHE)
  }

  /** Running the avalanche backwards recovers its input. */
  lemma UnavalancheOfAvalanche(m2: uint32)
    ensures Unavalanche(Avalanche(m2)) == m2
  {
    HashStepsInvertible();
    UnRunOfRun(m2, AVALANCHE);
  }

  /** Running the avalanche forwards after it was run backwards gives back the word. */
  lemma AvalancheOfUnavalanche(r: uint32)
    ensures Avalanche(Unavalanche(r)) == r
  {
    HashStepsInvertible();
    RunOfUnRun(r, AVALANCHE);
  }

  /** The one position that the hash sends to `r` under `seed`. */
  function PositionOf(r: uint32, seed: uint32): (position: int32)
    ensures SquirrelNoise5(position, seed) == r
  {
    HashStepsInvertible();
    var m1 := UintSub(Unavalanche(r), seed);
    var bits := Undo(MULTIPLY_POSITION, m1);
    UnsignedOfSigned(bits);
    StepInverse(MULTIPLY_POSITION, m1);
    UintAddInverse(Unavalanche(r), seed);
    AvalancheOfUnavalanche(r);
    ToSigned(bits)
  }

  /** The one seed that the hash sends to `r` at `position`. */
  function SeedOf(r: uint32, position: int32): (seed: uint32)
    ensures SquirrelNoise5(position, seed) == r
  {
    HashStepsInvertible();
    var m1 := Apply(MULTIPLY_POSITION, ToUnsigned(position));
    AvalancheOfUnavalanche(r);
    UintAddInverse(Unavalanche(r), m1);
    UintSub(Unavalanche(r), m1)
  }

  /** A hashed word gives its position back: the hash loses no information about the position. */
  lemma PositionOfNoise(position: int32, seed: uint32)
    ensures PositionOf(SquirrelNoise5(position, seed), seed) == position
  {
    HashStepsInvertible();
    var m1 := Apply(MULTIPLY_POSITION, ToUnsigned(position));
    UnavalancheOfAvalanche(UintAdd(m1, seed));
    UintAddInverse(m1, seed);
    StepInverse(MULTIPLY_POSITION, ToUnsigned(position));
    SignedOfUnsigned(position);
  }

  /** A hashed word gives its seed back: the hash loses no information about the seed. */
  lemma SeedOfNoise(position: int32, seed: uint32)
    ensures SeedOf(SquirrelNoise5(position, seed), position) == seed
  {
    HashStepsInvertible();
    var m1 := Apply(MULTIPLY_POSITION, ToUnsigned(position));
    UnavalancheOfAvalanche(UintAdd(m1, seed));
    assert UintAdd(m1, seed) == UintAdd(seed, m1);
    UintAddInverse(seed, m1);
  }

  /** For a fixed seed, distinct positions hash to distinct words. */
  lemma NoiseInjectiveInPosition(p1: int32, p2: int32, seed: uint32)
    ensures SquirrelNoise5(p1, seed) == SquirrelNoise5(p2, seed) <==> p1 == p2
  {
    PositionOfNoise(p1, seed);
    PositionOfNoise(p2, seed);
  }

  /** For a fixed position, distinct seeds hash to distinct words. */
  lemma NoiseInjectiveInSeed(position: int32, s1: uint32, s2: uint32)
    ensures SquirrelNoise5(position, s1) == SquirrelNoise5(position, s2) <==> s1 == s2
  {
    SeedOfNoise(position, s1);
    SeedOfNoise(position, s2);
  }

  /** Every word is the hash of exactly one position under any seed. */
  lemma NoiseSurjectiveInPosition(r: uint32, seed: uint32)
    ensures exists position: int32 :: SquirrelNoise5(position, seed) == r
  {
    var position := PositionOf(r, seed);
    assert SquirrelNoise5(position, seed) == r;
  }

  /** An xor-shift of a word given by its bits is the xor-shift of those bits. */
  lemma XorShiftOfBits(b: bv32, k: nat)
    requires IsHashShift(k)
    ensures XorShift(FromBits(b), k) == FromBits(XorShiftBits(b, k))
  {
    BitsOfFromBits(b);
  }

  /** Bit-exact reference value for position 0 and seed 0. */
  lemma NoiseAtOrigin()
    ensures SquirrelNoise5(0, 0) == 0x16791e00
  {
    HashStepsInvertible();
    assert Apply(MULTIPLY_POSITION, ToUnsigned(0)) == 0;
    OriginShift9();
    OriginShift11();
    OriginShift13();
    OriginShift15();
    OriginShift17();
  }

  /** A run is its first step followed by the run of the rest. */
  lemma RunStep(m: uint32, steps: seq<Step>, m': uint32)
    requires AllInvertible(steps) && |steps| > 0
    requires Apply(steps[0], m) == m'
    ensures Run(m, steps) == Run(m', steps[1..])
  {
  }

  // The avalanche of position 0 under seed 0, an xor-shift and the step after it at a time.

  lemma OriginShift9()
    ensures AllInvertible(AVALANCHE)
    ensures Run(0, AVALANCHE) == Run(0xa884f197, AVALANCHE[2..])
  {
    HashStepsInvertible();
    XorShiftOfBits(0, 9);
    RunStep(0, AVALANCHE, 0);
    RunStep(0, AVALANCHE[1..], 0xa884f197);
  }

  lemma OriginShift11()
    ensures AllInvertible(AVALANCHE)
    ensures Run(0xa884f197, AVALANCHE[2..]) == Run(0x865ad4a3, AVALANCHE[4..])
  {
    HashStepsInvertible();
    XorShiftOfBits(0xa884f197, 11);
    RunStep(0xa884f197, AVALANCHE[2..], 0xa891e109);
    OriginMultiply3();
  }

  lemma OriginMultiply3()
    ensures AllInvertible(AVALANCHE)
    ensures Run(0xa891e109, AVALANCHE[3..]) == Run(0x865ad4a3, AVALANCHE[4..])
  {
    HashStepsInvertible();
    RunStep(0xa891e109, AVALANCHE[3..], 0x865ad4a3);
  }

  lemma OriginShift13()
    ensures AllInvertible(AVALANCHE)
    ensures Run(0x865ad4a3, AVALANCHE[4..]) == Run(0x3dfe2130, AVALANCHE[6..])
  {
    HashStepsInvertible();
    XorShiftOfBits(0x865ad4a3, 13);
    RunStep(0x865ad4a3, AVALANCHE[4..], 0x865ee675);
    RunStep(0x865ee675, AVALANCHE[5..], 0x3dfe2130);
  }

  lemma OriginShift15()
    ensures AllInvertible(AVALANCHE)
    ensures Run(0x3dfe2130, AVALANCHE[6..]) == Run(0x1679153c, AVALANCHE[8..])
  {
    HashStepsInvertible();
    XorShiftOfBits(0x3dfe2130, 15);
    RunStep(0x3dfe2130, AVALANCHE[6..], 0x3dfe5acc);
    OriginMultiply5();
  }

  lemma OriginMultiply5()
    ensures AllInvertible(AVALANCHE)
    ensures Run(0x3dfe5acc, AVALANCHE[7..]) == Run(0x1679153c, AVALANCHE[8..])
  {
    HashStepsInvertible();
    RunStep(0x3dfe5acc, AVALANCHE[7..], 0x1679153c);
  }

  lemma OriginShift17()
    ensures AllInvertible(AVALANCHE)
    ensures Run(0x1679153c, AVALANCHE[8..]) == 0x16791e00
  {
    HashStepsInvertible();
    XorShiftOfBits(0x1679153c, 17);
    RunStep(0x1679153c, AVALANCHE[8..], 0x16791e00);
  }
}
