/**
 * `NoiseBasedRandom`: a sequential generator on top of the 1D noise.  Its
 * whole state is a seed and an `int` cursor; every draw reads the noise word
 * at the cursor and then increments the cursor (`position++`, so the word at
 * the old position is used, and the cursor wraps from int.MaxValue to
 * int.MinValue).
 *
 * The C# class mutates its cursor in place; here a generator is an immutable
 * value and every draw returns the value drawn together with the generator
 * it leaves behind.
 */
module NoiseRandom {
  import opened Words
  import opened SquirrelNoise
  import opened NoiseBasedRNG

  /** The generator's two fields. */
  datatype NoiseBasedRandom = NoiseBasedRandom(position: int32, seed: uint32)

  /** The outcome of one draw: the value drawn and the generator after it. */
  datatype Draw<T> = Draw(value: T, next: NoiseBasedRandom)

  /** The one exception the modelled code can raise. */
  datatype Error = DivideByZero

  datatype Result<T> = Success(value: T) | Failure(error: Error)

  // ---------------------------------------------------------------------------
  // Construction and the properties.
  // ---------------------------------------------------------------------------

  /** The `CurrentPosition` getter: the cursor, which together with the seed is the
      generator's whole state. */
  function CurrentPosition(g: NoiseBasedRandom): (p: int32)
    ensures g == NoiseBasedRandom(p, g.seed)
  {
    g.position
  }

  /** The `Seed` getter: the seed, which together with the cursor is the generator's
      whole state. */
  function Seed(g: NoiseBasedRandom): (s: uint32)
    ensures g == NoiseBasedRandom(g.position, s)
  {
    g.seed
  }

  /** The `CurrentPosition` setter: moves the cursor and keeps the seed. */
  function SetCurrentPosition(g: NoiseBasedRandom, position: int32): (h: NoiseBasedRandom)
    ensures CurrentPosition(h) == position
    ensures Seed(h) == Seed(g)
  {
    g.(position := position)
  }

  /** Setting the cursor to what the getter reads changes nothing, and a second setting
      overrides the first. */
  lemma CurrentPositionRoundTrip(g: NoiseBasedRandom, p: int32, q: int32)
    ensures SetCurrentPosition(g, CurrentPosition(g)) == g
    ensures SetCurrentPosition(SetCurrentPosition(g, p), q) == SetCurrentPosition(g, q)
  {
  }

  /** The `(uint seed, int startPosition = 0)` constructor: the getters read both arguments back. */
  function Create(seed: uint32, startPosition: int32): (g: NoiseBasedRandom)
    ensures Seed(g) == seed
    ensures CurrentPosition(g) == startPosition
  {
    NoiseBasedRandom(startPosition, seed)
  }

  /** The parameterless constructor.  The seed comes from the field initializer,
      `(uint)(ticks & 0x0000FFFF)`, with the clock's tick count passed in; for a
      two's-complement `long` that mask is the Euclidean remainder modulo 2^16. */
  function CreateDefault(ticks: int): (g: NoiseBasedRandom)
    ensures CurrentPosition(g) == 0
    ensures Seed(g) < 0x1_0000
    ensures 0 <= ticks < 0x1_0000 ==> Seed(g) == ticks
  {
    NoiseBasedRandom(0, ticks % 0x1_0000)
  }

  /** Two default generators are equal exactly when their tick counts agree modulo 2^16:
      clocks 65536 ticks apart produce the same sequence. */
  lemma CreateDefaultCollision(t1: int, t2: int)
    ensures CreateDefault(t1) == CreateDefault(t2) <==> t1 % 0x1_0000 == t2 % 0x1_0000
  {
  }

  // ---------------------------------------------------------------------------
  // Drawing.
  // ---------------------------------------------------------------------------

  /** `position++`: the cursor moves one step, wrapping at int.MaxValue; the seed is untouched. */
  function Advance(g: NoiseBasedRandom): (h: NoiseBasedRandom)
    ensures Seed(h) == Seed(g)
    ensures CurrentPosition(g) < INT_MAX ==> CurrentPosition(h) == CurrentPosition(g) + 1
    ensures CurrentPosition(g) == INT_MAX ==> CurrentPosition(h) == INT_MIN
  {
    g.(position := IntIncrement(g.position))
  }

  /** The noise word a draw consumes: the hash of the cursor, before the cursor moves;
      it gives back both the cursor and the seed. */
  function Unit(g: NoiseBasedRandom): (r: uint32)
    ensures r == SquirrelNoise5(g.position, g.seed)
    ensures PositionOf(r, g.seed) == g.position
    ensures SeedOf(r, g.position) == g.seed
  {
    Get1dNoiseUnit(g.position, g.seed)
  }

  /** `Value`: the word it scales into a float, and the generator one step on. */
  function Value(g: NoiseBasedRandom): (d: Draw<uint32>)
    ensures d.value == SquirrelNoise5(CurrentPosition(g), Seed(g))
    ensures Seed(d.next) == Seed(g)
    ensures CurrentPosition(d.next) == IntIncrement(CurrentPosition(g))
  {
    Draw(Unit(g), Advance(g))
  }

  /** `Range(float min, float max)`: the word it scales into [min, max], and the generator one step on. */
  function RangeFloat(g: NoiseBasedRandom): (d: Draw<uint32>)
    ensures d.value == SquirrelNoise5(CurrentPosition(g), Seed(g))
    ensures Seed(d.next) == Seed(g)
    ensures CurrentPosition(d.next) == IntIncrement(CurrentPosition(g))
  {
    Draw(Unit(g), Advance(g))
  }

  // ---------------------------------------------------------------------------
  // `Range(int min, int max)`.
  // ---------------------------------------------------------------------------

  function Abs(x: int): int {
    if x < 0 then -x else x
  }

  /** C#'s `/` on `long`: the quotient truncated toward zero. */
  function LongDiv(a: int, b: int): int
    requires b != 0
  {
    var q := Abs(a) / Abs(b);
    if (a < 0) == (b < 0) then q else -q
  }

  /** C#'s `%` on `long`: what `LongDiv` leaves over, so it has the dividend's sign
      and a magnitude below the divisor's; for a non-negative dividend it is the
      Euclidean remainder. */
  function LongRem(a: int, b: int): (r: int)
    requires b != 0
    ensures 0 <= a ==> 0 <= r < Abs(b) && r == a % Abs(b)
    ensures a < 0 ==> -Abs(b) < r <= 0
  {
    TruncatedRemainder(a, b);
    a - b * LongDiv(a, b)
  }

  /** The truncated remainder is the Euclidean remainder of the magnitudes, signed like the dividend. */
  lemma TruncatedRemainder(a: int, b: int)
    requires b != 0
    ensures a - b * LongDiv(a, b) == if a < 0 then -(Abs(a) % Abs(b)) else Abs(a) % Abs(b)
  {
    var q := Abs(a) / Abs(b);
    var m := Abs(a) % Abs(b);
    assert Abs(a) == Abs(b) * q + m;
    if b < 0 {
      assert b * q == -(Abs(b) * q);
      assert b * -q == Abs(b) * q;
    }
  }

  /** Two `int`s are the same exactly when their difference wraps to 0. */
  lemma IntSubZero(max: int32, min: int32)
    ensures IntSub(max, min) == 0 <==> max == min
  {
    WrapEqual(max - min, 0);
  }

  /** The arithmetic of `Range(int, int)` on the drawn word `unit`:
      `min + (int)(unit % (max - min))`.  The subtraction is `int` arithmetic and
      wraps; `uint % int` is computed on `long`; a zero divisor throws.  The
      result lies in [min, max) whenever min < max, and for widths up to 2^31
      it is the textbook `min + unit % (max - min)`. */
  function RangeOfUnit(unit: uint32, min: int32, max: int32): (r: Result<int32>)
    ensures r.Failure? <==> min == max
    ensures min < max ==> r.Success? && min <= r.value < max
    ensures 0 < max - min <= TWO_TO_31 ==> r == Success(min + unit % (max - min))
  {
    var width := IntSub(max, min);
    IntSubZero(max, min);
    if width == 0 then Failure(DivideByZero)
    else
      var rem := LongRem(unit, width);
      Success(IntAdd(min, Wrap(rem)))
  }

  /** `Range(int min, int max)`: the cursor moves even when the modulo throws, because
      `position++` is evaluated before the division. */
  function Range(g: NoiseBasedRandom, min: int32, max: int32): (d: Draw<Result<int32>>)
    ensures d.value == RangeOfUnit(SquirrelNoise5(CurrentPosition(g), Seed(g)), min, max)
    ensures d.next == Advance(g)
    ensures d.value.Failure? <==> min == max
    ensures min < max ==> d.value.Success? && min <= d.value.value < max
  {
    Draw(RangeOfUnit(Unit(g), min, max), Advance(g))
  }

  // ---------------------------------------------------------------------------
  // Widths above 2^31.  The `int` subtraction `max - min` wraps once the width
  // exceeds int.MaxValue, so the divisor becomes the negative number
  // `width - 2^32` and `unit % divisor` only reaches `2^32 - width` values.
  // ---------------------------------------------------------------------------

  /** As written, a range wider than 2^31 only ever yields its first `2^32 - width` values;
      in particular its last value `max - 1` is never drawn. */
  lemma RangeOfUnitWideMissesTop(unit: uint32, min: int32, max: int32)
    requires TWO_TO_31 < max - min
    ensures RangeOfUnit(unit, min, max).Success?
    ensures RangeOfUnit(unit, min, max).value < min + (TWO_TO_32 - (max - min))
    ensures RangeOfUnit(unit, min, max).value != max - 1
  {
    var width := IntSub(max, min);
    assert width == max - min - TWO_TO_32;
    assert Abs(width) == TWO_TO_32 - (max - min);
  }

  /** As written, `Range(int.MinValue, int.MaxValue)` returns int.MinValue whatever the word. */
  lemma RangeOfUnitFullSpan(unit: uint32)
    ensures RangeOfUnit(unit, INT_MIN, INT_MAX) == Success(INT_MIN)
  {
    assert IntSub(INT_MAX, INT_MIN) == -1;
  }

  /** The evidently intended arithmetic: the width `max - min` taken in `long`, as the
      modulo already is, so that no width wraps. */
  function RangeOfUnitWide(unit: uint32, min: int32, max: int32): (r: Result<int32>)
    ensures r.Failure? <==> min == max
    ensures min < max ==> r.Success? && min <= r.value < max
  {
    if max == min then Failure(DivideByZero)
    else Success(Wrap(min + LongRem(unit, max - min)))
  }

  /** With the width taken in `long`, every value of a non-empty range is drawn by some word. */
  lemma RangeOfUnitWideReachesAll(min: int32, max: int32, v: int32)
    requires min <= v < max
    ensures RangeOfUnitWide(v - min, min, max) == Success(v)
  {
    ModOfSmaller(v - min, max - min);
    assert LongRem(v - min, max - min) == v - min;
  }

  /** A number below the divisor is its own remainder. */
  lemma ModOfSmaller(a: int, b: int)
    requires 0 <= a < b
    ensures a % b == a
  {
  }

  /** Where the `int` width does not wrap, the two versions agree. */
  lemma RangeOfUnitWideAgrees(unit: uint32, min: int32, max: int32)
    requires -TWO_TO_31 <= max - min <= TWO_TO_31
    ensures RangeOfUnitWide(unit, min, max) == RangeOfUnit(unit, min, max)
  {
    if max != min {
      var rem := LongRem(unit, max - min);
      assert Wrap(rem) == rem;
      assert Abs(IntSub(max, min)) == Abs(max - min);
      assert LongRem(unit, IntSub(max, min)) == rem;
    }
  }

  /** `Range(int min, int max)` with the width taken in `long`. */
  function RangeWide(g: NoiseBasedRandom, min: int32, max: int32): (d: Draw<Result<int32>>)
    ensures d.value == RangeOfUnitWide(SquirrelNoise5(CurrentPosition(g), Seed(g)), min, max)
    ensures d.next == Advance(g)
    ensures d.value.Failure? <==> min == max
    ensures min < max ==> d.value.Success? && min <= d.value.value < max
  {
    Draw(RangeOfUnitWide(Unit(g), min, max), Advance(g))
  }

  // ---------------------------------------------------------------------------
  // Sequences of draws.
  // ---------------------------------------------------------------------------

  /** The generator after `n` draws. */
  function After(g: NoiseBasedRandom, n: nat): NoiseBasedRandom
    decreases n
  {
    if n == 0 then g else After(Advance(g), n - 1)
  }

  /** After `n` draws the cursor has moved `n` steps, modulo 2^32, and the seed is unchanged. */
  lemma {:induction false} AfterMoves(g: NoiseBasedRandom, n: nat)
    ensures After(g, n) == NoiseBasedRandom(Wrap(g.position + n), g.seed)
    decreases n
  {
    if n > 0 {
      var h := Advance(g);
      assert h.position == Wrap(g.position + 1);
      AfterMoves(h, n - 1);
      WrapAddInner(g.position + 1, n - 1);
    }
  }

  /** The words that `n` successive draws consume, in order: draw `i` reads the
      word at the cursor the first `i` draws left behind. */
  function Units(g: NoiseBasedRandom, n: nat): (s: seq<uint32>)
    ensures |s| == n
  {
    seq(n, i requires 0 <= i < n => Unit(After(g, i)))
  }

  /** Draw `i` reads the noise at the start position plus `i`, wrapped. */
  lemma DrawsAreConsecutiveNoise(g: NoiseBasedRandom, n: nat)
    ensures After(g, n) == NoiseBasedRandom(Wrap(g.position + n), g.seed)
    ensures forall i :: 0 <= i < n ==> Units(g, n)[i] == Get1dNoiseUnit(Wrap(g.position + i), g.seed)
  {
    AfterMoves(g, n);
    forall i | 0 <= i < n
      ensures Units(g, n)[i] == Get1dNoiseUnit(Wrap(g.position + i), g.seed)
    {
      AfterMoves(g, i);
    }
  }

  /** One more draw moves the cursor once more. */
  lemma {:induction false} AfterStep(g: NoiseBasedRandom, n: nat)
    ensures After(g, n + 1) == Advance(After(g, n))
    decreases n
  {
    if n > 0 {
      AfterStep(Advance(g), n - 1);
    }
  }

  /** The mutable generator's view: draw `n` words in a loop, the cursor moving each time. */
  method DrawValues(g: NoiseBasedRandom, n: nat) returns (values: seq<uint32>, h: NoiseBasedRandom)
    ensures values == Units(g, n)
    ensures h == After(g, n)
    ensures Seed(h) == Seed(g)
  {
    values := [];
    h := g;
    var k := 0;
    while k < n
      invariant 0 <= k <= n
      invariant |values| == k
      invariant forall i :: 0 <= i < k ==> values[i] == Unit(After(g, i))
      invariant h == After(g, k)
    {
      var d := Value(h);
      AfterStep(g, k);
      values := values + [d.value];
      h := d.next;
      k := k + 1;
    }
    AfterMoves(g, n);
  }

  /** Replay: moving the cursor back to where it was reproduces the same draws. */
  lemma Replay(g: NoiseBasedRandom, n: nat, m: nat)
    ensures Units(SetCurrentPosition(After(g, n), CurrentPosition(g)), m) == Units(g, m)
  {
    DrawsAreConsecutiveNoise(g, n);
  }

  /** Resynchronisation: two generators with the same seed, whatever their histories,
      draw the same words once one takes the other's cursor. */
  lemma Resync(g: NoiseBasedRandom, h: NoiseBasedRandom, ng: nat, nh: nat, m: nat)
    requires Seed(g) == Seed(h)
    ensures Units(SetCurrentPosition(After(g, ng), CurrentPosition(After(h, nh))), m) == Units(After(h, nh), m)
  {
    DrawsAreConsecutiveNoise(g, ng);
    DrawsAreConsecutiveNoise(h, nh);
  }

  /** No word repeats within 2^32 consecutive draws, the length of the cursor's cycle. */
  lemma DrawsDistinct(g: NoiseBasedRandom, n: nat, i: nat, j: nat)
    requires n <= TWO_TO_32
    requires i < j < n
    ensures Units(g, n)[i] != Units(g, n)[j]
  {
    DrawsAreConsecutiveNoise(g, n);
    CursorsDistinct(g.position, i, j);
    NoiseInjectiveInPosition(Wrap(g.position + i), Wrap(g.position + j), g.seed);
  }

  /** Fewer than 2^32 steps never bring the cursor back to where it was. */
  lemma CursorsDistinct(p: int, i: nat, j: nat)
    requires i < j < TWO_TO_32
    ensures Wrap(p + i) != Wrap(p + j)
  {
    WrapEqual(p + i, p + j);
    assert p + j == (p + i) + (j - i);
    ModDifferent(p + i, j - i);
  }

  lemma ModDifferent(a: int, d: int)
    requires 0 < d < TWO_TO_32
    ensures a % TWO_TO_32 != (a + d) % TWO_TO_32
  {
    var q, r := a / TWO_TO_32, a % TWO_TO_32;
    if r + d < TWO_TO_32 {
      ModUnique(a + d, q, r + d);
    } else {
      ModUnique(a + d, q + 1, r + d - TWO_TO_32);
    }
  }

  /** Generators with different seeds at the same cursor draw different words. */
  lemma SeedsDiverge(g: NoiseBasedRandom, h: NoiseBasedRandom)
    requires CurrentPosition(g) == CurrentPosition(h)
    ensures Unit(g) == Unit(h) <==> Seed(g) == Seed(h)
  {
    NoiseInjectiveInSeed(g.position, g.seed, h.seed);
  }

  // ---------------------------------------------------------------------------
  // The scenarios of the package's tests.
  // ---------------------------------------------------------------------------

  /** A generator seeded 200 that drew three times (cursor 2, then 3) draws different words
      at 2 and 3; after it has drawn four times and takes the cursor of a twin that drew
      twice (cursor 2), the two draw the same word and land on the same generator. */
  lemma RandomValueScenario()
    ensures var a2 := After(Create(200, 0), 2);
            RangeFloat(a2).value != RangeFloat(RangeFloat(a2).next).value
    ensures var a := After(Create(200, 0), 4);
            var b := After(Create(200, 0), 2);
            CurrentPosition(b) == 2
            && RangeFloat(SetCurrentPosition(a, CurrentPosition(b))) == RangeFloat(b)
  {
    var g := Create(200, 0);
    AfterMoves(g, 2);
    AfterMoves(g, 4);
    ConsecutiveDrawsDiffer(After(g, 2));
  }

  /** A generator never draws the same word twice in a row. */
  lemma ConsecutiveDrawsDiffer(g: NoiseBasedRandom)
    ensures Value(g).value != Value(Value(g).next).value
  {
    CursorsDistinct(g.position, 0, 1);
    NoiseInjectiveInPosition(Wrap(g.position + 0), Wrap(g.position + 1), g.seed);
  }

  /** A generator seeded 200 draws `Range(20, 40)` as 20 plus the word at cursor 0 modulo 20,
      after which its cursor is at 1; a generator seeded 300 that drew once is also at 1, and
      there it draws a different word. */
  lemma RandomRangeScenario()
    ensures Range(Create(200, 0), 20, 40).value == Success(20 + SquirrelNoise5(0, 200) % 20)
    ensures 20 <= Range(Create(200, 0), 20, 40).value.value < 40
    ensures CurrentPosition(Range(Create(200, 0), 20, 40).next) == 1
    ensures var r3 := Value(Create(300, 0)).next;
            CurrentPosition(r3) == 1
            && Value(Range(Create(200, 0), 20, 40).next).value != Value(r3).value
  {
    var g := Create(200, 0);
    var unit := SquirrelNoise5(0, 200);
    assert Range(g, 20, 40).value == RangeOfUnit(unit, 20, 40);
    assert RangeOfUnit(unit, 20, 40) == Success(20 + unit % 20);
    NoiseInjectiveInSeed(1, 200, 300);
  }
}
