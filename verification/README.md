# NoiseBasedRNG in Dafny

A model of the noise-based random number generator of the Zodiark Unity
utilities. The model has two parts.

- The static `NoiseBasedRNG` class. It has the SquirrelNoise5 bit-mixing hash,
  which turns an `int` position and a `uint` seed into a `uint`. It also has
  the `GetNdNoiseUnit` functions, which fold 2, 3 or 4 integer coordinates
  into one `int` index with large primes and then hash that index.
- The `NoiseBasedRandom` class. It is a sequential generator: a seed plus an
  `int` cursor. Each draw reads the noise word at the cursor and then moves
  the cursor one step (`position++`).

The model is in four modules.

- `Words` (`words.dfy`) models C#'s 32-bit `int` and `uint`.
  - Both are held as mathematical integers in their ranges.
  - Overflow is written out as reduction modulo 2^32 (`Wrap`, `UintAdd`, ...).
  - The `(uint)` and `(int)` casts reinterpret the same 32 bits (`ToUnsigned`, `ToSigned`).
  - Bitwise operators act on the `bv32` view of a word.
- `SquirrelNoise` (`squirrel_noise.dfy`) models the hash.
  - The hash is a list of steps: multiply, add, or xor-shift. Each step has an
    explicit inverse.
  - The module proves that the hash is a bijection in the position for a fixed
    seed, and in the seed for a fixed position. Both inverses are given as functions.
  - It also pins the bit-exact value at position 0, seed 0.
- `NoiseBasedRNG` (`noise_based_rng.dfy`) models the 1D-4D unit noise and the
  `(int)` reinterpretation that the `NegOneToOne` variants apply.
  - It proves the trailing-zero degeneration: a zero last coordinate gives the
    noise of the lower dimension.
  - It gives an exact criterion for when two positions collide, and proves the
  aliasing lattice that the primes cause.
- `NoiseRandom` (`noise_based_random.dfy`) models the generator as an immutable
  value. Every draw returns what it drew together with the next generator.
  - `Range(int, int)` returns a `Result`. A zero width, which throws
    `DivideByZeroException` in C#, is the `Failure(DivideByZero)` case.
  - The module also covers sequences of draws (`After`, `Units`, `DrawValues`),
    replay, resynchronisation and the two package tests.

The package's tests have comments that say "position = 2" after one
`Range(20, 40)` draw. The cursor is at 1 at that point, and
`NoiseRandom.RandomRangeScenario` states it that way.

## Model

| member | source | states |
|---|---|---|
| `Words.IntIncrement` | Packages/NoiseBasedRNG/Runtime/NoiseBasedRandom.cs:33 | `position++` gives the successor, except that int.MaxValue goes to int.MinValue |
| `Words.ToUnsigned` | NoiseBasedRNG/Assets/NoiseBasedRNG/Runtime/NoiseBasedRNG.cs:184 | `(uint)position` keeps a non-negative position and adds 2^32 to a negative one |
| `Words.ToSigned` | NoiseBasedRNG/Assets/NoiseBasedRNG/Runtime/NoiseBasedRNG.cs:130 | `(int)word` keeps a word below 2^31 and subtracts 2^32 from a larger one |
| `Words.SignedOfUnsigned` | NoiseBasedRNG/Assets/NoiseBasedRNG/Runtime/NoiseBasedRNG.cs:184 | `(int)` undoes `(uint)`: the cast of the position into the hash loses no information |
| `Words.UnsignedOfSigned` | NoiseBasedRNG/Assets/NoiseBasedRNG/Runtime/NoiseBasedRNG.cs:130 | `(uint)` undoes `(int)`: the signed view of a noise word loses no information |
| `SquirrelNoise.SquirrelNoise5` | NoiseBasedRNG/Assets/NoiseBasedRNG/Runtime/NoiseBasedRNG.cs:182-197 | the hash reinterprets the position as a `uint`, multiplies it by SQ5_BIT_NOISE1 and adds the seed; undoing the avalanche on the result gives that word back |
| `SquirrelNoise.HashStepsInvertible` | NoiseBasedRNG/Assets/NoiseBasedRNG/Runtime/NoiseBasedRNG.cs:14-18 | the three multipliers are invertible modulo 2^32, with the inverses given, and every shift amount is one the inverse xor-shift handles |
| `SquirrelNoise.XorShiftInverse` | NoiseBasedRNG/Assets/NoiseBasedRNG/Runtime/NoiseBasedRNG.cs:187 | `w ^= (w >> k)` for k in {9, 11, 13, 15, 17} is a bijection on words, undone by xoring in the shifts by every multiple of k |
| `SquirrelNoise.StepInverse` | NoiseBasedRNG/Assets/NoiseBasedRNG/Runtime/NoiseBasedRNG.cs:185-195 | each mangling line (`*=` an odd constant, `+=`, xor-shift) is undone by its inverse step, and it undoes that inverse |
| `SquirrelNoise.UnRunOfRun` | NoiseBasedRNG/Assets/NoiseBasedRNG/Runtime/NoiseBasedRNG.cs:187-195 | undoing a chain of invertible steps in reverse order recovers the word the chain started from |
| `SquirrelNoise.RunOfUnRun` | NoiseBasedRNG/Assets/NoiseBasedRNG/Runtime/NoiseBasedRNG.cs:187-195 | running a chain of steps after undoing it gives back the word |
| `SquirrelNoise.UnavalancheOfAvalanche` | NoiseBasedRNG/Assets/NoiseBasedRNG/Runtime/NoiseBasedRNG.cs:187-196 | the mangling after the seed is added can be run backwards to recover its input |
| `SquirrelNoise.AvalancheOfUnavalanche` | NoiseBasedRNG/Assets/NoiseBasedRNG/Runtime/NoiseBasedRNG.cs:187-196 | every word is the output of that mangling for the input the backward run gives |
| `SquirrelNoise.PositionOf` | NoiseBasedRNG/Assets/NoiseBasedRNG/Runtime/NoiseBasedRNG.cs:182-197 | for any word and seed, there is a position the hash sends to that word, and it is computed |
| `SquirrelNoise.SeedOf` | NoiseBasedRNG/Assets/NoiseBasedRNG/Runtime/NoiseBasedRNG.cs:182-197 | for any word and position, there is a seed the hash sends to that word, and it is computed |
| `SquirrelNoise.PositionOfNoise` | NoiseBasedRNG/Assets/NoiseBasedRNG/Runtime/NoiseBasedRNG.cs:182-197 | the position is recovered from the hash and the seed |
| `SquirrelNoise.SeedOfNoise` | NoiseBasedRNG/Assets/NoiseBasedRNG/Runtime/NoiseBasedRNG.cs:182-197 | the seed is recovered from the hash and the position |
| `SquirrelNoise.NoiseInjectiveInPosition` | NoiseBasedRNG/Assets/NoiseBasedRNG/Runtime/NoiseBasedRNG.cs:182-197 | under one seed, two positions hash to the same word if and only if they are equal |
| `SquirrelNoise.NoiseInjectiveInSeed` | NoiseBasedRNG/Assets/NoiseBasedRNG/Runtime/NoiseBasedRNG.cs:182-197 | at one position, two seeds hash to the same word if and only if they are equal |
| `SquirrelNoise.NoiseSurjectiveInPosition` | NoiseBasedRNG/Assets/NoiseBasedRNG/Runtime/NoiseBasedRNG.cs:182-197 | under any seed, every word is the hash of some position |
| `SquirrelNoise.NoiseAtOrigin` | NoiseBasedRNG/Assets/NoiseBasedRNG/Runtime/NoiseBasedRNG.cs:182-197 | the hash of position 0 under seed 0 is 0x16791e00 |
| `NoiseBasedRNG.Index2d` | NoiseBasedRNG/Assets/NoiseBasedRNG/Runtime/NoiseBasedRNG.cs:42 | the 2D fold in wrapping `int` arithmetic is the exact `x + 198491317 * y` wrapped once into `int` |
| `NoiseBasedRNG.Index3d` | NoiseBasedRNG/Assets/NoiseBasedRNG/Runtime/NoiseBasedRNG.cs:55 | the 3D fold, evaluated left to right with a wrap at every operation, is the exact sum wrapped once |
| `NoiseBasedRNG.Index4d` | NoiseBasedRNG/Assets/NoiseBasedRNG/Runtime/NoiseBasedRNG.cs:69 | the 4D fold, evaluated left to right with a wrap at every operation, is the exact sum wrapped once |
| `NoiseBasedRNG.Get1dNoiseUnit` | NoiseBasedRNG/Assets/NoiseBasedRNG/Runtime/NoiseBasedRNG.cs:28-31 | the 1D noise is the SquirrelNoise5 hash, and both the position and the seed can be recovered from its word |
| `NoiseBasedRNG.Get2dNoiseUnit` | NoiseBasedRNG/Assets/NoiseBasedRNG/Runtime/NoiseBasedRNG.cs:40-43 | the 2D noise is the 1D noise at `x + 198491317 * y` wrapped once into `int`, and that index can be recovered from the word |
| `NoiseBasedRNG.Get3dNoiseUnit` | NoiseBasedRNG/Assets/NoiseBasedRNG/Runtime/NoiseBasedRNG.cs:53-56 | the 3D noise is the 1D noise at the exact 3-term fold wrapped once, and that index can be recovered from the word |
| `NoiseBasedRNG.Get4dNoiseUnit` | NoiseBasedRNG/Assets/NoiseBasedRNG/Runtime/NoiseBasedRNG.cs:67-70 | the 4D noise is the 1D noise at the exact 4-term fold wrapped once, and that index can be recovered from the word |
| `NoiseBasedRNG.Get1dNoiseUnitInjective` | NoiseBasedRNG/Assets/NoiseBasedRNG/Runtime/NoiseBasedRNG.cs:28-31 | the 1D noise is one-to-one in the position under a fixed seed, and in the seed at a fixed position |
| `NoiseBasedRNG.TrailingZeroCoordinate` | NoiseBasedRNG/Assets/NoiseBasedRNG/Runtime/NoiseBasedRNG.cs:40-70 | the 2D, 3D and 4D noise with a zero last coordinate equal the noise of the lower dimension |
| `NoiseBasedRNG.Get2dNoiseUnitCollision` | NoiseBasedRNG/Assets/NoiseBasedRNG/Runtime/NoiseBasedRNG.cs:40-43 | two 2D positions share a word if and only if `x + 198491317 * y` agrees modulo 2^32 |
| `NoiseBasedRNG.Get3dNoiseUnitCollision` | NoiseBasedRNG/Assets/NoiseBasedRNG/Runtime/NoiseBasedRNG.cs:53-56 | two 3D positions share a word if and only if their exact folds agree modulo 2^32 |
| `NoiseBasedRNG.Get4dNoiseUnitCollision` | NoiseBasedRNG/Assets/NoiseBasedRNG/Runtime/NoiseBasedRNG.cs:67-70 | two 4D positions share a word if and only if their exact folds agree modulo 2^32 |
| `NoiseBasedRNG.Get2dNoiseUnitAliasing` | NoiseBasedRNG/Assets/NoiseBasedRNG/Runtime/NoiseBasedRNG.cs:40-43 | `(x + 198491317, y - 1)` has the same noise as `(x, y)`, in wrapping `int` arithmetic |
| `NoiseBasedRNG.Index2dStepBack` | NoiseBasedRNG/Assets/NoiseBasedRNG/Runtime/NoiseBasedRNG.cs:42 | the 2D fold of `(x + 198491317, y - 1)` is the fold of `(x, y)` |
| `NoiseBasedRNG.Get3dNoiseUnitAliasing` | NoiseBasedRNG/Assets/NoiseBasedRNG/Runtime/NoiseBasedRNG.cs:53-56 | `(x + 6542989, y, z - 1)` has the same noise as `(x, y, z)` |
| `NoiseBasedRNG.Index3dStepBack` | NoiseBasedRNG/Assets/NoiseBasedRNG/Runtime/NoiseBasedRNG.cs:55 | the 3D fold of `(x + 6542989, y, z - 1)` is the fold of `(x, y, z)` |
| `NoiseBasedRNG.Get4dNoiseUnitAliasing` | NoiseBasedRNG/Assets/NoiseBasedRNG/Runtime/NoiseBasedRNG.cs:67-70 | `(x + 357239, y, z, t - 1)` has the same noise as `(x, y, z, t)` |
| `NoiseBasedRNG.Index4dStepBack` | NoiseBasedRNG/Assets/NoiseBasedRNG/Runtime/NoiseBasedRNG.cs:69 | the 4D fold of `(x + 357239, y, z, t - 1)` is the fold of `(x, y, z, t)` |
| `NoiseBasedRNG.Get1dNoiseSigned` | NoiseBasedRNG/Assets/NoiseBasedRNG/Runtime/NoiseBasedRNG.cs:128-131 | `(int)` of the 1D word has the same bits as the word, and is negative exactly when the word's top bit is set |
| `NoiseBasedRNG.Get2dNoiseSigned` | NoiseBasedRNG/Assets/NoiseBasedRNG/Runtime/NoiseBasedRNG.cs:140-143 | `(int)` of the 2D word has the same bits as the word, and is negative exactly when the word's top bit is set |
| `NoiseBasedRNG.Get3dNoiseSigned` | NoiseBasedRNG/Assets/NoiseBasedRNG/Runtime/NoiseBasedRNG.cs:153-156 | `(int)` of the 3D word has the same bits as the word, and is negative exactly when the word's top bit is set |
| `NoiseBasedRNG.Get4dNoiseSigned` | NoiseBasedRNG/Assets/NoiseBasedRNG/Runtime/NoiseBasedRNG.cs:167-170 | `(int)` of the 4D word has the same bits as the word, and is negative exactly when the word's top bit is set |
| `NoiseRandom.CurrentPosition` | Packages/NoiseBasedRNG/Runtime/NoiseBasedRandom.cs:24-27 | the getter returns the cursor; the cursor and the seed are the generator's whole state |
| `NoiseRandom.Seed` | Packages/NoiseBasedRNG/Runtime/NoiseBasedRandom.cs:37 | the getter returns the seed; the seed and the cursor are the generator's whole state |
| `NoiseRandom.SetCurrentPosition` | Packages/NoiseBasedRNG/Runtime/NoiseBasedRandom.cs:24-28 | the setter moves the cursor to the given position, the getter reads it back, and the seed is kept |
| `NoiseRandom.CurrentPositionRoundTrip` | Packages/NoiseBasedRNG/Runtime/NoiseBasedRandom.cs:24-28 | setting the cursor to what the getter reads changes nothing, and a second setting overrides the first |
| `NoiseRandom.Create` | Packages/NoiseBasedRNG/Runtime/NoiseBasedRandom.cs:46-50 | the constructor stores the seed and the start position, and the getters read them back |
| `NoiseRandom.CreateDefault` | Packages/NoiseBasedRNG/Runtime/NoiseBasedRandom.cs:66-69 | the default constructor starts at position 0, with the seed from the field initializer `ticks & 0xFFFF`, below 2^16 |
| `NoiseRandom.CreateDefaultCollision` | Packages/NoiseBasedRNG/Runtime/NoiseBasedRandom.cs:17 | two default generators are equal if and only if their tick counts agree modulo 2^16 |
| `NoiseRandom.Advance` | Packages/NoiseBasedRNG/Runtime/NoiseBasedRandom.cs:33 | a draw moves the cursor by one, from int.MaxValue to int.MinValue, and leaves the seed alone |
| `NoiseRandom.Unit` | Packages/NoiseBasedRNG/Runtime/NoiseBasedRandom.cs:33 | the word a draw consumes is the hash of the cursor before it moves, under the seed; it gives back both the cursor and the seed |
| `NoiseRandom.Value` | Packages/NoiseBasedRNG/Runtime/NoiseBasedRandom.cs:33 | `Value` reads the SquirrelNoise5 word at the cursor before it moves, then advances the cursor |
| `NoiseRandom.RangeFloat` | Packages/NoiseBasedRNG/Runtime/NoiseBasedRandom.cs:101-102 | the float `Range` consumes the word at the cursor and advances the cursor |
| `NoiseRandom.LongRem` | Packages/NoiseBasedRNG/Runtime/NoiseBasedRandom.cs:93 | `%` on `long` has the dividend's sign and a magnitude below the divisor's, and is the Euclidean remainder for a non-negative dividend |
| `NoiseRandom.TruncatedRemainder` | Packages/NoiseBasedRNG/Runtime/NoiseBasedRandom.cs:93 | the truncated remainder is the remainder of the magnitudes, signed like the dividend |
| `NoiseRandom.IntSubZero` | Packages/NoiseBasedRNG/Runtime/NoiseBasedRandom.cs:93 | the wrapping `max - min` is 0 if and only if `max == min`, so that is the only divide-by-zero case |
| `NoiseRandom.RangeOfUnit` | Packages/NoiseBasedRNG/Runtime/NoiseBasedRandom.cs:92-93 | the arithmetic of `Range(min, max)` fails if and only if `min == max`; for `min < max` it lies in [min, max); for widths up to 2^31 it is `min + unit % (max - min)` |
| `NoiseRandom.Range` | Packages/NoiseBasedRNG/Runtime/NoiseBasedRandom.cs:92-93 | `Range(min, max)` is the range arithmetic applied to the SquirrelNoise5 word at the cursor before it moves. It advances the cursor even when it fails, fails if and only if `min == max`, and lies in [min, max) when `min < max` |
| `NoiseRandom.RangeOfUnitWideMissesTop` | Packages/NoiseBasedRNG/Runtime/NoiseBasedRandom.cs:93 | as written, a range wider than 2^31 yields only its first `2^32 - width` values and never `max - 1` |
| `NoiseRandom.RangeOfUnitFullSpan` | Packages/NoiseBasedRNG/Runtime/NoiseBasedRandom.cs:93 | as written, `Range(int.MinValue, int.MaxValue)` returns int.MinValue for every word |
| `NoiseRandom.RangeOfUnitWide` | Packages/NoiseBasedRNG/Runtime/NoiseBasedRandom.cs:86-93 | with the width taken in `long`, the arithmetic fails if and only if `min == max`, and otherwise lies in [min, max) |
| `NoiseRandom.RangeOfUnitWideReachesAll` | Packages/NoiseBasedRNG/Runtime/NoiseBasedRandom.cs:86-93 | with the width taken in `long`, every value of [min, max) is drawn by some word |
| `NoiseRandom.RangeOfUnitWideAgrees` | Packages/NoiseBasedRNG/Runtime/NoiseBasedRandom.cs:93 | where the `int` width does not wrap, the corrected arithmetic agrees with the original |
| `NoiseRandom.RangeWide` | Packages/NoiseBasedRNG/Runtime/NoiseBasedRandom.cs:86-93 | the corrected `Range` applies the corrected arithmetic to the word at the cursor before it moves. It advances the cursor, fails if and only if `min == max`, and lies in [min, max) when `min < max` |
| `NoiseRandom.AfterMoves` | Packages/NoiseBasedRNG/Runtime/NoiseBasedRandom.cs:33 | after n draws the cursor has moved n steps, modulo 2^32, and the seed is unchanged |
| `NoiseRandom.AfterStep` | Packages/NoiseBasedRNG/Runtime/NoiseBasedRandom.cs:33 | one more draw moves the cursor of the generator after n draws once more |
| `NoiseRandom.DrawsAreConsecutiveNoise` | Packages/NoiseBasedRNG/Runtime/NoiseBasedRandom.cs:33 | draw i reads the 1D noise at the start position plus i, wrapped, under the generator's seed |
| `NoiseRandom.DrawValues` | Packages/NoiseBasedRNG/Runtime/NoiseBasedRandom.cs:33 | drawing n values in a loop from the mutable cursor yields the n consumed words in order and the generator after n draws, with the seed unchanged |
| `NoiseRandom.Replay` | Packages/NoiseBasedRNG/Runtime/NoiseBasedRandom.cs:24-33 | setting the cursor back to its earlier value reproduces the same draws |
| `NoiseRandom.Resync` | Packages/NoiseBasedRNG/Runtime/NoiseBasedRandom.cs:24-33 | two generators with the same seed, whatever their histories, draw the same words once one takes the other's cursor |
| `NoiseRandom.DrawsDistinct` | Packages/NoiseBasedRNG/Runtime/NoiseBasedRandom.cs:33 | no word repeats within 2^32 consecutive draws |
| `NoiseRandom.CursorsDistinct` | Packages/NoiseBasedRNG/Runtime/NoiseBasedRandom.cs:33 | fewer than 2^32 increments never bring the wrapping cursor back to where it was |
| `NoiseRandom.SeedsDiverge` | Packages/NoiseBasedRNG/Runtime/NoiseBasedRandom.cs:33-37 | at the same cursor, two generators draw the same word if and only if their seeds are equal |
| `NoiseRandom.ConsecutiveDrawsDiffer` | Packages/NoiseBasedRNG/Runtime/NoiseBasedRandom.cs:33 | a generator never draws the same word twice in a row |
| `NoiseRandom.RandomValueScenario` | Packages/NoiseBasedRNG/Tests/Editor/NoiseBasedRandomTests.cs:14-23 | seeded 200: the draws at cursors 2 and 3 differ; a generator at cursor 4 that takes its twin's cursor 2 draws what the twin draws and ends up equal to it |
| `NoiseRandom.RandomRangeScenario` | Packages/NoiseBasedRNG/Tests/Editor/NoiseBasedRandomTests.cs:29-37 | seeded 200, `Range(20, 40)` is 20 plus the word at cursor 0 modulo 20, lies in [20, 40) and leaves the cursor at 1; a seed-300 generator after one draw is also at 1 and draws a different word there |

## Left out

- Float outputs are not modelled: the `ZeroToOne` and `NegOneToOne` functions, `Value`, and `Range(float, float)`. The model stops at the 32-bit word that is scaled and at the `(int)` cast; floating-point scaling and rounding are outside it.
- `NoiseRandom.Value`: models the word the property consumes and the cursor move, not the float it returns.
- `NoiseRandom.RangeFloat`: models the word the method consumes and the cursor move, not `min + unit * (max - min)` in float.
- `NoiseRandom.RandomValueScenario`: leaves out the test's first two assertions (lines 17-18). In a value model, two generators built from the same arguments are trivially equal. The second assertion only compares float scalings of one shared word.
- `NoiseRandom.CreateDefault`: the clock is not modelled. `DateTime.Now.Ticks` becomes the parameter `ticks`.
- The `NoiseBasedRandom(string seedString, int startPosition)` constructor is left out. `string.GetHashCode` is runtime-dependent and randomised per process on .NET Core, so the seed it gives cannot be modelled. Once the seed exists, the generator behaves like `NoiseRandom.Create`.
- The commented-out `NextBool` and `NextInt` are not modelled, because they are not compiled.
- The `seed` field is public and writable in C#. The model changes it only through the constructors, as the package's own code does.
- `DivideByZeroException` from `Range(min, min)` is the `Failure(DivideByZero)` result, and the cursor still moves.
- The sample scene script is a UI demonstration and is not part of this model.
- The default arguments (`seed = 0`, `startPosition = 0`) are explicit parameters.

## Findings

| source | as written | input that shows it | evidently intended | confidence | as-written member | corrected member |
|---|---|---|---|---|---|---|
| Packages/NoiseBasedRNG/Runtime/NoiseBasedRandom.cs:93 | the width `max - min` is computed in `int` and wraps when it exceeds int.MaxValue. The modulo divisor then becomes `width - 2^32`, so only the first `2^32 - width` values of the range can occur | `Range(int.MinValue, int.MaxValue)`: the width wraps to -1, `unit % -1` is 0, and the result is int.MinValue for every draw | every value of [min, max) can be drawn, which is the point of a range draw. The doc comment "within [min..max(exclusive)]" promises only the bound, and the code keeps that bound for every `min < max`. The defect is that a width above 2^31 collapses onto only `2^32 - width` values, and the full span gives only int.MinValue. Taking the width in `long` fixes it | not executed | `NoiseRandom.RangeOfUnitWideMissesTop`, `NoiseRandom.RangeOfUnitFullSpan` | `NoiseRandom.RangeOfUnitWide`, `NoiseRandom.RangeOfUnitWideReachesAll` |
