# WaveEdit helper layer and bank shapes, in Dafny

WaveEdit is a wavetable editor and synthesiser: a bank of 64 single-cycle
waves of 256 samples each, each wave passed through a fixed chain of 11
effects, played back with morphing between waves. This project models the
part of its shared header `src/WaveEdit.hpp` whose behaviour is written out
there:

- the integer helpers of the math layer: `eucmodi` (a remainder wrapped into
  `[0, base)`), `mini`, `maxi` and `clampi`, over a 32-bit C++ `int`
  (module `IntMath`), built on an explicit model of C++'s truncating `%`
  (module `CInt`);
- the float helpers that only compare and select, `clampf` and `chopf`,
  modelled over the reals (module `FloatOrder`);
- the declared shapes of the bank: the size constants, the `EffectID`
  enumeration and its order, and the `Effect`, `Wave` and `Bank` records with
  the lengths their arrays are declared with, including the interleaved
  layout of a spectrum (module `BankLayout`).

C++ `int` is the newtype `CInt.int32`. C++ `a % b` truncates toward zero, so
its result has the sign of `a`; `CInt.TruncRem` defines it from the identity
`(a / b) * b + a % b == a` rather than using Dafny's Euclidean `%`.
`IntMath.Eucmodi` requires exactly that the C++ expression has defined
behaviour: a non-zero divisor, not `INT_MIN % -1`, and no overflow in
`mod + base`, which can only overflow when `base` is negative. For a positive
base it is proved equal to Dafny's Euclidean `%`.

## Model

| member | source | states |
|---|---|---|
| CInt.TruncDiv | src/WaveEdit.hpp:23 | the quotient that C++ `%` is defined against: its magnitude is `abs(a) / abs(b)` and its sign is the product of the operands' signs (truncation toward zero) |
| CInt.TruncRem | src/WaveEdit.hpp:23 | C++ `a % b`: `(a / b) * b + a % b == a` with truncating division, the magnitude is below `abs(b)`, and a non-zero result has the sign of `a` |
| CInt.RemDefined | src/WaveEdit.hpp:23 | `a % b` on `int` is defined exactly when `b != 0` and the quotient `a / b` is an `int`, i.e. everywhere except a zero divisor and `INT_MIN % -1`; every dividend is fine for a positive divisor |
| CInt.Rem | src/WaveEdit.hpp:23 | `a % base` on `int` is defined when the divisor is non-zero and the pair is not `INT_MIN % -1`; its value is the truncated remainder, smaller than the divisor in magnitude |
| IntMath.CongruentRemainder | src/WaveEdit.hpp:23-24 | both `mod` and the corrected `mod + base` differ from `a` by a multiple of `base` |
| IntMath.Eucmodi | src/WaveEdit.hpp:22-25 | the result differs from `a` by a multiple of `base`; it lies in `[0, base)` when `base > 0` and in `(2*base, -base)` when `base < 0` |
| IntMath.EucmodiDefined | src/WaveEdit.hpp:22-25 | lines 23-24 are free of undefined behaviour: the `%` is defined and `mod + base` does not overflow; this implies `RemDefined`, and holds for every dividend when `base > 0` |
| IntMath.EucmodiIsEuclidean | src/WaveEdit.hpp:22-25 | for `base > 0`, correcting a negative truncated remainder by `+ base` yields exactly the Euclidean `a % base` |
| IntMath.EucmodiInRange | src/WaveEdit.hpp:22-25 | a value already in `[0, base)` is returned unchanged |
| IntMath.EucmodiPeriodic | src/WaveEdit.hpp:22-25 | `eucmodi(a + k*base, base) == eucmodi(a, base)` for every `k` keeping the argument an `int` |
| IntMath.EucmodiIdempotent | src/WaveEdit.hpp:22-25 | wrapping an already wrapped value changes nothing |
| IntMath.Mini | src/WaveEdit.hpp:27-29 | the result is one of the arguments and no larger than either |
| IntMath.Maxi | src/WaveEdit.hpp:31-33 | the result is one of the arguments and no smaller than either |
| IntMath.MiniMaxiPair | src/WaveEdit.hpp:27-33 | both are symmetric in their arguments and `mini + maxi == a + b` |
| IntMath.Clampi | src/WaveEdit.hpp:35-38 | the result is `x`, `min` or `max`; with `min <= max` it lies in `[min, max]` and leaves an in-range `x` unchanged; with crossed bounds it never returns `x`, and returns `max` exactly when `x > max` (the upper bound is tested first) |
| IntMath.ClampiIsMaxOfMin | src/WaveEdit.hpp:27-38 | with `min <= max`, `clampi(x, min, max) == maxi(min, mini(x, max))` |
| IntMath.ClampiIdempotent | src/WaveEdit.hpp:35-38 | with `min <= max`, clamping twice equals clamping once |
| IntMath.ClampiMonotone | src/WaveEdit.hpp:35-38 | with `min <= max`, clamping preserves `x <= y` |
| FloatOrder.Clampf | src/WaveEdit.hpp:46-49 | the result is `x`, `min` or `max`; with `min <= max` it lies in `[min, max]` and leaves an in-range `x` unchanged; with crossed bounds it never returns `x`, and returns `max` exactly when `x > max` (the upper bound is tested first) |
| FloatOrder.ClampfIdempotent | src/WaveEdit.hpp:46-49 | with `min <= max`, clamping twice equals clamping once |
| FloatOrder.ClampfMonotone | src/WaveEdit.hpp:46-49 | with `min <= max`, clamping preserves `x <= y` |
| FloatOrder.ClampfAgreesWithClampi | src/WaveEdit.hpp:35-49 | on whole numbers `clampf` and `clampi` give the same value, for any order of the bounds |
| FloatOrder.Chopf | src/WaveEdit.hpp:51-54 | a value of magnitude below `eps` becomes 0; any other value is returned unchanged |
| FloatOrder.ChopfOutput | src/WaveEdit.hpp:51-54 | the result is 0 or at least `eps` in magnitude, and chopping twice equals chopping once |
| FloatOrder.ChopfThreshold | src/WaveEdit.hpp:51-54 | for `eps > 0`, 0 maps to 0; for `eps <= 0`, every value passes through |
| BankLayout.Ordinal | src/WaveEdit.hpp:107-120 | each enumerator's value is below `EFFECTS_LEN` |
| BankLayout.EffectOrder | src/WaveEdit.hpp:107-119 | the declaration order has `EFFECTS_LEN` = 11 entries, starts with `PRE_GAIN`, ends with `POST_GAIN`, and the i-th declared stage has value i |
| BankLayout.EffectOrderIsOrdinal | src/WaveEdit.hpp:107-120 | conversely, every stage is listed at the position of its value, so the order and the values are one numbering |
| BankLayout.OrdinalInjective | src/WaveEdit.hpp:107-120 | distinct stages own distinct slots of a wave's `effects` array |
| BankLayout.BankFillsGrid | src/WaveEdit.hpp:102-104 | `BANK_LEN == BANK_GRID_WIDTH * BANK_GRID_HEIGHT` |
| BankLayout.Wave.Valid | src/WaveEdit.hpp:130-144 | every array has its declared length (`WAVE_LEN` samples, spectra and post arrays, `WAVE_LEN/2` harmonics, `EFFECTS_LEN` parameters); hence twice as many spectrum entries as harmonics, and one parameter per effect stage |
| BankLayout.Bank.Valid | src/WaveEdit.hpp:146-148 | `BANK_LEN` waves, each of the declared shape; hence one wave per cell of the 8 by 8 grid |
| BankLayout.ZeroWave | src/WaveEdit.hpp:130-144 | a wave of zeros meets the declared shape: `WAVE_LEN` samples, spectra and post arrays, `WAVE_LEN/2` harmonics, `EFFECTS_LEN` parameters |
| BankLayout.ZeroBank | src/WaveEdit.hpp:146-148 | a bank of `BANK_LEN` such waves meets the declared shape |
| BankLayout.Deinterleave | src/WaveEdit.hpp:132-133 | an interleaved spectrum of even length gives half as many complex bins, bin k being entries 2k and 2k+1 |
| BankLayout.Interleave | src/WaveEdit.hpp:132-133 | packing k complex bins gives 2k reals with bin k at entries 2k and 2k+1 |
| BankLayout.DeinterleaveInterleave | src/WaveEdit.hpp:132-133 | de-interleaving an interleaved list of bins gives back the bins, for every list |
| BankLayout.InterleaveDeinterleave | src/WaveEdit.hpp:132-133 | interleaving the bins of an even-length sequence gives back the sequence |
| BankLayout.OneBinPerHarmonic | src/WaveEdit.hpp:131-139 | in a valid wave, the spectrum and the post spectrum hold exactly one complex bin per harmonic |

## Left out

- `sgnf`, `rescalef`, `crossf`, `linterpf`, `complexMult` (src/WaveEdit.hpp:42-44, 56-85): their results depend on IEEE single-precision rounding. `linterpf` reads `p[xi + 1]` whenever the fractional part is at least 1e-6, which needs more than the `ceil(x)` elements its comment asks for; it is not part of this model.
- `randf`: it draws from the C library's stateful `rand()`.
- `RFFT`, `IRFFT`, `resample`, `computeOversample` and every bank operation (`bankInit`, `updatePost`, `commitWave`, `commitHarmonics`, `clearEffect`, `bakeEffect`, `randomizeEffect`, `bankClear`, `setWave`): their bodies live in math.cpp, bank.cpp and audio.cpp, which are not part of this model. So the relation between `samples`, `spectrum` and `harmonics`, and the effect pipeline that yields the post arrays, are not modelled; only the array shapes are.
- File and audio I/O (`saveBank`, `loadBank`, `saveWaves`, `loadAudio`, `openBrowser`, `wavesInit` with `WaveFile`/`WaveDirectory`) and the audio device functions: outside effects with no visible logic.
- `uiInit`, `uiRender`: user interface.
- The playback globals (`playVolume`, `playFrequency`, `morphX` and the rest) and `currentBank`: process-wide state shared with the audio thread; no logic over them is visible. Which grid cell a bank slot occupies is not stated in the header, so only the slot count is related to the grid.
- `effectNames`: its contents are defined elsewhere.
- The value range of samples and effect parameters: floats are unconstrained reals here.
- FloatOrder.Clampf: NaN, signed zero and ±infinity are excluded (for an infinite argument the comparisons still select `x`, `min` or `max`, e.g. `clampf(+inf, 0, 1)` is 1); for a NaN `x` every C++ comparison is false, so `clampf` would return `x`.
- FloatOrder.Chopf: NaN, signed zero and ±infinity are excluded (`chopf(x, +inf)` is 0 for every finite `x`, and `chopf(±inf, eps)` is `±inf` for finite `eps`); for a NaN `x` every C++ comparison is false, so `chopf` would return `x`.
