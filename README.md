# DoomFire in Dafny

A verified model of the integer core of DoomFire, a small SDL/OpenGL demo of
the classic "Doom fire" effect.

- **The fire grid** (`fire.dfy`, module `DoomFire`). The grid is a 640 x 480
  row-major byte array, `m_image`. `DoomFireApplication` is a class that holds
  it in an `array<byte>`, together with the file-scope globals `width` and
  `height`.
  - `Reset` is the two `memset`s, written as two `forall` assignments.
  - `SpreadFire` writes the single cell that `spreadFire` writes.
  - `DoFire` is the nested column-outer, row-inner loop. It works in place, so
    a write to row y-1, column x+1 is read again later in the same sweep.
  - Each method is proved against a function on values: `Spread` (one step),
    `Sweep` (steps over a list of sources) and `NextGeneration` (`Sweep` over
    `SweepOrder()`, the order of the two loops).
  - The lemmas are about those functions: the write index, exactly one cell
    written, intensities staying in the palette, the order visiting every cell
    but the top row exactly once, and the bottom row.
  - `OnUpdate` models the clamping of `width`/`height` followed by one
    generation.
  - `TextureExtent` gives the texture sizes that `onInit` derives from
    `nextPow2`.
- **TimeSpan** (`timespan.dfy`, module `TimeSpans`). A datatype holding a
  signed 64-bit tick count.
  - The range-checked hour/minute/second constructor.
  - The component accessors, which use C++ truncating division. That division
    is defined explicitly as `TruncDiv`/`TruncMod`, because Dafny's `/` and `%`
    are Euclidean.
  - The six comparisons.
  - `+` and `-`. They compute the raw `long` sum or difference and detect
    overflow with a sign-bit test on it. In C++ that signed overflow is
    undefined behaviour; the model gives it two's-complement wrap-around
    (`Wrap`, mod 2^64), which is what the test relies on. `>> 63` on a signed
    `long` is modelled as an arithmetic shift, i.e. floor division by 2^63.
    Both are assumptions about the compiler, not guarantees of the language.
  - A thrown exception becomes `Err(InvalidArgument)` or `Err(OverflowError)`.
  - `TimeSpan(long)` is the datatype constructor and `getTicks()` is its field
    `ticks`, so `TimeSpan(t).ticks == t` holds by construction. The default
    constructor and `TimeSpan::Zero` are the constant `Zero`.
- **Bit utilities** (`util.dfy`, module `Util`).
  - `nextPow2` on `bv32`, with its five shifted ors.
  - The three `endianSwap` overloads, as in-place swaps on a 4- or 2-byte array.
- **The fixed-timestep loop** (`application.dfy`, module `Application`). The
  loop from `Application::run()` that feeds `onUpdate`.
  - `Frame` is one pass of the outer loop.
  - `Run` iterates `Frame` over a sequence of measured frame times.
  - `onUpdate` is recorded as the list of arguments it receives.
- `ints.dfy` (module `Ints`) holds the fixed-width integer ranges (`byte`,
  `int32`, `int64`).

The random draw `(int)(3.0f * rand() / RAND_MAX)` becomes an input table `rnd`
with one draw per source cell. Only a burning source uses its draw. The draw is
in 0..3: the value 3 is rare, but the cast allows it when `rand() == RAND_MAX`;
the model follows the code.

The write index is `src - randIdx + 1 - W`. It is negative only for source `W`
with draw 2 or 3, and for source `W + 1` with draw 3 (`TargetIndexBounds`). In
C++ these are writes before the start of `m_image`. `ValidDraws` excludes these
two cases. At the left and right edges of the grid the write wraps into the
neighbouring row; the model keeps that wrap exactly as the code has it.

The comment at `src/DoomFireApplication.cpp:121` says "37", but the code writes
36. The model uses 36, the highest palette index.

`TimePerFrame` is `TimeSpan::seconds(1.f/60.f)`. Through `interval` this is
(long)(16.67 + 0.5) = 17 ms, i.e. 170000 ticks. The model uses that constant.

## Model

| member | source | states |
|---|---|---|
| `DoomFire.DoomFireApplication.constructor` | src/DoomFireApplication.h:26-28 | a fresh 640x480 grid, zero-initialised (`m_image{}`); the window globals start at 1280 x 720 (src/DoomFireApplication.cpp:205-206) |
| `DoomFire.DoomFireApplication.Reset` | src/DoomFireApplication.cpp:117-123 | afterwards cells [0, 479*640) are 0 and the bottom row is 36, whatever the grid held; the object invariant is kept |
| `DoomFire.ResetGridUnique` | src/DoomFireApplication.cpp:117-123 | any two grids `reset` can leave are equal, so resetting twice is the same as resetting once |
| `DoomFire.DoomFireApplication.SpreadFire` | src/DoomFireApplication.cpp:316-325 | the array afterwards is `Spread` of the array before; the intensity invariant is kept |
| `DoomFire.Spread` | src/DoomFireApplication.cpp:316-325 | `spreadFire` on a grid value: the grid keeps W*H cells; what it writes, and where, is stated by `SpreadDeadSource`, `SpreadBurningSource` and `TargetIndexBounds` |
| `DoomFire.TargetIndexBounds` | src/DoomFireApplication.cpp:321-323 | for draws 0..3 the write lands in [src-W-2, src-W+1], always below W*H; it is negative exactly for src = W with draw 2 or 3 and src = W+1 with draw 3 |
| `DoomFire.SpreadDeadSource` | src/DoomFireApplication.cpp:317-319 | a source at 0 sets the cell `src - W` to 0 and changes no other cell |
| `DoomFire.SpreadBurningSource` | src/DoomFireApplication.cpp:320-323 | a burning source writes only index `src - randIdx + 1 - W`, with the pixel for an even draw and the pixel minus 1 for an odd draw, never below 0 |
| `DoomFire.SpreadKeepsBound` | src/DoomFireApplication.cpp:316-325 | no write exceeds the value just read, so a bound on every cell survives one `spreadFire` |
| `DoomFire.Sweep` | src/DoomFireApplication.cpp:327-333 | spreading in place from a list of sources keeps the grid at W*H cells |
| `DoomFire.SweepOrder` | src/DoomFireApplication.cpp:328-330 | the visiting order has W*(H-1) entries, all of them cells in rows 1..H-1 |
| `DoomFire.NextGeneration` | src/DoomFireApplication.cpp:327-333 | one generation keeps the grid at W*H cells |
| `DoomFire.SweepStep` | src/DoomFireApplication.cpp:329-331 | one more loop iteration is one more `Spread` applied to the grid reached so far |
| `DoomFire.SweepPosition` | src/DoomFireApplication.cpp:328-330 | visit number x*(H-1)+y-1 is cell y*W+x (x outer, y inner) |
| `DoomFire.NextColumn` | src/DoomFireApplication.cpp:328-329 | the visit after the last row of column x is row 1 of column x+1; the W columns make up the whole sweep |
| `DoomFire.SweepCovers` | src/DoomFireApplication.cpp:328-330 | every cell outside row 0 is a source of the sweep |
| `DoomFire.SweepDistinct` | src/DoomFireApplication.cpp:328-330 | no cell is visited twice |
| `DoomFire.SweepVisitsEachSourceOnce` | src/DoomFireApplication.cpp:327-333 | `doFire` spreads from each cell y*W+x, 0<=x<W, 1<=y<H, exactly once, x outer and y inner, and never from row 0 |
| `DoomFire.SweepKeepsBound` | src/DoomFireApplication.cpp:316-333 | a bound on every cell survives any in-place sweep |
| `DoomFire.NextGenerationKeepsPalette` | src/DoomFireApplication.cpp:316-333 | if every cell is at most 36 before `doFire`, every cell is at most 36 after |
| `DoomFire.SweepSparesBottomRow` | src/DoomFireApplication.cpp:322-323 | sources before the last cell never write the bottom row |
| `DoomFire.NextGenerationBottomRow` | src/DoomFireApplication.cpp:322-333 | `doFire` changes the bottom row only at index (H-1)*W, and only when the last cell burns and draws 0; it then copies that cell's value unchanged |
| `DoomFire.FireKeepsBurning` | src/DoomFireApplication.cpp:322-333 | through `doFire`, an all-36 bottom row (the case of interest because `reset`, src/DoomFireApplication.cpp:117-123, leaves one) stays all-36, and all cells stay within the palette, after any generation |
| `DoomFire.DoomFireApplication.DoFire` | src/DoomFireApplication.cpp:327-333 | the in-place nested loop leaves the array equal to `NextGeneration` of the array before, keeping intensities in [0, 36] |
| `DoomFire.Clamp` | src/DoomFireApplication.cpp:260-263 | the result lies in [lo, hi], equals v when v is already inside, and is the point of [lo, hi] nearest to v |
| `DoomFire.DoomFireApplication.OnUpdate` | src/DoomFireApplication.cpp:257-277 | `width` stays in [10, 2560] and `height` in [10, 1440]; each is unchanged when its amount is 0 and otherwise is the clamped sum; then one generation runs |
| `DoomFire.TextureExtent` | src/DoomFireApplication.cpp:182-183 | the texture is 1024 x 512: `nextPow2(640)` and `nextPow2(480)` |
| `TimeSpans.TruncDiv` | src/TimeSpan.h:64 | C++ `/`: the quotient rounds toward zero, so the part left over has the sign of the dividend and is smaller than the divisor |
| `TimeSpans.TruncMod` | src/TimeSpan.h:64 | C++ `%`: the remainder is strictly between -b and b and has the sign of the dividend |
| `TimeSpans.TruncNegate` | src/TimeSpan.h:62-73 | truncating division and remainder commute with negating the dividend |
| `TimeSpans.TimeSpan` | src/TimeSpan.h:35-37 | `TimeSpan(long)` and `getTicks()` (src/TimeSpan.h:58-61) are the datatype's constructor and its 64-bit field `ticks` (`m_ticks`, src/TimeSpan.h:121) |
| `TimeSpans.Zero` | src/TimeSpan.cpp:3 | `TimeSpan::Zero` and the default constructor (src/TimeSpan.h:34) hold 0 ticks; `ZeroIdentity` states it is neutral for `+` and `-` |
| `TimeSpans.MaxSeconds` | src/TimeSpan.h:20-21 | `LONG_MAX / TicksPerSecond`, truncating |
| `TimeSpans.MinSeconds` | src/TimeSpan.h:22-23 | `LONG_MIN / TicksPerSecond`, truncating toward zero |
| `TimeSpans.SecondsLimits` | src/TimeSpan.h:20-23 | `MaxSeconds` and `MinSeconds` are the largest and smallest whole numbers of seconds whose tick count fits in a `long` |
| `TimeSpans.TotalSeconds` | src/TimeSpan.h:97-98 | h*3600 + m*60 + s of 32-bit ints always fits in 64 bits |
| `TimeSpans.ToTicks` | src/TimeSpan.h:95-102 | succeeds exactly when total*10^7 fits in 64 bits, i.e. the MaxSeconds/MinSeconds check (both truncating quotients, src/TimeSpan.h:20-23) is exact; on success gives total*10^7; otherwise `invalid_argument` |
| `TimeSpans.FromClock` | src/TimeSpan.h:38-41 | `TimeSpan(h, m, s)` fails exactly when `toTicks` does, and otherwise holds its ticks |
| `TimeSpans.Milliseconds` | src/TimeSpan.h:62-65 | the result is strictly between -1000 and 1000, and is 0 or has the sign of the span |
| `TimeSpans.Minutes` | src/TimeSpan.h:66-69 | the result is strictly between -60 and 60, and is 0 or has the sign of the span |
| `TimeSpans.Seconds` | src/TimeSpan.h:70-73 | the result is strictly between -60 and 60, and is 0 or has the sign of the span |
| `TimeSpans.ComponentsOfNegation` | src/TimeSpan.h:62-73 | negating a span negates its millisecond, second and minute components |
| `TimeSpans.ClockComponents` | src/TimeSpan.h:38-41 | for h >= 0, 0 <= m < 60, 0 <= s < 60, `TimeSpan(h,m,s)` has minutes m, seconds s and milliseconds 0 |
| `TimeSpans.Eq` | src/TimeSpan.cpp:5-8 | `operator==` compares the tick counts |
| `TimeSpans.Ne` | src/TimeSpan.cpp:10-13 | `operator!=` compares the tick counts |
| `TimeSpans.Lt` | src/TimeSpan.cpp:15-18 | `operator<` compares the tick counts |
| `TimeSpans.Gt` | src/TimeSpan.cpp:20-23 | `operator>` compares the tick counts |
| `TimeSpans.Le` | src/TimeSpan.cpp:25-28 | `operator<=` compares the tick counts |
| `TimeSpans.Ge` | src/TimeSpan.cpp:30-33 | `operator>=` compares the tick counts |
| `TimeSpans.ComparisonsConsistent` | src/TimeSpan.cpp:5-33 | `==` is equality of spans; `!=` negates `==`; `>` is `<` flipped; `<=` is `<` or `==`; `>=` negates `<` |
| `TimeSpans.LtStrictTotalOrder` | src/TimeSpan.cpp:15-18 | `<` is irreflexive, transitive and total |
| `TimeSpans.Wrap` | src/TimeSpan.cpp:37 | a 64-bit two's-complement result: unchanged in range, shifted by 2^64 for a sum or difference that overflows once |
| `TimeSpans.SignShift` | src/TimeSpan.cpp:38-40 | `v >> 63` is -1 for a negative value and 0 otherwise |
| `TimeSpans.AddOverflowTest` | src/TimeSpan.cpp:41-42 | the test of `operator+`: operand signs equal and the wrapped result's sign different; `AddOverflowTestExact` states what it decides |
| `TimeSpans.SubOverflowTest` | src/TimeSpan.cpp:58-59 | the test of `operator-`: operand signs different and the wrapped result's sign unlike the left operand's; `SubOverflowTestExact` states what it decides |
| `TimeSpans.AddOverflowTestExact` | src/TimeSpan.cpp:38-42 | the sign-bit test on the wrapped sum fires exactly when the exact sum leaves [-2^63, 2^63-1] |
| `TimeSpans.SubOverflowTestExact` | src/TimeSpan.cpp:55-59 | the sign-bit test on the wrapped difference fires exactly when the exact difference leaves [-2^63, 2^63-1] |
| `TimeSpans.Add` | src/TimeSpan.cpp:35-45 | `+` returns the exact sum when it fits and throws `overflow_error` exactly when it does not |
| `TimeSpans.Sub` | src/TimeSpan.cpp:52-62 | `-` returns the exact difference when it fits and throws `overflow_error` exactly when it does not |
| `TimeSpans.ZeroIdentity` | src/TimeSpan.cpp:3 | `t + Zero`, `Zero + t` and `t - Zero` never throw and give t |
| `TimeSpans.AddAssign` | src/TimeSpan.cpp:47-50 | `+=` stores the exact sum in left; when `+` throws, left is unchanged |
| `TimeSpans.SubAssign` | src/TimeSpan.cpp:64-67 | `-=` stores the exact difference in left; when `-` throws, left is unchanged |
| `Util.NextPow2` | src/Util.cpp:4-12 | after the five ors every bit of x-1 up to its highest set bit is set and none above; for 1 <= x <= 2^31 the result is the least power of two >= x; a power of two maps to itself; 0 and x > 2^31 give 0 |
| `Util.ByteSwapped` | src/Util.cpp:14-41 | byte i of the result is byte n-1-i of the input |
| `Util.ByteSwapInvolution` | src/Util.cpp:14-41 | swapping the byte order twice restores the original bytes |
| `Util.EndianSwap32` | src/Util.cpp:14-26 | bytes b0 b1 b2 b3 become b3 b2 b1 b0 in place |
| `Util.EndianSwap16` | src/Util.cpp:28-37 | the two bytes are exchanged in place |
| `Util.EndianSwapUnsigned16` | src/Util.cpp:39-41 | the unsigned overload has exactly the effect of the signed one |
| `Application.TimePerFrame` | src/Application.cpp:9 | `TimeSpan::seconds(1.f / 60.f)`, evaluated: 170000 ticks |
| `Application.TimePerFrameNearestMillisecond` | src/Application.cpp:9 | `TimePerFrame` is a whole number of milliseconds, and no whole number of milliseconds is nearer to a sixtieth of a second |
| `Application.UpdatesDue` | src/Application.cpp:28-29 | the count k leaves acc - k*TimePerFrame <= TimePerFrame, and one fewer would not |
| `Application.UpdatesDueIsLeast` | src/Application.cpp:28-29 | no smaller count brings the accumulator down to one frame |
| `Application.Frame` | src/Application.cpp:26-32 | after the inner loop acc = acc0 + elapsed - k*TimePerFrame <= TimePerFrame, with k = `UpdatesDue` calls each passed `TimePerFrame`; the result is non-negative when acc0 + elapsed is; when `+=` overflows the pass stops with acc unchanged |
| `Application.TotalElapsedPrefix` | src/Application.cpp:26-27 | with non-negative frame times, the total over a prefix is at most the total over the whole sequence |
| `Application.Run` | src/Application.cpp:23-32 | starting from `Zero` with non-negative frame times, the accumulator stays in [0, TimePerFrame]; accumulated time = leftover + updates*TimePerFrame; `+=` throws only when the frame times total more than 2^63-1 |

## Left out

- The OpenGL, SDL and ImGui wrappers, the shaders, `onInit` (apart from the
  texture sizes), `onRender`, `onEvent`, `onImGuiRender`, `drawPalette`
  (hovered index 1-based) and `reshape` (float aspect arithmetic). They are
  calls into libraries outside this model.
- The palette table and its GL upload. The upload reads 256 RGB texels from a
  table with only 37 entries, which is an over-read on the GL side.
- `rand()` and its float scaling. They become the input table `rnd`. The table
  holds one draw per source cell, and a cell uses its draw only when it is
  burning; this matches the order in which the real stream is consumed.
- `DoomFire.DoomFireApplication.DoFire`: `ValidDraws` requires in-range writes
  for the draws of sources `W` and `W + 1` even when those cells are 0. The
  C++ code writes before the start of the array in those cases (undefined
  behaviour), and that write is not modelled.
- `DoomFire.DoomFireApplication.OnUpdate`: `amountX`/`amountY` are parameters
  in [-10, 10]. They stand for the whole-number floats that the controller
  handler stores. The float addition `width += amountX` is exact for them and is
  modelled as integer addition. The `reshape` calls, the unused `elapsed`
  argument and the texture upload are not modelled.
- `TimeSpan::seconds`/`milliseconds`/`minutes`/`interval` and the
  `getTotal…` accessors are floating point. They are left out, and so are the
  constants used only by them (`MaxMilliSeconds`, `MinMilliSeconds`,
  `MillisPerSecond`, `MillisPerMinute` and the `…PerTick` floats).
  `TimePerFrame` is their evaluated result, 170000 ticks.
- `StopWatch`, which reads the SDL clock. Frame times are inputs to
  `Application.Run`.
- In `Application::run()`: `processEvents`, the fps counter (float),
  `onRender`, `display` and the `m_done` exit condition. The main loop runs
  for as many passes as there are frame times.
- `Application.Run`: when `+=` throws, the model stops the loop instead of
  propagating the exception out of `run()`.
