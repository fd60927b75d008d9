/**
 * The Doom fire: a 640 x 480 grid of intensities, stored row-major in one byte
 * array, reset to a blazing bottom row and advanced one generation at a time by
 * a sweep that spreads every cell but the top row into the row above it.
 */
module DoomFire {
  import opened Ints
  import Util

  const FireWidth: int := 640
  const FireHeight: int := 480
  const Cells: int := FireWidth * FireHeight

  /** Index of the first cell of the bottom row. */
  const BottomRow: int := (FireHeight - 1) * FireWidth

  /** Highest intensity: the last entry of the 37-colour palette (white). */
  const MaxIntensity: byte := 36

  /** Bounds the window-size globals are clamped to in `onUpdate`. */
  const MinWidth: int := 10
  const MaxWidth: int := 1280 * 2
  const MinHeight: int := 10
  const MaxHeight: int := 720 * 2

  // ---------------------------------------------------------------------------
  // One application of the propagation rule (spreadFire), on values
  // ---------------------------------------------------------------------------

  /** A value `randIdx` can take: `(int)(3.0f * rand() / RAND_MAX)`, 3 when `rand() == RAND_MAX`. */
  predicate DrawInRange(randIdx: int) {
    0 <= randIdx <= 3
  }

  /** The cell a burning source `src` writes to with draw `randIdx`: one row up, shifted by `1 - randIdx`. */
  function TargetIndex(src: int, randIdx: int): int {
    src - randIdx + 1 - FireWidth
  }

  /**
   * The draws handed to the sweep, one per source cell (only a burning source
   * consumes its draw). Every draw is in range and keeps the write inside the
   * grid: this excludes 2 and 3 at source `FireWidth` and 3 at `FireWidth + 1`.
   */
  predicate ValidDraws(rnd: seq<int>) {
    && |rnd| == Cells
    && forall src :: FireWidth <= src < Cells ==> DrawInRange(rnd[src]) && 0 <= TargetIndex(src, rnd[src])
  }

  /**
   * `spreadFire(src)` as a function of the grid: a dead source kills the cell
   * above it; a burning one writes its intensity, lowered by one for an odd
   * draw, to the cell above the source shifted by `1 - randIdx`.
   */
  function Spread(g: seq<byte>, src: int, randIdx: int): (g': seq<byte>)
    requires |g| == Cells && FireWidth <= src < Cells && DrawInRange(randIdx)
    requires g[src] == 0 || 0 <= TargetIndex(src, randIdx)
    ensures |g'| == Cells
  {
    var pixel := g[src];
    if pixel == 0 then g[src - FireWidth := 0]
    else g[TargetIndex(src, randIdx) := pixel - randIdx % 2]  // randIdx & 1
  }

  /** The write of a burning source lands within one column of the cell above, never past the grid. */
  lemma TargetIndexBounds(src: int, randIdx: int)
    requires FireWidth <= src < Cells && DrawInRange(randIdx)
    ensures src - FireWidth - 2 <= TargetIndex(src, randIdx) <= src - FireWidth + 1 < Cells
    ensures TargetIndex(src, randIdx) < 0 <==>
              (src == FireWidth && randIdx >= 2) || (src == FireWidth + 1 && randIdx == 3)
  {
  }

  /** A dead source sets the cell directly above it to 0 and changes nothing else. */
  lemma SpreadDeadSource(g: seq<byte>, src: int, randIdx: int)
    requires |g| == Cells && FireWidth <= src < Cells && DrawInRange(randIdx)
    requires g[src] == 0
    ensures Spread(g, src, randIdx)[src - FireWidth] == 0
    ensures forall i :: 0 <= i < Cells && i != src - FireWidth ==> Spread(g, src, randIdx)[i] == g[i]
  {
  }

  /**
   * A burning source writes exactly one cell, with its own intensity for an
   * even draw and one less for an odd draw, which never wraps below 0.
   */
  lemma SpreadBurningSource(g: seq<byte>, src: int, randIdx: int)
    requires |g| == Cells && FireWidth <= src < Cells && DrawInRange(randIdx)
    requires g[src] != 0 && 0 <= TargetIndex(src, randIdx)
    ensures var dst := TargetIndex(src, randIdx);
      && Spread(g, src, randIdx)[dst] == (if randIdx % 2 == 0 then g[src] else g[src] - 1)
      && 0 <= Spread(g, src, randIdx)[dst] <= g[src]
      && forall i :: 0 <= i < Cells && i != dst ==> Spread(g, src, randIdx)[i] == g[i]
  {
  }

  /** Every cell is at most `bound`. */
  predicate AllAtMost(g: seq<byte>, bound: int) {
    forall i :: 0 <= i < |g| ==> g[i] <= bound
  }

  /** No write exceeds the intensity just read, so a bound on every cell survives one spread. */
  lemma SpreadKeepsBound(g: seq<byte>, src: int, randIdx: int, bound: int)
    requires |g| == Cells && FireWidth <= src < Cells && DrawInRange(randIdx)
    requires g[src] == 0 || 0 <= TargetIndex(src, randIdx)
    requires AllAtMost(g, bound)
    ensures AllAtMost(Spread(g, src, randIdx), bound)
  {
  }

  // ---------------------------------------------------------------------------
  // The sweep (doFire), on values
  // ---------------------------------------------------------------------------

  predicate AreSources(srcs: seq<int>) {
    forall k :: 0 <= k < |srcs| ==> FireWidth <= srcs[k] < Cells
  }

  /** The grid after spreading from each of `srcs` in turn, in place: later sources see earlier writes. */
  function Sweep(g: seq<byte>, rnd: seq<int>, srcs: seq<int>): (g': seq<byte>)
    requires |g| == Cells && ValidDraws(rnd) && AreSources(srcs)
    ensures |g'| == Cells
    decreases |srcs|
  {
    if srcs == [] then g
    else
      var src := srcs[|srcs| - 1];
      Spread(Sweep(g, rnd, srcs[..|srcs| - 1]), src, rnd[src])
  }

  /** Extending the list of sources by one spreads once more from the grid reached so far. */
  lemma SweepStep(g: seq<byte>, rnd: seq<int>, srcs: seq<int>, k: int)
    requires |g| == Cells && ValidDraws(rnd) && AreSources(srcs) && 0 <= k < |srcs|
    ensures Sweep(g, rnd, srcs[..k + 1]) == Spread(Sweep(g, rnd, srcs[..k]), srcs[k], rnd[srcs[k]])
  {
    assert srcs[..k + 1][..k] == srcs[..k];
  }

  /** The order of `doFire`'s nested loops: column `x` outer, row `y` from 1 inner. */
  function SweepOrder(): (order: seq<int>)
    ensures |order| == FireWidth * (FireHeight - 1)
    ensures AreSources(order)
  {
    seq(FireWidth * (FireHeight - 1), k => (k % (FireHeight - 1) + 1) * FireWidth + k / (FireHeight - 1))
  }

  /** One generation: the sweep over every cell below the top row. */
  function NextGeneration(g: seq<byte>, rnd: seq<int>): (g': seq<byte>)
    requires |g| == Cells && ValidDraws(rnd)
    ensures |g'| == Cells
  {
    Sweep(g, rnd, SweepOrder())
  }

  /** The position in the sweep at which column `x`, row `y` is visited. */
  function VisitIndex(x: int, y: int): int {
    x * (FireHeight - 1) + y - 1
  }

  /** The flat index of column `x`, row `y`. */
  function CellIndex(x: int, y: int): int {
    y * FireWidth + x
  }

  /** The visit after the last row of column `x` is the first row of column `x + 1`; all columns cover the sweep. */
  lemma NextColumn(x: int)
    ensures VisitIndex(x, FireHeight) == VisitIndex(x + 1, 1)
    ensures VisitIndex(0, 1) == 0 && VisitIndex(FireWidth, 1) == |SweepOrder()|
  {
  }

  /** Visit number `x * (H - 1) + y - 1` of the sweep is the cell in column `x`, row `y`. */
  lemma SweepPosition(x: int, y: int)
    requires 0 <= x < FireWidth && 1 <= y < FireHeight
    ensures 0 <= VisitIndex(x, y) < |SweepOrder()|
    ensures SweepOrder()[VisitIndex(x, y)] == CellIndex(x, y)
  {
    var k := VisitIndex(x, y);
    assert k / (FireHeight - 1) == x && k % (FireHeight - 1) == y - 1;
  }

  /** Every cell below the top row is visited. */
  lemma SweepCovers(src: int)
    requires FireWidth <= src < Cells
    ensures src in SweepOrder()
  {
    var x, y := src % FireWidth, src / FireWidth;
    SweepPosition(x, y);
  }

  /** No cell is visited twice. */
  lemma SweepDistinct(j: int, k: int)
    requires 0 <= j < k < |SweepOrder()|
    ensures SweepOrder()[j] != SweepOrder()[k]
  {
    var xj, yj := j / (FireHeight - 1), j % (FireHeight - 1) + 1;
    var xk, yk := k / (FireHeight - 1), k % (FireHeight - 1) + 1;
    assert SweepOrder()[j] == CellIndex(xj, yj) && SweepOrder()[k] == CellIndex(xk, yk);
    if xj == xk {
      assert yj != yk;
    } else {
      assert CellIndex(xj, yj) % FireWidth == xj && CellIndex(xk, yk) % FireWidth == xk;
    }
  }

  /**
   * The sweep spreads from every cell outside the top row exactly once, column
   * by column, and never from the top row.
   */
  lemma SweepVisitsEachSourceOnce()
    ensures forall x, y :: 0 <= x < FireWidth && 1 <= y < FireHeight ==>
      0 <= VisitIndex(x, y) < |SweepOrder()| && SweepOrder()[VisitIndex(x, y)] == CellIndex(x, y)
    ensures forall src :: FireWidth <= src < Cells ==> src in SweepOrder()
    ensures forall j, k :: 0 <= j < k < |SweepOrder()| ==> SweepOrder()[j] != SweepOrder()[k]
    ensures forall k :: 0 <= k < |SweepOrder()| ==> SweepOrder()[k] >= FireWidth
  {
    forall x, y | 0 <= x < FireWidth && 1 <= y < FireHeight
      ensures 0 <= VisitIndex(x, y) < |SweepOrder()| && SweepOrder()[VisitIndex(x, y)] == CellIndex(x, y)
    {
      SweepPosition(x, y);
    }
    forall src | FireWidth <= src < Cells
      ensures src in SweepOrder()
    {
      SweepCovers(src);
    }
    forall j, k | 0 <= j < k < |SweepOrder()|
      ensures SweepOrder()[j] != SweepOrder()[k]
    {
      SweepDistinct(j, k);
    }
  }

  /** A sweep from sources left of the last cell never writes the bottom row. */
  lemma {:induction false} SweepSparesBottomRow(g: seq<byte>, rnd: seq<int>, srcs: seq<int>)
    requires |g| == Cells && ValidDraws(rnd) && AreSources(srcs)
    requires forall k :: 0 <= k < |srcs| ==> srcs[k] < Cells - 1
    ensures forall i :: BottomRow <= i < Cells ==> Sweep(g, rnd, srcs)[i] == g[i]
    decreases |srcs|
  {
    if srcs != [] {
      SweepSparesBottomRow(g, rnd, srcs[..|srcs| - 1]);
    }
  }

  /** A bound on every cell survives any sweep. */
  lemma {:induction false} SweepKeepsBound(g: seq<byte>, rnd: seq<int>, srcs: seq<int>, bound: int)
    requires |g| == Cells && ValidDraws(rnd) && AreSources(srcs)
    requires AllAtMost(g, bound)
    ensures AllAtMost(Sweep(g, rnd, srcs), bound)
    decreases |srcs|
  {
    if srcs != [] {
      var src := srcs[|srcs| - 1];
      SweepKeepsBound(g, rnd, srcs[..|srcs| - 1], bound);
      SpreadKeepsBound(Sweep(g, rnd, srcs[..|srcs| - 1]), src, rnd[src], bound);
    }
  }

  /** If every cell is at most 36 before a generation, every cell is at most 36 after it. */
  lemma NextGenerationKeepsPalette(g: seq<byte>, rnd: seq<int>)
    requires |g| == Cells && ValidDraws(rnd) && AllAtMost(g, MaxIntensity)
    ensures AllAtMost(NextGeneration(g, rnd), MaxIntensity)
  {
    SweepKeepsBound(g, rnd, SweepOrder(), MaxIntensity);
  }

  /**
   * A generation writes the bottom row only at its first cell, and only from
   * the last cell with draw 0, copying that cell's intensity unchanged.
   */
  lemma NextGenerationBottomRow(g: seq<byte>, rnd: seq<int>)
    requires |g| == Cells && ValidDraws(rnd)
    ensures forall i :: BottomRow < i < Cells ==> NextGeneration(g, rnd)[i] == g[i]
    ensures NextGeneration(g, rnd)[BottomRow] ==
      if g[Cells - 1] != 0 && rnd[Cells - 1] == 0 then g[Cells - 1] else g[BottomRow]
  {
    var order := SweepOrder();
    var n := |order|;
    var prefix := order[..n - 1];
    SweepPosition(FireWidth - 1, FireHeight - 1);
    assert order[n - 1] == Cells - 1;
    forall k | 0 <= k < |prefix| ensures prefix[k] < Cells - 1 {
      SweepDistinct(k, n - 1);
    }
    SweepSparesBottomRow(g, rnd, prefix);
    assert NextGeneration(g, rnd) == Spread(Sweep(g, rnd, prefix), Cells - 1, rnd[Cells - 1]);
  }

  /** After `reset`: dark everywhere except a bottom row at full intensity. */
  predicate IsResetGrid(g: seq<byte>) {
    && |g| == Cells
    && (forall i :: 0 <= i < BottomRow ==> g[i] == 0)
    && (forall i :: BottomRow <= i < Cells ==> g[i] == MaxIntensity)
  }

  /** The grid `reset` leaves does not depend on what was there: resetting twice equals resetting once. */
  lemma ResetGridUnique(g1: seq<byte>, g2: seq<byte>)
    requires IsResetGrid(g1) && IsResetGrid(g2)
    ensures g1 == g2
  {
    assert forall i :: 0 <= i < Cells ==> g1[i] == g2[i];
  }

  /** A bottom row all at 36 stays all at 36, and every cell stays within the palette, generation after generation. */
  lemma {:induction false} FireKeepsBurning(g: seq<byte>, rnd: seq<int>)
    requires |g| == Cells && ValidDraws(rnd) && AllAtMost(g, MaxIntensity)
    requires forall i :: BottomRow <= i < Cells ==> g[i] == MaxIntensity
    ensures AllAtMost(NextGeneration(g, rnd), MaxIntensity)
    ensures forall i :: BottomRow <= i < Cells ==> NextGeneration(g, rnd)[i] == MaxIntensity
  {
    NextGenerationKeepsPalette(g, rnd);
    NextGenerationBottomRow(g, rnd);
  }

  function Distance(a: int, b: int): nat {
    if a <= b then b - a else a - b
  }

  /** `max(lo, min(v, hi))`: the point of `[lo, hi]` nearest to `v`. */
  function Clamp(v: int, lo: int, hi: int): (r: int)
    requires lo <= hi
    ensures lo <= r <= hi
    ensures lo <= v <= hi ==> r == v
    ensures forall w :: lo <= w <= hi ==> Distance(r, v) <= Distance(w, v)
  {
    if v < lo then lo else if v > hi then hi else v
  }

  // ---------------------------------------------------------------------------
  // The application object
  // ---------------------------------------------------------------------------

  /**
   * The state `DoomFireApplication` mutates: the grid `m_image`, and the
   * file-scope globals `width` and `height` that `onUpdate` resizes.
   */
  class DoomFireApplication {
    var image: array<byte>
    var width: int
    var height: int

    /** The grid has its fixed size and holds palette indices; the window size is within its clamps. */
    ghost predicate Valid()
      reads this, image
    {
      && image.Length == Cells
      && AllAtMost(image[..], MaxIntensity)
      && MinWidth <= width <= MaxWidth
      && MinHeight <= height <= MaxHeight
    }

    /** `m_image{}` is zero-initialised; the globals start at 1280 x 720. */
    constructor ()
      ensures Valid() && fresh(image)
      ensures forall i :: 0 <= i < Cells ==> image[i] == 0
      ensures width == 1280 && height == 720
    {
      image := new byte[Cells](_ => 0);
      width, height := 1280, 720;
    }

    /** `reset()`: the two `memset`s, over the whole grid and then over the bottom row. */
    method Reset()
      requires Valid()
      modifies image
      ensures Valid()
      ensures IsResetGrid(image[..])
    {
      forall i | 0 <= i < image.Length {
        image[i] := 0;
      }
      forall i | BottomRow <= i < Cells {
        image[i] := MaxIntensity;
      }
    }

    /** `spreadFire(src)`: the one cell `Spread` changes is written in place. */
    method SpreadFire(src: int, randIdx: int)
      requires Valid() && FireWidth <= src < Cells && DrawInRange(randIdx)
      requires image[src] == 0 || 0 <= TargetIndex(src, randIdx)
      modifies image
      ensures Valid()
      ensures image[..] == Spread(old(image[..]), src, randIdx)
    {
      SpreadKeepsBound(image[..], src, randIdx, MaxIntensity);
      var pixel := image[src];
      if pixel == 0 {
        image[src - FireWidth] := 0;
      } else {
        var dst := src - randIdx + 1;
        image[dst - FireWidth] := pixel - randIdx % 2;  // randIdx & 1
      }
    }

    /** `doFire()`: the in-place sweep, column by column, row 1 to the bottom within each column. */
    method DoFire(rnd: seq<int>)
      requires Valid() && ValidDraws(rnd)
      modifies image
      ensures Valid()
      ensures image[..] == NextGeneration(old(image[..]), rnd)
    {
      ghost var g := image[..];
      ghost var order := SweepOrder();
      var x := 0;
      while x < FireWidth
        invariant 0 <= x <= FireWidth
        invariant Valid()
        invariant image[..] == Sweep(g, rnd, order[..VisitIndex(x, 1)])
      {
        var y := 1;
        while y < FireHeight
          invariant 1 <= y <= FireHeight
          invariant Valid()
          invariant image[..] == Sweep(g, rnd, order[..VisitIndex(x, y)])
        {
          SweepPosition(x, y);
          SweepStep(g, rnd, order, VisitIndex(x, y));
          SpreadFire(y * FireWidth + x, rnd[y * FireWidth + x]);
          y := y + 1;
        }
        NextColumn(x);
        x := x + 1;
      }
      NextColumn(x);
      assert order[..VisitIndex(x, 1)] == order;
    }

    /**
     * The integer part of `onUpdate`: each non-zero axis amount resizes the
     * window global, clamped to its bounds, then one generation of fire runs.
     * The amounts are the whole numbers in [-10, 10] the controller handler stores.
     */
    method OnUpdate(amountX: int, amountY: int, rnd: seq<int>)
      requires Valid() && ValidDraws(rnd)
      requires -10 <= amountX <= 10 && -10 <= amountY <= 10
      modifies this, image
      ensures Valid() && image == old(image)
      ensures width == if amountX == 0 then old(width) else Clamp(old(width) + amountX, MinWidth, MaxWidth)
      ensures height == if amountY == 0 then old(height) else Clamp(old(height) + amountY, MinHeight, MaxHeight)
      ensures image[..] == NextGeneration(old(image[..]), rnd)
    {
      if amountX != 0 {
        width := width + amountX;
        if width < MinWidth {
          width := MinWidth;
        }
        if width > MaxWidth {
          width := MaxWidth;
        }
      }
      if amountY != 0 {
        height := height + amountY;
        if height < MinHeight {
          height := MinHeight;
        }
        if height > MaxHeight {
          height := MaxHeight;
        }
      }
      DoFire(rnd);
    }
  }

  /** The texture extents `onInit` allocates: the grid's sides rounded up to powers of two. */
  method TextureExtent() returns (texWidth: bv32, texHeight: bv32)
    ensures texWidth == 1024 && texHeight == 512
  {
    texWidth := Util.NextPow2(640);   // FireWidth
    texHeight := Util.NextPow2(480);  // FireHeight
  }
}
