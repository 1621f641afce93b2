/**
 * The selection rule behind the waveform renderer: the noise field, the
 * grid dimensions, the row-dependent threshold and alpha curve, and the
 * sequence of fill commands one frame produces.  Everything here is a pure
 * function of its inputs; the renderer class in module Waveform computes
 * the same thing step by step and is proved against FrameFills below.
 *
 * Doubles are idealised as reals.  Math.sin and Math.cos are not
 * computable here, so they travel as a `Trig` value whose only known
 * property is UnitRange.
 */
module WaveformGrid {
  import opened Numbers

  /** Side of one grid cell in pixels (`gridSize`). */
  const GridSize: nat := 10

  /** The two library functions the noise field is built from. */
  datatype Trig = Trig(sin: real -> real, cos: real -> real)

  /** What the noise field relies on: both functions stay within [-1, 1]. */
  ghost predicate UnitRange(trig: Trig) {
    && (forall a :: -1.0 <= trig.sin(a) <= 1.0)
    && (forall a :: -1.0 <= trig.cos(a) <= 1.0)
  }

  datatype Option<T> = None | Some(value: T)

  /** A grid cell: column `x`, row `y`. */
  datatype Cell = Cell(x: int, y: int)

  /** One `fillRect(x, y, w, h)` call with the alpha of its white fill style. */
  datatype Fill = Fill(x: int, y: int, w: int, h: int, alpha: real)

  /** Everything one frame depends on. */
  datatype Frame = Frame(trig: Trig, cols: nat, rows: nat, time: real)

  // ---------------------------------------------------------------------
  // Grid dimensions

  /** Math.ceil(extent / gridSize): the number of cells needed to cover `extent` pixels. */
  function CellsToCover(extent: nat): (c: nat)
    ensures c * GridSize >= extent
    ensures c * GridSize < extent + GridSize
  {
    (extent + GridSize - 1) / GridSize
  }

  /** CellsToCover is the least cell count covering the extent, i.e. the ceiling. */
  lemma CellsToCoverIsLeast(extent: nat, k: int)
    requires k * GridSize >= extent
    ensures k >= CellsToCover(extent)
  {
  }

  // ---------------------------------------------------------------------
  // Noise field

  /** The scalar field sampled per cell: the mean of three sinusoids. */
  function Noise(trig: Trig, x: int, y: int, t: real): (n: real)
    ensures UnitRange(trig) ==> -1.0 <= n <= 1.0
  {
    var v1 := trig.sin(x as real * 0.05 - t * 0.2);
    var v2 := trig.cos(y as real * 0.05 + t * 0.1);
    var v3 := trig.sin((x + y) as real * 0.02 + t);
    (v1 + v2 + v3) / 3.0
  }

  // ---------------------------------------------------------------------
  // Row-dependent activation curve

  /** The first row that is drawn: two fifths of the rows, rounded down. */
  function StartRow(rows: nat): (s: nat)
    ensures s <= rows
    ensures rows > 0 ==> s < rows
  {
    (2 * rows) / 5
  }

  /** StartRow is Math.floor(rows * 0.4), computed exactly. */
  lemma StartRowIsFloor(rows: nat)
    ensures StartRow(rows) == (rows as real * 0.4).Floor
  {
    var q := (2 * rows) / 5;
    assert rows as real * 0.4 == q as real + ((2 * rows) % 5) as real / 5.0;
  }

  /** How far down the drawn region row `y` lies: 0 at the start row, approaching 1 at the bottom. */
  function HeightFactor(y: int, start: nat, rows: nat): (hf: real)
    requires start <= y < rows
    ensures 0.0 <= hf < 1.0
    ensures hf == 0.0 <==> y == start
  {
    (y - start) as real / (rows - start) as real
  }

  /** The activation bar, which lowers toward the bottom of the region. */
  function Threshold(hf: real): (th: real)
    ensures 0.0 <= hf < 1.0 ==> 0.2 < th <= 0.6
    ensures hf == 0.0 ==> th == 0.6
  {
    0.6 - hf * 0.4
  }

  /** The alpha curve min(0.9, (n - threshold) * 3) * hf * 0.35. */
  function Alpha(n: real, hf: real): (a: real)
    ensures n > Threshold(hf) && 0.0 <= hf < 1.0 ==> 0.0 <= a < 0.315
  {
    var m := Min(0.9, (n - Threshold(hf)) * 3.0);
    AlphaBelowCap(m, hf);
    m * hf * 0.35
  }

  /**
   * Whether a cell with noise value `n` at height factor `hf` is filled,
   * and with what alpha: it must clear the threshold, and the resulting
   * alpha must exceed the visibility floor 0.01.
   */
  function Emission(n: real, hf: real): (r: Option<real>)
    ensures r.Some? ==> n > Threshold(hf) && r.value > 0.01
    ensures r.Some? && 0.0 <= hf < 1.0 ==> r.value < 0.315
    ensures hf == 0.0 ==> r == None
  {
    if n > Threshold(hf) then
      var alpha := Alpha(n, hf);
      if alpha > 0.01 then Some(alpha) else None
    else
      None
  }

  lemma MulMonotone(a: real, b: real, c: real)
    requires a <= b && 0.0 <= c
    ensures a * c <= b * c && c * a <= c * b
  {
  }

  /** An alpha curve value of at most 0.9 scaled by a height factor below 1 stays below 0.315. */
  lemma AlphaBelowCap(m: real, hf: real)
    ensures 0.0 < m <= 0.9 && 0.0 <= hf < 1.0 ==> 0.0 <= m * hf * 0.35 < 0.315
  {
    if 0.0 < m <= 0.9 && 0.0 <= hf < 1.0 {
      MulMonotone(m, 0.9, hf);
      MulMonotone(0.0, m, hf);
    }
  }

  /**
   * A stronger noise value, or a lower row, never turns an emitted cell off
   * nor makes it fainter: lower rows are more receptive.
   */
  lemma EmissionMonotone(n1: real, n2: real, h1: real, h2: real)
    requires n1 <= n2 && 0.0 <= h1 <= h2
    requires Emission(n1, h1).Some?
    ensures Emission(n2, h2).Some?
    ensures Emission(n1, h1).value <= Emission(n2, h2).value
  {
    assert Threshold(h2) <= Threshold(h1) < n1 <= n2;
    AlphaMonotone(n1, n2, h1, h2);
  }

  /** The alpha curve grows with the noise value and with the height factor. */
  lemma AlphaMonotone(n1: real, n2: real, h1: real, h2: real)
    requires n1 <= n2 && 0.0 <= h1 <= h2 && n1 > Threshold(h1)
    ensures Alpha(n1, h1) <= Alpha(n2, h2)
  {
    var m1 := Min(0.9, (n1 - Threshold(h1)) * 3.0);
    var m2 := Min(0.9, (n2 - Threshold(h2)) * 3.0);
    assert 0.0 < m1 <= m2;
    ScaleMonotone(m1, m2, h1, h2);
  }

  lemma ScaleMonotone(m1: real, m2: real, h1: real, h2: real)
    requires 0.0 <= m1 <= m2 && 0.0 <= h1 <= h2
    ensures m1 * h1 * 0.35 <= m2 * h2 * 0.35
  {
    MulMonotone(h1, h2, m1);
    MulMonotone(m1, m2, h2);
    MulMonotone(m1 * h1, m2 * h2, 0.35);
  }

  /** The worked case of a cell that clears the threshold but falls under the visibility floor. */
  lemma VisibilityFloorExample()
    ensures StartRow(10) == 4
    ensures HeightFactor(7, 4, 10) == 0.5 && Threshold(0.5) == 0.4
    ensures Emission(0.4061, 0.5) == None
  {
  }

  // ---------------------------------------------------------------------
  // One frame as a sequence of fill commands

  /** Row `y` of the drawn region lies between the start row and the last row. */
  predicate InDrawnRows(rows: nat, c: Cell) {
    StartRow(rows) <= c.y < rows
  }

  /** The alpha decided for one visited cell, if it is filled. */
  function CellAlpha(f: Frame, c: Cell): (r: Option<real>)
    requires InDrawnRows(f.rows, c)
    ensures r.Some? ==> 0.01 < r.value < 0.315
    ensures c.y == StartRow(f.rows) ==> r == None
  {
    var start := StartRow(f.rows);
    Emission(Noise(f.trig, c.x, c.y, f.time), HeightFactor(c.y, start, f.rows))
  }

  /** The rectangle drawn for cell `c`: its grid square less a one-pixel gap. */
  function CellRect(c: Cell, alpha: real): Fill {
    Fill(c.x * GridSize, c.y * GridSize, GridSize - 1, GridSize - 1, alpha)
  }

  /** The rectangle of a cell is a lattice square whose origin lies in that cell. */
  lemma CellRectInCell(c: Cell, alpha: real)
    ensures var r := CellRect(c, alpha);
      OnGrid(r) && r.x / GridSize == c.x && r.y / GridSize == c.y && r.alpha == alpha
  {
    var r := CellRect(c, alpha);
    assert r.x == c.x * 10 && r.y == c.y * 10;
  }

  /**
   * The fills one cell contributes: none or one.  Cells outside the drawn
   * rows are never visited; they contribute nothing.
   */
  function CellFills(f: Frame, c: Cell): seq<Fill> {
    if !InDrawnRows(f.rows, c) then []
    else match CellAlpha(f, c)
      case Some(a) => [CellRect(c, a)]
      case None => []
  }

  /** Cells (0, y), ..., (n - 1, y) in column order. */
  function RowCells(y: int, n: nat): (r: seq<Cell>)
    ensures |r| == n
    ensures forall i :: 0 <= i < n ==> r[i] == Cell(i, y)
  {
    if n == 0 then [] else RowCells(y, n - 1) + [Cell(n - 1, y)]
  }

  /** The cells of rows start, ..., m - 1, row-major with rows outermost. */
  function VisitOrder(cols: nat, start: int, m: int): (r: seq<Cell>)
    decreases m - start
  {
    if m <= start then [] else VisitOrder(cols, start, m - 1) + RowCells(m - 1, cols)
  }

  /** Only cells of rows start, ..., m - 1 inside the columns are visited. */
  lemma {:induction false} VisitOrderWithin(cols: nat, start: int, m: int)
    ensures forall i :: 0 <= i < |VisitOrder(cols, start, m)| ==>
      start <= VisitOrder(cols, start, m)[i].y < m && 0 <= VisitOrder(cols, start, m)[i].x < cols
    decreases m - start
  {
    if m > start {
      VisitOrderWithin(cols, start, m - 1);
    }
  }

  /** The cells one draw call visits, in the order it visits them. */
  function Visited(cols: nat, rows: nat): seq<Cell> {
    VisitOrder(cols, StartRow(rows), rows)
  }

  /** The fills produced by visiting `cells` in order. */
  function Emit(f: Frame, cells: seq<Cell>): seq<Fill> {
    if cells == [] then []
    else Emit(f, cells[..|cells| - 1]) + CellFills(f, cells[|cells| - 1])
  }

  /** The rows visited up to m + 1 are those up to m followed by row m. */
  lemma VisitOrderNextRow(cols: nat, start: int, m: int)
    requires start <= m
    ensures VisitOrder(cols, start, m + 1) == VisitOrder(cols, start, m) + RowCells(m, cols)
  {
  }

  /** Visiting one more cell appends what that cell contributes. */
  lemma EmitStep(f: Frame, cells: seq<Cell>, c: Cell)
    ensures Emit(f, cells + [c]) == Emit(f, cells) + CellFills(f, c)
  {
    assert (cells + [c])[..|cells|] == cells;
  }

  /** What one call of `draw` emits: at most one fill per visited cell. */
  function FrameFills(f: Frame): seq<Fill> {
    Emit(f, Visited(f.cols, f.rows))
  }

  // ---------------------------------------------------------------------
  // Which cells are visited

  /** The walk over rows start, ..., m - 1 visits cols cells per row. */
  lemma {:induction false} VisitOrderLength(cols: nat, start: int, m: int)
    requires start <= m
    ensures |VisitOrder(cols, start, m)| == cols * (m - start)
    decreases m - start
  {
    if m > start {
      VisitOrderLength(cols, start, m - 1);
      assert cols * (m - start) == cols * (m - 1 - start) + cols;
    }
  }

  /** Every cell of rows start, ..., m - 1 inside the columns is visited. */
  lemma {:induction false} VisitOrderCovers(cols: nat, start: int, m: int, c: Cell)
    requires start <= c.y < m && 0 <= c.x < cols
    ensures c in VisitOrder(cols, start, m)
    decreases m - start
  {
    var prev := VisitOrder(cols, start, m - 1);
    var row := RowCells(m - 1, cols);
    assert VisitOrder(cols, start, m) == prev + row;
    if c.y == m - 1 {
      assert row[c.x] == c;
    } else {
      VisitOrderCovers(cols, start, m - 1, c);
    }
  }

  /**
   * Draw visits exactly the cells with startRow <= y < rows and
   * 0 <= x < cols; no row above the start row is ever evaluated.
   */
  lemma VisitedExactly(cols: nat, rows: nat, c: Cell)
    ensures c in Visited(cols, rows) <==> StartRow(rows) <= c.y < rows && 0 <= c.x < cols
  {
    if StartRow(rows) <= c.y < rows && 0 <= c.x < cols {
      VisitOrderCovers(cols, StartRow(rows), rows, c);
    } else {
      VisitOrderWithin(cols, StartRow(rows), rows);
    }
  }

  /** With no rows (or no columns) nothing is visited, so no division is ever reached. */
  lemma EmptyGridVisitsNothing(cols: nat, rows: nat)
    requires rows == 0 || cols == 0
    ensures Visited(cols, rows) == []
  {
    VisitOrderLength(cols, StartRow(rows), rows);
  }

  /** Strict row-major order of cells. */
  predicate CellBefore(a: Cell, b: Cell) {
    a.y < b.y || (a.y == b.y && a.x < b.x)
  }

  predicate CellsSorted(cells: seq<Cell>) {
    forall i, j :: 0 <= i < j < |cells| ==> CellBefore(cells[i], cells[j])
  }

  lemma {:induction false} VisitOrderSorted(cols: nat, start: int, m: int)
    ensures CellsSorted(VisitOrder(cols, start, m))
    decreases m - start
  {
    if m > start {
      VisitOrderSorted(cols, start, m - 1);
      VisitOrderWithin(cols, start, m - 1);
      var prev := VisitOrder(cols, start, m - 1);
      var row := RowCells(m - 1, cols);
      var s := prev + row;
      forall i, j | 0 <= i < j < |s|
        ensures CellBefore(s[i], s[j])
      {
        if j < |prev| {
          assert s[i] == prev[i] && s[j] == prev[j];
        } else if i < |prev| {
          assert s[i] == prev[i] && s[j] == row[j - |prev|];
        } else {
          assert s[i] == row[i - |prev|] && s[j] == row[j - |prev|];
        }
      }
    }
  }

  // ---------------------------------------------------------------------
  // Which cells are filled

  /**
   * Visiting cells issues at most one fill per cell; in particular a frame
   * has at most one fill per visited cell.
   */
  lemma {:induction false} EmitAtMostOnePerCell(f: Frame, cells: seq<Cell>)
    ensures |Emit(f, cells)| <= |cells|
    decreases |cells|
  {
    if cells != [] {
      EmitAtMostOnePerCell(f, cells[..|cells| - 1]);
    }
  }

  /** The fills of two walks in turn are the fills of the joined walk. */
  lemma {:induction false} EmitAppend(f: Frame, a: seq<Cell>, b: seq<Cell>)
    ensures Emit(f, a + b) == Emit(f, a) + Emit(f, b)
    decreases |b|
  {
    if b == [] {
      assert a + b == a;
    } else {
      var b' := b[..|b| - 1];
      assert (a + b)[..|a + b| - 1] == a + b';
      EmitAppend(f, a, b');
    }
  }

  /** Every emitted fill is the rectangle of a cell in `cells` whose alpha decision was positive. */
  lemma {:induction false} EmitSound(f: Frame, cells: seq<Cell>, k: nat)
    requires k < |Emit(f, cells)|
    ensures exists c :: c in cells && InDrawnRows(f.rows, c) && CellAlpha(f, c).Some? && Emit(f, cells)[k] == CellRect(c, CellAlpha(f, c).value)
    decreases |cells|
  {
    var init := cells[..|cells| - 1];
    var last := cells[|cells| - 1];
    if k < |Emit(f, init)| {
      EmitSound(f, init, k);
      var c :| c in init && InDrawnRows(f.rows, c) && CellAlpha(f, c).Some? && Emit(f, init)[k] == CellRect(c, CellAlpha(f, c).value);
      assert c in cells;
    } else {
      assert Emit(f, cells)[k] == CellFills(f, last)[k - |Emit(f, init)|];
      assert last in cells;
    }
  }

  /** Every cell in `cells` whose alpha decision is positive has its rectangle emitted. */
  lemma {:induction false} EmitComplete(f: Frame, cells: seq<Cell>, c: Cell)
    requires c in cells && InDrawnRows(f.rows, c) && CellAlpha(f, c).Some?
    ensures CellRect(c, CellAlpha(f, c).value) in Emit(f, cells)
    decreases |cells|
  {
    var init := cells[..|cells| - 1];
    if c == cells[|cells| - 1] {
      assert CellFills(f, c) == [CellRect(c, CellAlpha(f, c).value)];
    } else {
      assert c in init by {
        var i :| 0 <= i < |cells| && cells[i] == c;
        assert i < |cells| - 1 && init[i] == c;
      }
      EmitComplete(f, init, c);
    }
  }

  /**
   * A fill is emitted in a frame if and only if it is the 9 x 9 rectangle at
   * (x * 10, y * 10) of a visited cell (x, y) whose noise clears the
   * threshold with an alpha above 0.01, and that alpha is its alpha.
   */
  lemma FrameFillsExactly(f: Frame, x: int, y: int, alpha: real)
    ensures Fill(x * GridSize, y * GridSize, GridSize - 1, GridSize - 1, alpha) in FrameFills(f)
        <==> StartRow(f.rows) <= y < f.rows && 0 <= x < f.cols && CellAlpha(f, Cell(x, y)) == Some(alpha)
  {
    var cells := Visited(f.cols, f.rows);
    var fill := Fill(x * GridSize, y * GridSize, GridSize - 1, GridSize - 1, alpha);
    if fill in FrameFills(f) {
      var k :| 0 <= k < |FrameFills(f)| && FrameFills(f)[k] == fill;
      EmitSound(f, cells, k);
      var c :| c in cells && InDrawnRows(f.rows, c) && CellAlpha(f, c).Some? && FrameFills(f)[k] == CellRect(c, CellAlpha(f, c).value);
      assert c == Cell(x, y);
      VisitedExactly(f.cols, f.rows, c);
    }
    if StartRow(f.rows) <= y < f.rows && 0 <= x < f.cols && CellAlpha(f, Cell(x, y)) == Some(alpha) {
      VisitedExactly(f.cols, f.rows, Cell(x, y));
      EmitComplete(f, cells, Cell(x, y));
    }
  }

  /**
   * Every fill of a frame is a 9 x 9 rectangle on the grid, strictly below
   * the start row, inside the columns, with alpha in (0.01, 0.315).
   */
  lemma FrameFillsShape(f: Frame, k: nat)
    requires k < |FrameFills(f)|
    ensures var fill := FrameFills(f)[k];
      && fill.w == GridSize - 1 && fill.h == GridSize - 1
      && fill.x % GridSize == 0 && 0 <= fill.x / GridSize < f.cols
      && fill.y % GridSize == 0 && StartRow(f.rows) < fill.y / GridSize < f.rows
      && 0.01 < fill.alpha < 0.315
  {
    var cells := Visited(f.cols, f.rows);
    EmitSound(f, cells, k);
    var c :| c in cells && InDrawnRows(f.rows, c) && CellAlpha(f, c).Some? && FrameFills(f)[k] == CellRect(c, CellAlpha(f, c).value);
    VisitedExactly(f.cols, f.rows, c);
    var fill := FrameFills(f)[k];
    assert fill.x == c.x * 10 && fill.y == c.y * 10;
    assert fill.x / 10 == c.x && fill.y / 10 == c.y;
    assert c.y != StartRow(f.rows);
  }

  /** A 9 x 9 rectangle whose origin is the corner of a grid cell. */
  predicate OnGrid(fill: Fill) {
    && fill.w == GridSize - 1 && fill.h == GridSize - 1
    && fill.x % GridSize == 0 && fill.y % GridSize == 0
  }

  lemma EmitOnGrid(f: Frame, cells: seq<Cell>, k: nat)
    requires k < |Emit(f, cells)|
    ensures OnGrid(Emit(f, cells)[k])
  {
    EmitSound(f, cells, k);
    var c :| c in cells && InDrawnRows(f.rows, c) && CellAlpha(f, c).Some? && Emit(f, cells)[k] == CellRect(c, CellAlpha(f, c).value);
    var fill := Emit(f, cells)[k];
    assert fill.x == c.x * 10 && fill.y == c.y * 10;
    assert fill.x / 10 == c.x && fill.y / 10 == c.y;
  }

  /** Grid rectangles in strict row-major order share no pixel, since each leaves a one-pixel gap. */
  lemma OnGridDisjoint(a: Fill, b: Fill)
    requires OnGrid(a) && OnGrid(b) && FillBefore(a, b)
    ensures Disjoint(a, b)
  {
  }

  /** Strict row-major order of rectangle origins. */
  predicate FillBefore(a: Fill, b: Fill) {
    a.y < b.y || (a.y == b.y && a.x < b.x)
  }

  /** Two rectangles share no pixel. */
  predicate Disjoint(a: Fill, b: Fill) {
    a.x + a.w <= b.x || b.x + b.w <= a.x || a.y + a.h <= b.y || b.y + b.h <= a.y
  }

  lemma {:induction false} EmitSorted(f: Frame, cells: seq<Cell>)
    requires CellsSorted(cells)
    ensures forall i, j :: 0 <= i < j < |Emit(f, cells)| ==> FillBefore(Emit(f, cells)[i], Emit(f, cells)[j])
    decreases |cells|
  {
    if cells != [] {
      var init := cells[..|cells| - 1];
      var last := cells[|cells| - 1];
      EmitSorted(f, init);
      var e := Emit(f, init);
      var s := Emit(f, cells);
      assert s == e + CellFills(f, last);
      forall i, j | 0 <= i < j < |s|
        ensures FillBefore(s[i], s[j])
      {
        if j < |e| {
          assert s[i] == e[i] && s[j] == e[j];
        } else {
          assert i < |e|;
          EmitSound(f, init, i);
          var c :| c in init && InDrawnRows(f.rows, c) && CellAlpha(f, c).Some? && e[i] == CellRect(c, CellAlpha(f, c).value);
          var p :| 0 <= p < |init| && init[p] == c;
          assert CellBefore(cells[p], cells[|cells| - 1]);
          assert s[j] == CellRect(last, CellAlpha(f, last).value);
        }
      }
    }
  }

  /**
   * The fills of a frame come in row-major order, and no two of them
   * overlap; in particular consecutive rectangles in one row do not.
   */
  lemma FrameFillsOrderedAndDisjoint(f: Frame)
    ensures forall i, j :: 0 <= i < j < |FrameFills(f)| ==> FillBefore(FrameFills(f)[i], FrameFills(f)[j])
    ensures forall i, j :: 0 <= i < j < |FrameFills(f)| ==> Disjoint(FrameFills(f)[i], FrameFills(f)[j])
  {
    var s := FrameFills(f);
    VisitOrderSorted(f.cols, StartRow(f.rows), f.rows);
    EmitSorted(f, Visited(f.cols, f.rows));
    forall i, j | 0 <= i < j < |s|
      ensures Disjoint(s[i], s[j])
    {
      EmitOnGrid(f, Visited(f.cols, f.rows), i);
      EmitOnGrid(f, Visited(f.cols, f.rows), j);
      OnGridDisjoint(s[i], s[j]);
    }
  }

  /** The start row is never filled, because its height factor is zero. */
  lemma StartRowNeverFilled(f: Frame, k: nat)
    requires k < |FrameFills(f)|
    ensures FrameFills(f)[k].y != StartRow(f.rows) * GridSize
  {
    FrameFillsShape(f, k);
  }

  // ---------------------------------------------------------------------
  // Consecutive frames

  /** The fills of n consecutive frames, drawn at clock t0, t0 + 0.05, ... */
  function Frames(trig: Trig, cols: nat, rows: nat, t0: real, n: nat): (r: seq<seq<Fill>>)
    ensures |r| == n
  {
    if n == 0 then []
    else Frames(trig, cols, rows, t0, n - 1) + [FrameFills(Frame(trig, cols, rows, t0 + (n - 1) as real * 0.05))]
  }

  /** One more tick appends the frame drawn at the next clock value. */
  lemma FramesStep(trig: Trig, cols: nat, rows: nat, t0: real, n: nat)
    ensures Frames(trig, cols, rows, t0, n + 1)
      == Frames(trig, cols, rows, t0, n) + [FrameFills(Frame(trig, cols, rows, t0 + n as real * 0.05))]
  {
  }

  /** Frame j of a run is the frame drawn at clock t0 + j * 0.05. */
  lemma {:induction false} FramesAt(trig: Trig, cols: nat, rows: nat, t0: real, n: nat)
    ensures forall j :: 0 <= j < n ==>
      Frames(trig, cols, rows, t0, n)[j] == FrameFills(Frame(trig, cols, rows, t0 + j as real * 0.05))
  {
    if n > 0 {
      FramesAt(trig, cols, rows, t0, n - 1);
    }
  }
}
