/**
 * The waveform renderer as the object it is: grid dimensions and a frame
 * clock updated in place, a resize step, and a draw step that walks the
 * lower part of the grid and returns the fill commands it issues, in the
 * order it issues them.  The canvas bitmap is modelled by the `fillRect`
 * calls made on it since it was last cleared, each with the alpha of its
 * white fill.
 */
module Waveform {
  import opened Numbers
  import opened WaveformGrid

  class WaveformAnimation {
    /** Cell side in pixels. */
    const gridSize: nat := GridSize
    /** Canvas size in pixels, copied from the window on every resize. */
    var width: nat
    var height: nat
    /** Grid dimensions derived from the canvas size. */
    var cols: nat
    var rows: nat
    /** The frame clock fed to the noise field. */
    var time: real
    /** What the canvas shows: the fills made since it was last cleared, in order. */
    var painted: seq<Fill>

    /** The grid always covers the canvas with as few cells as possible. */
    ghost predicate Valid()
      reads this
    {
      cols == CellsToCover(width) && rows == CellsToCover(height)
    }

    /**
     * A fresh renderer sized to the window.  Its clock starts at zero and the
     * constructor starts the animation, whose first tick draws frame 0
     * straight away: on return the canvas shows that frame and the clock
     * reads 0.05.
     */
    constructor (innerWidth: nat, innerHeight: nat, trig: Trig)
      ensures Valid()
      ensures width == innerWidth && height == innerHeight
      ensures painted == FrameFills(Frame(trig, cols, rows, 0.0))
      ensures time == 0.05
    {
      rows, cols, time := 0, 0, 0.0;
      width, height := 0, 0;
      painted := [];
      new;
      Resize(innerWidth, innerHeight);
      var _, _ := Draw(trig);
    }

    /**
     * Takes the new window size and recomputes the grid: ceil(width / 10)
     * columns and ceil(height / 10) rows.  The clock is left alone, so
     * resizing twice to the same size leaves the grid as it was.  Assigning
     * the canvas size clears the canvas.
     */
    method Resize(innerWidth: nat, innerHeight: nat)
      modifies this`width, this`height, this`cols, this`rows, this`painted
      ensures Valid()
      ensures width == innerWidth && height == innerHeight
      ensures cols * GridSize >= width && (width > 0 ==> (cols - 1) * GridSize < width)
      ensures rows * GridSize >= height && (height > 0 ==> (rows - 1) * GridSize < height)
      ensures time == old(time)
      ensures painted == []
    {
      width := innerWidth;
      height := innerHeight;
      painted := [];
      cols := (width + gridSize - 1) / gridSize;
      rows := (height + gridSize - 1) / gridSize;
    }

    /**
     * One frame.  Clears the canvas, then visits rows startRow .. rows - 1
     * (startRow = floor(rows * 0.4)), rows outermost, and every column of
     * each; a visited cell is filled when its noise clears the row's
     * threshold with an alpha above 0.01.  Afterwards the canvas shows
     * exactly this frame, and the clock advances by 0.05.  `visited`
     * records the cells whose noise was evaluated, in order.
     */
    method Draw(trig: Trig) returns (fills: seq<Fill>, ghost visited: seq<Cell>)
      requires Valid()
      modifies this`time, this`painted
      ensures Valid()
      ensures fills == FrameFills(Frame(trig, cols, rows, old(time)))
      ensures painted == fills
      ensures visited == Visited(cols, rows)
      ensures time == old(time) + 0.05
      ensures cols == old(cols) && rows == old(rows)
    {
      painted := [];
      fills, visited := DrawRows(trig);
      painted := fills;
      time := time + 0.05;
    }

    /**
     * The outer loop of `draw`: visits rows startRow .. rows - 1 in order
     * and issues the fills of each.
     */
    method DrawRows(trig: Trig) returns (fills: seq<Fill>, ghost visited: seq<Cell>)
      ensures fills == FrameFills(Frame(trig, cols, rows, time))
      ensures visited == Visited(cols, rows)
    {
      ghost var f := Frame(trig, cols, rows, time);
      var startRow := StartRow(rows);
      fills, visited := [], [];
      var y := startRow;
      while y < rows
        invariant startRow <= y <= rows
        invariant visited == VisitOrder(cols, startRow, y)
        invariant fills == Emit(f, visited)
      {
        var rowFills := DrawRow(trig, y, startRow);
        assert fills + rowFills == Emit(f, visited + RowCells(y, cols)) by {
          EmitAppend(f, visited, RowCells(y, cols));
        }
        assert visited + RowCells(y, cols) == VisitOrder(cols, startRow, y + 1) by {
          VisitOrderNextRow(cols, startRow, y);
        }
        fills := fills + rowFills;
        visited := visited + RowCells(y, cols);
        y := y + 1;
      }
    }

    /**
     * The inner loop of `draw` for row y: visits columns 0 .. cols - 1 in
     * order and issues the fills of each cell.
     */
    method DrawRow(trig: Trig, y: int, startRow: nat) returns (rowFills: seq<Fill>)
      requires startRow == StartRow(rows) && startRow <= y < rows
      ensures rowFills == Emit(Frame(trig, cols, rows, time), RowCells(y, cols))
    {
      ghost var f := Frame(trig, cols, rows, time);
      rowFills := [];
      var x := 0;
      while x < cols
        invariant 0 <= x <= cols && f == Frame(trig, cols, rows, time)
        invariant rowFills == Emit(f, RowCells(y, x))
      {
        var cellFills := DrawCell(trig, x, y, startRow);
        assert rowFills + cellFills == Emit(f, RowCells(y, x + 1)) by {
          EmitStep(f, RowCells(y, x), Cell(x, y));
        }
        rowFills := rowFills + cellFills;
        x := x + 1;
      }
    }

    /**
     * The body of the inner loop of `draw` for cell (x, y): sample the noise,
     * derive the row's height factor and threshold, and issue a 9 x 9 fill at
     * (x * 10, y * 10) when the noise clears the threshold with an alpha
     * above 0.01.  The divisor rows - startRow is positive because y < rows.
     */
    method DrawCell(trig: Trig, x: int, y: int, startRow: nat) returns (cellFills: seq<Fill>)
      requires startRow == StartRow(rows) && startRow <= y < rows
      ensures cellFills == CellFills(Frame(trig, cols, rows, time), Cell(x, y))
    {
      ghost var f, c := Frame(trig, cols, rows, time), Cell(x, y);
      var noiseVal := Noise(trig, x, y, time);
      var heightFactor := (y - startRow) as real / (rows - startRow) as real;
      var threshold := 0.6 - heightFactor * 0.4;
      assert heightFactor == HeightFactor(y, startRow, rows);
      assert threshold == Threshold(heightFactor);
      assert CellAlpha(f, c) == Emission(noiseVal, heightFactor);
      cellFills := [];
      if noiseVal > threshold {
        var alpha := Min(0.9, (noiseVal - threshold) * 3.0) * heightFactor * 0.35;
        assert alpha == Alpha(noiseVal, heightFactor);
        if alpha > 0.01 {
          cellFills := [Fill(x * gridSize, y * gridSize, gridSize - 1, gridSize - 1, alpha)];
          assert cellFills == [CellRect(c, alpha)];
        }
      }
    }

    /**
     * `frames` consecutive animation ticks: frame i is drawn at clock
     * old(time) + i * 0.05, so the clock strictly increases from frame to
     * frame while the grid stays fixed; the canvas ends up showing the last
     * frame drawn.
     */
    method Animate(trig: Trig, frames: nat) returns (shown: seq<seq<Fill>>)
      requires Valid()
      modifies this`time, this`painted
      ensures Valid()
      ensures shown == Frames(trig, cols, rows, old(time), frames)
      ensures time == old(time) + frames as real * 0.05
      ensures cols == old(cols) && rows == old(rows)
      ensures painted == if frames == 0 then old(painted) else shown[frames - 1]
    {
      ghost var c0, r0, t0 := cols, rows, time;
      shown := [];
      var i := 0;
      while i < frames
        invariant 0 <= i <= frames
        invariant Valid() && cols == c0 && rows == r0
        invariant time == t0 + i as real * 0.05
        invariant shown == Frames(trig, c0, r0, t0, i)
        invariant painted == if i == 0 then old(painted) else shown[i - 1]
      {
        ghost var frame := Frame(trig, c0, r0, t0 + i as real * 0.05);
        var fills, _ := Draw(trig);
        assert fills == FrameFills(frame);
        assert shown + [fills] == Frames(trig, c0, r0, t0, i + 1) by {
          FramesStep(trig, c0, r0, t0, i);
        }
        shown := shown + [fills];
        i := i + 1;
      }
    }
  }
}
