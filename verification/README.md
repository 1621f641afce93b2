# Waveform landing page: verified model of its script logic

This project models the computational parts of the site's `script.js`.

- **Waveform renderer** (the `WaveformAnimation` class).
  - The canvas is divided into 10-pixel cells. `resize` derives the grid from the window size.
  - `noise` is a scalar field made of three sinusoids.
  - Each `draw` frame walks the lower 60% of the grid, row by row. A cell is painted as a 9 x 9 white square when its noise clears a row-dependent threshold; the alpha grows towards the bottom of the screen. Then the frame clock advances by 0.05.
- **Preloader** (`updateProgress`). Each tick adds a random amount below 15 to the progress, clamps it at 100, and either shows the bar and the floored percentage and schedules another tick, or completes.
- **Art gallery** (`cycleArtwork`). Moves the `active` class from the current image to the next one, cyclically.
- **Stats counter** (`animateCounter`). Counts up to a target over 2000 / 16 = 125 animation frames.

The project has six modules:

| module | what it holds |
|---|---|
| `WaveformGrid` | The pure rules of a frame (`Noise`, `StartRow`, `HeightFactor`, `Threshold`, `Alpha`, `Emission`) and a specification of the whole frame. `FrameFills` is the sequence of fill commands that the row-major walk over `Visited` issues. It also holds the lemmas about these. |
| `Numbers` | `Min` (`Math.min`), used by the renderer's alpha curve and by the preloader's capped-sum lemma. |
| `Waveform` | The renderer as a class whose fields (`width`, `height`, `cols`, `rows`, `time`, and `painted`, the fills now on the canvas) are updated in place. `Draw` is the body of the source's `draw`; its nested loops are `DrawRows` (rows) and `DrawRow` (columns), with `DrawCell` as the loop body. All are proved equal to `FrameFills`, and only the clock and the canvas change. |
| `Preloader` | The progress step, as a class over `loadProgress`. |
| `Gallery` | The index step, as a class over `currentIndex` and the per-image `active` flags. |
| `StatsCounter` | The count-up, run from its first frame to its last. |

Modelling decisions:

- `Math.sin` and `Math.cos` are a pair of functions passed in (`Trig`). Where a bound needs their range, the predicate `UnitRange` states that both lie in [-1, 1].
- Numbers are idealised: JavaScript doubles become mathematical reals.
- `Math.floor(rows * 0.4)` is computed as the integer division `(2 * rows) / 5`, and `StartRowIsFloor` proves the two equal.
- `Math.ceil(w / 10)` is integer ceiling division.

## Model

| member | source | states |
|---|---|---|
| Numbers.Min | script.js:78 | `Math.min`: the result is one of the two arguments and no larger than either |
| WaveformGrid.CellsToCover | script.js:52-53 | `Math.ceil(extent / 10)`: the cells cover the extent (`c * 10 >= extent`) and overshoot it by less than one cell |
| WaveformGrid.CellsToCoverIsLeast | script.js:52-53 | no smaller cell count covers the extent, so the grid is the least one that does |
| WaveformGrid.Noise | script.js:56-63 | when sin and cos lie in [-1, 1], so does the noise, being the average of three such terms |
| WaveformGrid.StartRow | script.js:68 | the start row never exceeds `rows`, and is below `rows` when the grid has rows |
| WaveformGrid.StartRowIsFloor | script.js:68 | the start row is exactly `Math.floor(rows * 0.4)` |
| WaveformGrid.HeightFactor | script.js:74 | for a drawn row the divisor `rows - startRow` is positive; the factor lies in [0, 1) and is 0 exactly on the start row |
| WaveformGrid.Threshold | script.js:75 | for a height factor in [0, 1) the threshold lies in (0.2, 0.6], and is 0.6 on the start row |
| WaveformGrid.Alpha | script.js:78 | once the noise clears the threshold, the alpha is non-negative and below 0.9 * 0.35 = 0.315 |
| WaveformGrid.Emission | script.js:77-80 | a fill is issued only when the noise clears the threshold and the alpha exceeds 0.01; its alpha is then below 0.315; nothing is issued on the start row |
| WaveformGrid.EmissionMonotone | script.js:74-80 | stronger noise lower down never loses a fill: if a cell is filled, a cell with at least its noise and height factor is filled too, with at least its alpha |
| WaveformGrid.AlphaMonotone | script.js:75-78 | the alpha grows with the noise and with the height factor |
| WaveformGrid.VisibilityFloorExample | script.js:68-80 | on a 10-row grid drawing starts at row 4; row 7 has factor 0.5 and threshold 0.4; noise 0.4061 clears that threshold but yields alpha 0.0032, below the 0.01 cut-off, so the cell stays empty |
| WaveformGrid.CellAlpha | script.js:72-80 | for a drawn cell, an issued alpha lies in (0.01, 0.315), whatever sin and cos return; cells on the start row get none |
| WaveformGrid.CellRectInCell | script.js:82-87 | the `fillRect` arguments for a cell (`CellRect`) are a 9 x 9 square on the 10-pixel lattice whose origin lies in that cell, carrying the given alpha |
| WaveformGrid.RowCells | script.js:71 | the inner loop visits `(0, y)`, `(1, y)`, ... `(n - 1, y)` in that order |
| WaveformGrid.VisitOrderWithin | script.js:70-71 | every visited cell lies in rows `start .. m - 1` and columns `0 .. cols - 1` |
| WaveformGrid.VisitOrderNextRow | script.js:70 | one more turn of the outer loop appends one full row |
| WaveformGrid.VisitedExactly | script.js:68-71 | a cell is among those one `draw` visits (`Visited`) if and only if `startRow <= y < rows` and `0 <= x < cols`, so no cell above `startRow` is ever evaluated |
| WaveformGrid.EmitAtMostOnePerCell | script.js:70-91 | visiting cells in order (`Emit`, and so a frame's `FrameFills`) issues at most one fill per visited cell |
| WaveformGrid.EmitAppend | script.js:70-91 | the fills of two walks run one after the other are the fills of the joined walk, so each row's fills follow those of the rows before it |
| WaveformGrid.EmitStep | script.js:71-88 | the fills for a walk with one more cell are the fills so far followed by that cell's fills |
| WaveformGrid.VisitOrderLength | script.js:70-71 | the walk visits exactly `cols * (m - start)` cells |
| WaveformGrid.VisitOrderCovers | script.js:70-71 | every cell in the rectangle is visited |
| WaveformGrid.EmptyGridVisitsNothing | script.js:68-71 | with no rows or no columns the loop body never runs |
| WaveformGrid.VisitOrderSorted | script.js:70-71 | the walk is strictly row-major: rows outermost, columns left to right, no cell twice |
| WaveformGrid.EmitSound | script.js:77-88 | every issued fill is the 9 x 9 square at `(x * 10, y * 10)` of a visited cell that passes the emission rule, with that cell's alpha |
| WaveformGrid.EmitComplete | script.js:77-88 | every visited cell that passes the emission rule has its square among the issued fills |
| WaveformGrid.FrameFillsExactly | script.js:68-88 | a 9 x 9 square at `(x * 10, y * 10)` with a given alpha is drawn in a frame if and only if `(x, y)` is a drawn cell whose emission yields exactly that alpha |
| WaveformGrid.FrameFillsShape | script.js:77-87 | every fill of a frame is a 9 x 9 square on the 10-pixel lattice, inside the grid and strictly below the start row, with alpha in (0.01, 0.315) |
| WaveformGrid.EmitOnGrid | script.js:82-87 | every issued fill sits on the 10-pixel lattice with side 9 |
| WaveformGrid.OnGridDisjoint | script.js:82-87 | two 9 x 9 squares on the 10-pixel lattice, one before the other in row-major order, share no pixel |
| WaveformGrid.EmitSorted | script.js:70-88 | fills are issued in strict row-major order of their origins |
| WaveformGrid.FrameFillsOrderedAndDisjoint | script.js:70-88 | the fills of a frame come in strict row-major order, and no two of them overlap; in particular adjacent squares in a row do not |
| WaveformGrid.StartRowNeverFilled | script.js:74-80 | no fill of a frame lies on the start row |
| WaveformGrid.Frames | script.js:93-99 | the frames of n ticks of the animation loop form a list of n frames |
| WaveformGrid.FramesAt | script.js:93-99 | frame j of a run started at clock t0 is the frame drawn at clock `t0 + j * 0.05` |
| Waveform.WaveformAnimation.constructor | script.js:35-47 | a new renderer is sized to the window and, through the first `animate` tick, has drawn frame 0 at clock 0: the canvas shows `FrameFills` at clock 0 and the clock reads 0.05 |
| Waveform.WaveformAnimation.Resize | script.js:49-54 | after a resize, `cols = ceil(w / 10)` and `rows = ceil(h / 10)` (so `cols * 10 >= w` and `(cols - 1) * 10 < w` when `w > 0`, likewise for rows); the clock is untouched; assigning the canvas size clears the canvas |
| Waveform.WaveformAnimation.Draw | script.js:65-94 | the nested loops issue exactly `FrameFills` for the current grid and clock, in loop order, having visited exactly the cells of `Visited`; the canvas is cleared first and then shows exactly these fills; the clock then advances by exactly 0.05; `cols`, `rows` and the grid invariant `Valid` (required and kept) are unchanged |
| Waveform.WaveformAnimation.DrawRows | script.js:70-91 | the outer loop over rows `startRow .. rows - 1` issues exactly `FrameFills` for the current grid and clock, having visited exactly `Visited` |
| Waveform.WaveformAnimation.DrawRow | script.js:71-90 | the inner loop over columns issues exactly the fills of row y's cells, in column order |
| Waveform.WaveformAnimation.DrawCell | script.js:72-88 | the body of the inner loop issues the fills the emission rule prescribes for cell `(x, y)` |
| Waveform.WaveformAnimation.Animate | script.js:96-99 | n ticks draw exactly `Frames` from the current clock t0, i.e. (by `FramesAt`) frame j at clock `t0 + j * 0.05`; the clock ends at `t0 + n * 0.05`, the grid and `Valid` are kept, and the canvas shows the last frame |
| Preloader.Advance | script.js:11-14 | the progress after a tick is the sum when that is below 100 and exactly 100 otherwise; it never exceeds 100 and never decreases |
| Preloader.Label | script.js:24 | the label is the floor of the progress, and lies in 0..99 while the progress is in [0, 100) |
| Preloader.ProgressAfter | script.js:10-27 | the progress after a chain of ticks with non-negative increments, started at or below 100, never falls below its start and never exceeds 100 |
| Preloader.ProgressAfterIsCappedSum | script.js:10-27 | over any run of ticks the progress is `min(100, start + sum of increments)` |
| Preloader.ProgressLoader.constructor | script.js:6 | the progress starts at 0 |
| Preloader.ProgressLoader.UpdateProgress | script.js:10-27 | one tick: the new progress is `Advance(old, inc)` and is not smaller than the old one; the tick completes (no further tick) exactly when the progress is 100; otherwise it shows a bar at the progress and a label equal to its floor, below 100 |
| Gallery.NextIndex | script.js:159 | the next index is below the image count, and is the successor of the current one, wrapping from the last image to 0 |
| Gallery.IndexAfter | script.js:154-166 | the index after k ticks of the interval is a valid image index |
| Gallery.ModSucc | script.js:159 | adding one moves the remainder modulo n on by one, wrapping at n |
| Gallery.IndexAfterIsModular | script.js:159 | after k ticks from index i the current index is `(i + k) % n` |
| Gallery.EveryImageShown | script.js:154-163 | cycling returns to its start after n ticks, and every image becomes current within n ticks |
| Gallery.ArtGallery.constructor | script.js:151-152 | the gallery starts at image 0 with the page's classes |
| Gallery.ArtGallery.CycleArtwork | script.js:154-163 | one tick: the index becomes `(i + 1) % n`; only the old image loses and the new image gains the `active` flag; if exactly the current image was active before, exactly the new one is active after |
| StatsCounter.Increment | script.js:111-112 | the per-frame increment is the target spread over 125 frames |
| StatsCounter.FloorOfFraction | script.js:118 | `Math.floor(a / 125)` equals integer division of `a` by 125 |
| StatsCounter.ShownBelowTarget | script.js:117-118 | for a positive target the floored counts never decrease and stay below the target |
| StatsCounter.CountAfter | script.js:112-116 | the count after `frame` frames is `frame` increments |
| StatsCounter.CountStep | script.js:116 | each frame adds exactly one increment to the count |
| StatsCounter.CountBelowTarget | script.js:117 | within the first 125 frames the count is below the target exactly while the target is positive and fewer than 125 frames have run |
| StatsCounter.AnimateCounter | script.js:109-126 | a positive target takes 125 frames: frame k shows `floor(k * target / 125)` for k < 125, and the last frame shows the target; a target of 0 or less shows the target at once; the shown values never decrease |

## Left out

- Canvas and DOM calls are not modelled as pixels. The canvas is the list of `fillRect` calls since it was last cleared (by `clearRect` or by assigning its size), each with the alpha of its fill; the `fillStyle` colour string, `getContext`, `classList`, `style` and `textContent` are left out. The preloader's output is the bar width and the label number.
- Scheduling is not modelled: `requestAnimationFrame`, `setTimeout`, `setInterval` and the resize listener.
  - The endless `animate` loop is modelled by `Animate` as a finite number of frames. The tick the constructor starts draws frame 0 inside the constructor; `Animate` then continues from clock 0.05.
  - The preloader's next tick is reported as an `Outcome`.
  - The counter's frame chain is run to completion in one method.
- `Math.random()` is not modelled. The preloader increment is a parameter in [0, 15).
- `Math.sin` and `Math.cos` are supplied as parameters; only their [-1, 1] range is used.
- IEEE-754 rounding is not modelled; all arithmetic is exact over the reals. In particular:
  - repeated doubles are not summed with rounding, so the stats counter ends on exactly its 125th frame;
  - a rounding error could add one extra frame in the browser.
- `Noise`: its range bound holds only under `UnitRange`, because the sinusoids are parameters.
- The `particles` array (script.js:38) is never used, and is not modelled.
- Gallery with no images is not modelled. `ArtGallery` requires at least one image. With an empty image list, `images[0]` is undefined, so the first statement of `cycleArtwork` (script.js:156) throws a TypeError. The index update is never reached, and `currentIndex` stays 0 on every interval tick.
- `StatsCounter.AnimateCounter`: the target is an integer. A `data-target` that `parseInt` cannot read (NaN) is not modelled.
- The stats and scroll observers, the Spotify modal and the mobile menu are not modelled. They only toggle DOM classes.
- The inertial rotation and scroll-drag controllers are not part of this model; `script.js` does not contain them.
