# knossos image formatter, modelled in Dafny

This project models the `Image` formatter of the knossos maze library
(`src/maze/formatters/image.rs`). The formatter turns a maze grid into an RGB
raster using integer arithmetic and comparisons only:

- `cell_width` and `sizes` compute the image dimensions. Two neighbouring
  cells share one joint wall, so it is counted once.
- `format` allocates a buffer of that size, fills it with the background
  colour (`fill_background`), then draws every cell in row-major order
  (`draw_maze`).
- `draw_cell` walks the closed square `[sx, sx + cw] x [sy, sy + cw]` of one
  cell, where `cw = 2 * wall + passage`. It paints a pixel foreground unless
  one of nine overlapping zones says to skip it. The zones are four corners,
  four edges and the passage.

Files:

- `maze_grid.dfy` (module `MazeGrid`): the grid as the formatter sees it.
  `Pole`, `Color`, a cell's `Walls` with a `Carved(Pole)` predicate, and the
  grid as `seq<seq<Walls>>` indexed `[y][x]`. Also the grid's symmetry
  invariant (`WallsSymmetric`: a carved wall is carved from both sides) and
  the 4 x 4 maze built by the formatter's own test.
- `cell_zones.dfy` (module `CellZones`): the per-pixel rule as a pure
  predicate `ShouldPaint`, built from the nine zones. It also holds two
  order-based readings of the zone checks: `Checks` (fall-through, as the
  code does) and `FirstMatch` (first zone decides).
- `image_formatter.dfy` (module `ImageFormatter`): the `Image` parameters as a
  datatype with its builder setters, the size arithmetic, and the three
  buffer methods over an `array2<Color>` indexed `[x, y]` like
  `get_pixel_mut(x, y)`. `Format` is proved to produce exactly `PixelAt`: a
  pixel is foreground iff some cell paints it.
- `render_properties.dfy` (module `RenderProperties`): what the whole image
  looks like. It covers the margins, the exact condition for in-range writes,
  inside a wall, at a junction of walls and inside a passage, and the test
  maze.

The zone checks fall through: a zone whose skip condition is false does not
stop a later zone from skipping the same pixel. The source's comments on the
corner zones (image.rs:103, 125, 167, 189) say a corner "must display only
if either" adjoining wall exists. That is a necessary condition, and the code
meets it (`CornersDisplayOnlyIfWall`). Read as "exactly when", it does not
hold on the line a corner shares with an edge. `FirstMatchDisagrees` exhibits
such a pixel: the North wall is carved, the West wall stands, and the cell
leaves the pixel at offset (wall, 0) as background. The gap is local to one
cell. On a symmetric grid the west neighbour's NE corner paints that pixel
(`NeighbourCoversCornerLine`), so in the image it stays background only in
column 0. The model follows the code.

A cell spans `cw + 1` pixels (the `..=` ranges) while `sizes` allots it `cw`.
So the last column and row paint pixel `size - margin`
(`LastColumnAndRowPainted`), and the right and bottom margins are one pixel
narrower than the left and top ones. With `.margin(0)` and a wall width of at
least 1, `format` therefore panics in `get_pixel_mut` on every grid whose
walls are symmetric (`WritesInRangeIff`). The model states this as a
precondition of `Format`.

## Model

| member | source | states |
|---|---|---|
| `ImageFormatter.Image.New` | src/maze/formatters/image.rs:19-27 | defaults: wall 40, passage 40, margin 50, background (250,250,250), foreground (0,0,0) |
| `ImageFormatter.Image.Wall` | src/maze/formatters/image.rs:29-32 | sets the wall width and leaves the other four fields unchanged |
| `ImageFormatter.Image.Passage` | src/maze/formatters/image.rs:34-37 | sets the passage width and leaves the other four fields unchanged |
| `ImageFormatter.Image.Background` | src/maze/formatters/image.rs:39-42 | sets the background colour and leaves the other four fields unchanged |
| `ImageFormatter.Image.Foreground` | src/maze/formatters/image.rs:44-47 | sets the foreground colour and leaves the other four fields unchanged |
| `ImageFormatter.Image.Margin` | src/maze/formatters/image.rs:49-52 | sets the margin and leaves the other four fields unchanged |
| `RenderProperties.ParamsChange` | src/maze/formatters/image.rs:237-251 | the test's setter chain yields exactly the five values it set |
| `ImageFormatter.JointArithmetic` | src/maze/formatters/image.rs:63-64 | for n >= 1, `cw*n - (n-1)*wall` equals `n*(wall+passage) + wall` |
| `ImageFormatter.Image.Sizes` | src/maze/formatters/image.rs:54-70 | with `cell_width` = 2*wall + passage, image width is `W*(wall+passage) + wall + 2*margin`, and height likewise from H |
| `RenderProperties.TestMazeSizes` | src/maze/formatters/image.rs:58-70 | the 4 x 4 test maze with the defaults gives a 460 x 460 image |
| `ImageFormatter.Image.FillBackground` | src/maze/formatters/image.rs:72-78 | afterwards every pixel of the buffer is the background colour |
| `ImageFormatter.Image.DrawCell` | src/maze/formatters/image.rs:88-206 | exactly the pixels of the cell's closed square that `ShouldPaint` selects become foreground; every other pixel keeps its old value |
| `ImageFormatter.Image.DrawMaze` | src/maze/formatters/image.rs:80-86 | afterwards a pixel is foreground iff some cell of the grid paints it; otherwise it keeps its old value |
| `ImageFormatter.Image.Format` | src/maze/formatters/image.rs:209-218 | a fresh buffer of exactly `Sizes(g)` whose every pixel equals `PixelAt`: foreground iff some cell paints it, else background |
| `ImageFormatter.Image.DrawnIsAnyPainter` | src/maze/formatters/image.rs:80-86 | after drawing cells in sequence, a pixel is foreground iff one of the drawn cells paints it, else its old value |
| `RenderProperties.DrawOrderIrrelevant` | src/maze/formatters/image.rs:80-86 | drawing the same set of cells in any order gives the same pixels |
| `ImageFormatter.Image.LastCellEnd` | src/maze/formatters/image.rs:93-97 | a cell's square ends at most `margin` pixels before the image edge, and exactly there for the last column or row |
| `ImageFormatter.Image.CellWritesInRange` | src/maze/formatters/image.rs:92-97 | if margin >= 1 or wall == 0, every pixel a cell paints lies inside the buffer |
| `RenderProperties.WritesInRangeIff` | src/maze/formatters/image.rs:200-203 | for a symmetric grid, all painted pixels are inside the buffer iff margin >= 1 or wall == 0 |
| `RenderProperties.CellPaintsWithinFrame` | src/maze/formatters/image.rs:93-97 | a pixel of a cell's square lies between `margin` and `size - margin` on both axes |
| `RenderProperties.PaintedWithinFrame` | src/maze/formatters/image.rs:93-97 | every painted pixel lies between `margin` and `size - margin` on both axes |
| `RenderProperties.LastColumnAndRowPainted` | src/maze/formatters/image.rs:63-97 | with wall >= 1 on a symmetric grid, column `size - margin` and row `size - margin` are painted, so the bound of `PaintedWithinFrame` is reached |
| `RenderProperties.OutsideFrameIsBackground` | src/maze/formatters/image.rs:63-97 | rows and columns below `margin` or above `size - margin` stay background |
| `CellZones.ChecksFallThrough` | src/maze/formatters/image.rs:103-198 | the sequential checks paint a pixel iff no zone in the order both contains it and says skip |
| `CellZones.ChecksInAnyOrder` | src/maze/formatters/image.rs:103-198 | any order of the checks that tests all nine zones gives `ShouldPaint` |
| `CellZones.SourceOrderIsShouldPaint` | src/maze/formatters/image.rs:103-198 | the code's own order of the nine checks computes `ShouldPaint` |
| `CellZones.FirstMatchDisagrees` | src/maze/formatters/image.rs:103-123 | at offset (wall, 0) with N carved and W closed, first-match would paint but the code leaves background |
| `CellZones.CornersDisplayOnlyIfWall` | src/maze/formatters/image.rs:103-198 | a painted pixel of a corner zone has at least one of that corner's two walls standing |
| `RenderProperties.NeighbourCoversCornerLine` | src/maze/formatters/image.rs:103-134 | on a symmetric grid with wall >= 1, a cell in column >= 1 whose West wall stands has the pixel at offset (wall, 0) painted, by its west neighbour's NE corner |
| `CellZones.PassageNeverPainted` | src/maze/formatters/image.rs:147-154 | a pixel whose offsets both lie in `[wall, wall+passage]` is never painted, whatever the walls |
| `CellZones.ZeroWallPaintsNothing` | src/maze/formatters/image.rs:147-154 | with wall 0 the passage zone is the whole square, so nothing is painted |
| `RenderProperties.ZeroWallImageIsBlank` | src/maze/formatters/image.rs:147-154 | with wall 0 every pixel of the image is background |
| `CellZones.ClosedCellPaintsFrame` | src/maze/formatters/image.rs:103-198 | a cell with no carved wall paints its square minus the passage square, and only that |
| `CellZones.OpenCellPaintsNothing` | src/maze/formatters/image.rs:103-198 | a cell with all four walls carved paints nothing: the zones cover its square |
| `CellZones.InteriorFollowsItsZone` | src/maze/formatters/image.rs:103-198 | a pixel inside one zone's interior lies in no other zone; it is painted iff that zone does not skip it, so a corner needs both adjoining walls carved and an edge its own wall |
| `RenderProperties.PaintedByInterior` | src/maze/formatters/image.rs:103-198 | a grid cell paints a pixel inside one of its zone interiors iff that zone does not skip |
| `RenderProperties.CoverJoint` | src/maze/formatters/image.rs:93-97 | the cells whose span contains a position strictly inside joint wall k are exactly k-1 and k |
| `RenderProperties.CoverPassage` | src/maze/formatters/image.rs:93-97 | the only cell whose span contains a position strictly inside cell k's passage is k |
| `RenderProperties.EastWestWallIff` | src/maze/formatters/image.rs:136-165 | inside a vertical wall beside a passage row, foreground iff that wall is not carved; outer walls are always foreground |
| `RenderProperties.NorthSouthWallIff` | src/maze/formatters/image.rs:114-187 | inside a horizontal wall beside a passage column, foreground iff that wall is not carved; outer walls are always foreground |
| `RenderProperties.JunctionPainters` | src/maze/formatters/image.rs:92-97 | only the up to four cells around a grid point reach a pixel inside the junction square there |
| `RenderProperties.InnerJunctionCells` | src/maze/formatters/image.rs:103-198 | at an inner junction each of the four cells paints iff not both wall segments of its quadrant are carved |
| `RenderProperties.BoundaryJunctionPainted` | src/maze/formatters/image.rs:103-198 | a junction on the maze border is always foreground |
| `RenderProperties.JunctionIff` | src/maze/formatters/image.rs:103-198 | a junction square is background iff it is inside the maze and all four wall segments meeting there are carved |
| `RenderProperties.PassageInteriorIsBackground` | src/maze/formatters/image.rs:147-154 | inside any cell's passage square the image is background |
| `MazeGrid.TestMaze` | src/maze/formatters/image.rs:264-287 | the test maze is a 4 x 4 grid |
| `MazeGrid.TestMazeIsSymmetric` | src/maze/formatters/image.rs:264-287 | the test maze satisfies the wall symmetry invariant |
| `RenderProperties.TestMazePixels` | src/maze/formatters/image.rs:253-287 | sample pixels of the rendered test maze: an open wall, a closed wall, a junction, a passage and the margin |

## Left out

- Integer width: `usize` is modelled as unbounded `nat`, so overflow in the size arithmetic is not modelled. The `as u32` casts passed to the image buffer are not modelled either. `W - 1` in `sizes` cannot underflow because a grid has at least one column and one row.
- `ImageBuffer::new`, `RgbImage` and the `image` crate: the buffer is an `array2<Color>`. A new buffer starts black, as `ImageBuffer::new` zero-fills it.
- `get_pixel_mut` panics on an out-of-range pixel. The model turns this into preconditions instead of a panic: `DrawCell` requires every pixel it paints to be in range, and `Format` requires `margin >= 1 || wall == 0`. `WritesInRangeIff` shows this condition is exact for grids that keep the symmetry invariant.
- The `Formatter` trait and the `ImageWrapper` newtype are plumbing. `Format` returns the buffer itself.
- The `format` test's byte comparison against `tests/fixtures/maze.png` is file I/O and PNG decoding. `TestMazePixels` checks sample pixels of that maze instead.
- `Grid`, `Cell`, `Pole` and `Color` are not part of this model. The grid is given input, and `carve_passage` is not modelled. `TestMaze` records the walls that the test's fifteen carve calls leave, assuming each call opens the wall on both sides and that coordinates are (x, y) with y growing southward.
- Wall symmetry is stated as the predicate `WallsSymmetric`. It is required only by the lemmas that depend on it. `Format` does not require it.
- The whole-image lemmas characterise every pixel that lies strictly inside a wall, a junction or a passage. Pixels on the one-pixel lines where zones meet are covered only by `Format`'s pointwise contract.
