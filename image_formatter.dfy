/** The Image formatter: it renders a maze grid into an RGB raster using only
    integer arithmetic and comparisons. It fills the whole buffer with the
    background colour, then draws every cell in row-major order; each cell
    paints foreground pixels of its closed square according to CellZones. */
module ImageFormatter {
  import opened MazeGrid
  import opened CellZones

  /** Grid coordinates (x, y) of a cell. */
  type Coords = (nat, nat)

  const Black := RGB(0, 0, 0)

  /** The formatter's parameters, in pixels and colours. The builder setters
      take the value and return it with one field replaced. */
  datatype Image = Image(
    wallWidth: nat,
    passageWidth: nat,
    margin: nat,
    backgroundColor: Color,
    foregroundColor: Color)
  {
    static function New(): (r: Image)
      ensures r.wallWidth == 40 && r.passageWidth == 40 && r.margin == 50
      ensures r.backgroundColor == RGB(250, 250, 250) && r.foregroundColor == RGB(0, 0, 0)
    {
      Image(40, 40, 50, RGB(250, 250, 250), RGB(0, 0, 0))
    }

    function Wall(width: nat): (r: Image)
      ensures r.wallWidth == width
      ensures r.passageWidth == passageWidth && r.margin == margin
      ensures r.backgroundColor == backgroundColor && r.foregroundColor == foregroundColor
    {
      this.(wallWidth := width)
    }

    function Passage(width: nat): (r: Image)
      ensures r.passageWidth == width
      ensures r.wallWidth == wallWidth && r.margin == margin
      ensures r.backgroundColor == backgroundColor && r.foregroundColor == foregroundColor
    {
      this.(passageWidth := width)
    }

    function Background(color: Color): (r: Image)
      ensures r.backgroundColor == color
      ensures r.wallWidth == wallWidth && r.passageWidth == passageWidth && r.margin == margin
      ensures r.foregroundColor == foregroundColor
    {
      this.(backgroundColor := color)
    }

    function Foreground(color: Color): (r: Image)
      ensures r.foregroundColor == color
      ensures r.wallWidth == wallWidth && r.passageWidth == passageWidth && r.margin == margin
      ensures r.backgroundColor == backgroundColor
    {
      this.(foregroundColor := color)
    }

    function Margin(value: nat): (r: Image)
      ensures r.margin == value
      ensures r.wallWidth == wallWidth && r.passageWidth == passageWidth
      ensures r.backgroundColor == backgroundColor && r.foregroundColor == foregroundColor
    {
      this.(margin := value)
    }

    /** Width of one cell including both of its walls. */
    function CellWidth(): nat {
      wallWidth * 2 + passageWidth
    }

    /** Distance between the top-left pixels of two neighbouring cells: they
        share one joint wall. */
    function Stride(): nat {
      CellWidth() - wallWidth
    }

    /** First pixel column (or row) of the cell in grid column (or row) i. */
    function Start(i: nat): nat {
      i * Stride() + margin
    }

    /** (image width, image height): the cells' widths minus the joint walls
        counted twice, plus a margin on each side. The result is the stride
        times the cell count plus one closing wall plus both margins. */
    function Sizes(g: Grid): (r: (nat, nat))
      requires IsGrid(g)
      ensures r.0 == Width(g) * (wallWidth + passageWidth) + wallWidth + 2 * margin
      ensures r.1 == Height(g) * (wallWidth + passageWidth) + wallWidth + 2 * margin
    {
      JointArithmetic(Width(g), wallWidth, passageWidth);
      JointArithmetic(Height(g), wallWidth, passageWidth);
      var mazeWidth := CellWidth() * Width(g) - (Width(g) - 1) * wallWidth;
      var mazeHeight := CellWidth() * Height(g) - (Height(g) - 1) * wallWidth;
      (mazeWidth + margin * 2, mazeHeight + margin * 2)
    }

    /** Whether drawing the cell at `coords` with walls `walls` paints pixel (x, y). */
    predicate CellPaints(coords: Coords, walls: Walls, x: int, y: int)
    {
      var sx, sy := Start(coords.0), Start(coords.1);
      && sx <= x <= sx + CellWidth()
      && sy <= y <= sy + CellWidth()
      && ShouldPaint(x - sx, y - sy, walls, wallWidth, passageWidth)
    }

    /** Whether the cell at `c` of grid g paints pixel (x, y). */
    predicate PaintedBy(g: Grid, c: Coords, x: int, y: int)
    {
      c.1 < |g| && c.0 < |g[c.1]| && CellPaints(c, g[c.1][c.0], x, y)
    }

    /** Pixel (x, y) of the formatted image is foreground: some cell paints it. */
    ghost predicate Painted(g: Grid, x: int, y: int)
    {
      exists cx: nat, cy: nat :: PaintedBy(g, (cx, cy), x, y)
    }

    /** The colour of pixel (x, y) in the formatted image. */
    ghost function PixelAt(g: Grid, x: int, y: int): Color
    {
      if Painted(g, x, y) then foregroundColor else backgroundColor
    }

    /** The colour pixel (x, y) has after the cells `cs` are drawn one after
        another over a pixel that was `base`. */
    ghost function Drawn(g: Grid, cs: seq<Coords>, x: int, y: int, base: Color): Color
    {
      if cs == [] then base
      else if PaintedBy(g, cs[|cs| - 1], x, y) then foregroundColor
      else Drawn(g, cs[..|cs| - 1], x, y, base)
    }

    /** Every pixel becomes the background colour, row after row. */
    method FillBackground(img: array2<Color>)
      modifies img
      ensures forall x, y :: 0 <= x < img.Length0 && 0 <= y < img.Length1 ==> img[x, y] == backgroundColor
    {
      for y := 0 to img.Length1
        invariant forall px, py :: 0 <= px < img.Length0 && 0 <= py < y ==> img[px, py] == backgroundColor
      {
        for x := 0 to img.Length0
          invariant forall px, py :: 0 <= px < img.Length0 && 0 <= py < y ==> img[px, py] == backgroundColor
          invariant forall px :: 0 <= px < x ==> img[px, y] == backgroundColor
        {
          img[x, y] := backgroundColor;
        }
      }
    }

    /** Draws the cell at `coords`: every pixel of its closed square that
        ShouldPaint selects becomes foreground and nothing else changes.
        `draw_cell` writes through `get_pixel_mut`, which panics out of
        range, so every pixel the cell paints must lie in the image. */
    method DrawCell(coords: Coords, cell: Walls, img: array2<Color>)
      requires forall x, y :: CellPaints(coords, cell, x, y) ==> x < img.Length0 && y < img.Length1
      modifies img
      ensures forall x, y :: 0 <= x < img.Length0 && 0 <= y < img.Length1 ==>
                img[x, y] == if CellPaints(coords, cell, x, y) then foregroundColor else old(img[x, y])
    {
      var (cellX, cellY) := coords;
      var cellWidthWithoutJointWall := CellWidth() - wallWidth;
      var startX := cellX * cellWidthWithoutJointWall + margin;
      var startY := cellY * cellWidthWithoutJointWall + margin;

      assert startX == Start(coords.0) && startY == Start(coords.1);
      for y := startY to startY + CellWidth() + 1
        invariant forall px, py :: 0 <= px < img.Length0 && 0 <= py < img.Length1 ==>
                    img[px, py] == if py < y && CellPaints(coords, cell, px, py) then foregroundColor else old(img[px, py])
      {
        for x := startX to startX + CellWidth() + 1
          invariant forall px, py :: 0 <= px < img.Length0 && 0 <= py < img.Length1 ==>
                      img[px, py] == if (py < y || (py == y && px < x)) && CellPaints(coords, cell, px, py)
                                     then foregroundColor else old(img[px, py])
        {
          // top left corner
          if x >= startX && x <= startX + wallWidth && y >= startY && y <= startY + wallWidth {
            if cell.Carved(N) && cell.Carved(W) {
              continue;
            }
          }
          // northern wall
          if x >= startX + wallWidth && x <= startX + cellWidthWithoutJointWall
             && y >= startY && y <= startY + wallWidth {
            if cell.Carved(N) {
              continue;
            }
          }
          // top right corner
          if x >= startX + cellWidthWithoutJointWall && x <= startX + CellWidth()
             && y >= startY && y <= startY + wallWidth {
            if cell.Carved(N) && cell.Carved(E) {
              continue;
            }
          }
          // western wall
          if x >= startX && x <= startX + wallWidth
             && y >= startY + wallWidth && y <= startY + cellWidthWithoutJointWall {
            if cell.Carved(W) {
              continue;
            }
          }
          // the passage is never coloured
          if x >= startX + wallWidth && x <= startX + cellWidthWithoutJointWall
             && y >= startY + wallWidth && y <= startY + cellWidthWithoutJointWall {
            continue;
          }
          // eastern wall
          if x >= startX + cellWidthWithoutJointWall && x <= startX + CellWidth()
             && y >= startY + wallWidth && y <= startY + cellWidthWithoutJointWall {
            if cell.Carved(E) {
              continue;
            }
          }
          // bottom left corner
          if x >= startX && x <= startX + wallWidth
             && y >= startY + cellWidthWithoutJointWall && y <= startY + CellWidth() {
            if cell.Carved(S) && cell.Carved(W) {
              continue;
            }
          }
          // southern wall
          if x >= startX + wallWidth && x <= startX + cellWidthWithoutJointWall
             && y >= startY + cellWidthWithoutJointWall && y <= startY + CellWidth() {
            if cell.Carved(S) {
              continue;
            }
          }
          // bottom right corner
          if x >= startX + cellWidthWithoutJointWall && x <= startX + CellWidth()
             && y >= startY + cellWidthWithoutJointWall && y <= startY + CellWidth() {
            if cell.Carved(S) && cell.Carved(E) {
              continue;
            }
          }
          assert CellPaints(coords, cell, x, y);
          img[x, y] := foregroundColor;
        }
      }
    }

    /** Draws every cell, row by row and left to right within a row. A pixel
        ends up foreground exactly when some cell paints it. */
    method DrawMaze(img: array2<Color>, g: Grid)
      requires IsGrid(g)
      requires (img.Length0, img.Length1) == Sizes(g)
      requires margin >= 1 || wallWidth == 0
      modifies img
      ensures forall x, y :: 0 <= x < img.Length0 && 0 <= y < img.Length1 ==>
                img[x, y] == if Painted(g, x, y) then foregroundColor else old(img[x, y])
    {
      ghost var done: seq<Coords> := [];
      for y := 0 to |g|
        invariant forall c: Coords :: c in done <==> c.1 < y && c.0 < Width(g)
        invariant forall px, py :: 0 <= px < img.Length0 && 0 <= py < img.Length1 ==>
                    img[px, py] == Drawn(g, done, px, py, old(img[px, py]))
      {
        for x := 0 to |g[y]|
          invariant forall c: Coords :: c in done <==> (c.1 < y && c.0 < Width(g)) || (c.1 == y && c.0 < x)
          invariant forall px, py :: 0 <= px < img.Length0 && 0 <= py < img.Length1 ==>
                      img[px, py] == Drawn(g, done, px, py, old(img[px, py]))
        {
          CellWritesInRange(g, x, y);
          DrawCell((x, y), g[y][x], img);
          assert (done + [(x, y)])[..|done|] == done;
          done := done + [(x, y)];
        }
      }
      forall px, py | 0 <= px < img.Length0 && 0 <= py < img.Length1
        ensures img[px, py] == if Painted(g, px, py) then foregroundColor else old(img[px, py])
      {
        DrawnIsAnyPainter(g, done, px, py, old(img[px, py]));
        if Painted(g, px, py) {
          var cx: nat, cy: nat :| PaintedBy(g, (cx, cy), px, py);
          assert (cx, cy) in done;
        }
      }
    }

    /** The whole formatter: a buffer of exactly Sizes(g) pixels, filled with
        the background, then every cell drawn over it. */
    method Format(g: Grid) returns (out: array2<Color>)
      requires IsGrid(g)
      requires margin >= 1 || wallWidth == 0
      ensures fresh(out)
      ensures (out.Length0, out.Length1) == Sizes(g)
      ensures forall x, y :: 0 <= x < out.Length0 && 0 <= y < out.Length1 ==> out[x, y] == PixelAt(g, x, y)
    {
      var (width, height) := Sizes(g);
      out := new Color[width, height]((_, _) => Black);
      FillBackground(out);
      DrawMaze(out, g);
    }

    /** Every pixel a cell of the grid paints lies inside the image, provided
        the margin is at least one pixel or the walls have no thickness. */
    lemma CellWritesInRange(g: Grid, cx: nat, cy: nat)
      requires IsGrid(g) && cx < Width(g) && cy < Height(g)
      requires margin >= 1 || wallWidth == 0
      ensures forall x, y :: CellPaints((cx, cy), g[cy][cx], x, y) ==> x < Sizes(g).0 && y < Sizes(g).1
    {
      forall x, y | CellPaints((cx, cy), g[cy][cx], x, y)
        ensures x < Sizes(g).0 && y < Sizes(g).1
      {
        if wallWidth == 0 {
          ZeroWallPaintsNothing(x - Start(cx), y - Start(cy), g[cy][cx], passageWidth);
        } else {
          LastCellEnd(g, cx, cy);
        }
      }
    }

    /** The last pixel of any cell's square lies `margin` pixels before the
        image's far edge, or earlier. */
    lemma LastCellEnd(g: Grid, cx: nat, cy: nat)
      requires IsGrid(g) && cx < Width(g) && cy < Height(g)
      ensures Start(cx) + CellWidth() <= Sizes(g).0 - margin
      ensures Start(cy) + CellWidth() <= Sizes(g).1 - margin
      ensures cx == Width(g) - 1 ==> Start(cx) + CellWidth() == Sizes(g).0 - margin
      ensures cy == Height(g) - 1 ==> Start(cy) + CellWidth() == Sizes(g).1 - margin
    {
      MulMono(cx + 1, Width(g), Stride());
      MulMono(cy + 1, Height(g), Stride());
    }

    /** Drawing cells one after another leaves the foreground colour exactly
        where one of them paints, whatever their order. */
    lemma {:induction false} DrawnIsAnyPainter(g: Grid, cs: seq<Coords>, x: int, y: int, base: Color)
      ensures Drawn(g, cs, x, y, base)
           == if exists c :: c in cs && PaintedBy(g, c, x, y) then foregroundColor else base
    {
      if cs != [] {
        var init := cs[..|cs| - 1];
        DrawnIsAnyPainter(g, init, x, y, base);
        assert forall c :: c in cs <==> c in init || c == cs[|cs| - 1] by {
          assert cs == init + [cs[|cs| - 1]];
        }
      }
    }
  }

  /** The same dimension as `sizes` computes it, cw * n - (n - 1) * wall,
      in closed form; n >= 1, since for n = 0 the unsigned n - 1 underflows. */
  lemma JointArithmetic(n: nat, wall: nat, passage: nat)
    requires n >= 1
    ensures (2 * wall + passage) * n - (n - 1) * wall == n * (wall + passage) + wall
  {
  }

  lemma {:induction false} MulMono(a: nat, b: nat, k: nat)
    requires a <= b
    ensures a * k <= b * k
  {
    if a < b {
      MulMono(a, b - 1, k);
    }
  }
}
