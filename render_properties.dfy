/** Properties of the formatted image as a whole. Cells overlap along their
    joint walls, so one pixel may be drawn by up to four cells; the image
    holds foreground exactly where at least one of them paints. The lemmas
    below say which cells can reach a pixel and what the image looks like
    inside a wall, at a junction of walls and inside a passage. */
module RenderProperties {
  import opened MazeGrid
  import opened CellZones
  import opened ImageFormatter

  /** Drawing the same cells in another order gives the same pixel. */
  lemma DrawOrderIrrelevant(p: Image, g: Grid, cs1: seq<Coords>, cs2: seq<Coords>, x: int, y: int, base: Color)
    requires forall c :: c in cs1 <==> c in cs2
    ensures p.Drawn(g, cs1, x, y, base) == p.Drawn(g, cs2, x, y, base)
  {
    p.DrawnIsAnyPainter(g, cs1, x, y, base);
    p.DrawnIsAnyPainter(g, cs2, x, y, base);
  }

  /** Every painted pixel lies in the frame [margin, size - margin] of the image. */
  lemma PaintedWithinFrame(p: Image, g: Grid, x: int, y: int)
    requires IsGrid(g) && p.Painted(g, x, y)
    ensures p.margin <= x <= p.Sizes(g).0 - p.margin
    ensures p.margin <= y <= p.Sizes(g).1 - p.margin
  {
    var cx: nat, cy: nat :| p.PaintedBy(g, (cx, cy), x, y);
    CellPaintsWithinFrame(p, g, cx, cy, x, y);
  }

  lemma CellPaintsWithinFrame(p: Image, g: Grid, cx: nat, cy: nat, x: int, y: int)
    requires IsGrid(g) && cx < Width(g) && cy < Height(g)
    requires p.Start(cx) <= x <= p.Start(cx) + p.CellWidth()
    requires p.Start(cy) <= y <= p.Start(cy) + p.CellWidth()
    ensures p.margin <= x <= p.Sizes(g).0 - p.margin
    ensures p.margin <= y <= p.Sizes(g).1 - p.margin
  {
    MulMono(0, cx, p.Stride());
    MulMono(0, cy, p.Stride());
    p.LastCellEnd(g, cx, cy);
  }

  /** The margin rows and columns, and the ones past size - margin, stay background. */
  lemma OutsideFrameIsBackground(p: Image, g: Grid, x: int, y: int)
    requires IsGrid(g)
    requires x < p.margin || x > p.Sizes(g).0 - p.margin || y < p.margin || y > p.Sizes(g).1 - p.margin
    ensures p.PixelAt(g, x, y) == p.backgroundColor
  {
    if p.Painted(g, x, y) {
      PaintedWithinFrame(p, g, x, y);
    }
  }

  /** With zero wall thickness the image is all background. */
  lemma ZeroWallImageIsBlank(p: Image, g: Grid, x: int, y: int)
    requires p.wallWidth == 0
    ensures p.PixelAt(g, x, y) == p.backgroundColor
  {
    if p.Painted(g, x, y) {
      var cx: nat, cy: nat :| p.PaintedBy(g, (cx, cy), x, y);
      ZeroWallPaintsNothing(x - p.Start(cx), y - p.Start(cy), g[cy][cx], p.passageWidth);
    }
  }

  /** The buffer is indexed without a check, so formatting a grid (whose walls
      are symmetric) stays inside the buffer exactly when the margin is at
      least one pixel or the walls have no thickness: otherwise the closed
      eastern wall of the last column paints column Sizes(g).0. */
  lemma WritesInRangeIff(p: Image, g: Grid)
    requires IsGrid(g) && WallsSymmetric(g)
    ensures (forall x, y :: p.Painted(g, x, y) ==> x < p.Sizes(g).0 && y < p.Sizes(g).1)
        <==> (p.margin >= 1 || p.wallWidth == 0)
  {
    if p.margin >= 1 || p.wallWidth == 0 {
      forall x, y | p.Painted(g, x, y) ensures x < p.Sizes(g).0 && y < p.Sizes(g).1 {
        var cx: nat, cy: nat :| p.PaintedBy(g, (cx, cy), x, y);
        p.CellWritesInRange(g, cx, cy);
      }
    } else {
      var cx := Width(g) - 1;
      BoundaryWallsClosed(g, cx, 0);
      p.LastCellEnd(g, cx, 0);
      var x, y := p.Start(cx) + p.CellWidth(), p.Start(0) + p.wallWidth;
      assert p.PaintedBy(g, (cx, 0), x, y);
      assert p.Painted(g, x, y) && x == p.Sizes(g).0;
    }
  }

  /** The corner line that a cell with its North wall carved leaves blank
      (FirstMatchDisagrees) is covered by its west neighbour: when the West
      wall stands, the neighbour's NE corner paints the pixel at offset
      (wall, 0). The blank pixel survives only in column 0. */
  lemma NeighbourCoversCornerLine(p: Image, g: Grid, cx: nat, cy: nat)
    requires IsGrid(g) && WallsSymmetric(g) && p.wallWidth >= 1
    requires 1 <= cx < Width(g) && cy < Height(g) && !g[cy][cx].Carved(W)
    ensures p.Painted(g, p.Start(cx) + p.wallWidth, p.Start(cy))
  {
    assert SymmetricAt(g, cy, cx - 1);
    assert p.Start(cx) == p.Start(cx - 1) + p.Stride() by {
      assert cx * p.Stride() == (cx - 1) * p.Stride() + p.Stride();
    }
    assert p.PaintedBy(g, (cx - 1, cy), p.Start(cx) + p.wallWidth, p.Start(cy));
  }

  /** The frame's upper bound is reached: with walls of some thickness, the
      closed outer walls of the last column and the last row paint column
      Sizes(g).0 - margin and row Sizes(g).1 - margin. A cell spans cw + 1
      pixels while the size allots it cw, so the right and bottom margins are
      one pixel narrower than the left and top ones. */
  lemma LastColumnAndRowPainted(p: Image, g: Grid)
    requires IsGrid(g) && WallsSymmetric(g) && p.wallWidth >= 1
    ensures p.Painted(g, p.Sizes(g).0 - p.margin, p.Start(0) + p.wallWidth)
    ensures p.Painted(g, p.Start(0) + p.wallWidth, p.Sizes(g).1 - p.margin)
  {
    var cx := Width(g) - 1;
    BoundaryWallsClosed(g, cx, 0);
    p.LastCellEnd(g, cx, 0);
    assert p.PaintedBy(g, (cx, 0), p.Start(cx) + p.CellWidth(), p.Start(0) + p.wallWidth);
    var cy := Height(g) - 1;
    BoundaryWallsClosed(g, 0, cy);
    p.LastCellEnd(g, 0, cy);
    assert p.PaintedBy(g, (0, cy), p.Start(0) + p.wallWidth, p.Start(cy) + p.CellWidth());
  }

  /** Along one axis, the cells whose closed span [c * stride, c * stride +
      stride + wall] contains q, a position strictly inside joint wall k: the
      two cells that share it. */
  lemma CoverJoint(c: nat, k: nat, stride: nat, wall: nat, q: int)
    requires wall <= stride
    requires k * stride < q < k * stride + wall
    ensures c * stride <= q <= c * stride + stride + wall <==> c + 1 == k || c == k
  {
    if c >= k + 1 {
      MulMono(k + 1, c, stride);
    } else if c + 2 <= k {
      MulMono(c + 2, k, stride);
    } else if c + 1 == k {
      assert c * stride == k * stride - stride;
    }
  }

  /** Along one axis, the only cell whose span contains a position strictly
      inside the passage of cell k is k itself. */
  lemma CoverPassage(c: nat, k: nat, stride: nat, wall: nat, q: int)
    requires wall <= stride
    requires k * stride + wall < q < k * stride + stride
    ensures c * stride <= q <= c * stride + stride + wall <==> c == k
  {
    if c >= k + 1 {
      MulMono(k + 1, c, stride);
    } else if c + 1 <= k {
      MulMono(c + 1, k, stride);
    }
  }

  /** A cell of the grid decides a pixel that lies in the interior of one of
      its zones by that zone's rule alone. */
  lemma PaintedByInterior(p: Image, g: Grid, cx: nat, cy: nat, z: Zone, x: int, y: int)
    requires cy < |g| && cx < |g[cy]|
    requires InZoneInterior(z, x - p.Start(cx), y - p.Start(cy), p.wallWidth, p.passageWidth)
    ensures p.PaintedBy(g, (cx, cy), x, y) <==> !Skips(z, g[cy][cx])
  {
    InteriorFollowsItsZone(z, x - p.Start(cx), y - p.Start(cy), g[cy][cx], p.wallWidth, p.passageWidth);
  }

  /** Inside the vertical wall between columns k - 1 and k, level with a
      passage row: foreground unless that wall is carved. The outer walls
      (k = 0 and k = Width(g)) are always foreground. */
  lemma EastWestWallIff(p: Image, g: Grid, k: nat, cy: nat, x: int, y: int)
    requires IsGrid(g) && WallsSymmetric(g)
    requires k <= Width(g) && cy < Height(g)
    requires k * p.Stride() < x - p.margin < k * p.Stride() + p.wallWidth
    requires cy * p.Stride() + p.wallWidth < y - p.margin < cy * p.Stride() + p.Stride()
    ensures p.Painted(g, x, y) <==> !(0 < k < Width(g) && g[cy][k].Carved(W))
  {
    var st := p.Stride();
    forall cx: nat, cy': nat | p.PaintedBy(g, (cx, cy'), x, y)
      ensures (cx + 1 == k || cx == k) && cy' == cy
    {
      CoverJoint(cx, k, st, p.wallWidth, x - p.margin);
      CoverPassage(cy', cy, st, p.wallWidth, y - p.margin);
    }
    if 0 < k {
      assert (k - 1) * st == k * st - st;
      PaintedByInterior(p, g, k - 1, cy, East, x, y);
    }
    if k < Width(g) {
      PaintedByInterior(p, g, k, cy, West, x, y);
    }
    if k == 0 {
      BoundaryWallsClosed(g, 0, cy);
      assert p.PaintedBy(g, (0, cy), x, y);
    } else if k == Width(g) {
      BoundaryWallsClosed(g, k - 1, cy);
      assert p.PaintedBy(g, (k - 1, cy), x, y);
    } else {
      assert SymmetricAt(g, cy, k);
      assert SymmetricAt(g, cy, k - 1);
      if !g[cy][k].Carved(W) {
        assert p.PaintedBy(g, (k, cy), x, y);
      }
    }
  }

  /** Inside the horizontal wall between rows l - 1 and l, level with a
      passage column: foreground unless that wall is carved. The outer walls
      (l = 0 and l = Height(g)) are always foreground. */
  lemma NorthSouthWallIff(p: Image, g: Grid, cx: nat, l: nat, x: int, y: int)
    requires IsGrid(g) && WallsSymmetric(g)
    requires cx < Width(g) && l <= Height(g)
    requires cx * p.Stride() + p.wallWidth < x - p.margin < cx * p.Stride() + p.Stride()
    requires l * p.Stride() < y - p.margin < l * p.Stride() + p.wallWidth
    ensures p.Painted(g, x, y) <==> !(0 < l < Height(g) && g[l][cx].Carved(N))
  {
    var st := p.Stride();
    forall cx': nat, cy: nat | p.PaintedBy(g, (cx', cy), x, y)
      ensures cx' == cx && (cy + 1 == l || cy == l)
    {
      CoverPassage(cx', cx, st, p.wallWidth, x - p.margin);
      CoverJoint(cy, l, st, p.wallWidth, y - p.margin);
    }
    if 0 < l {
      assert (l - 1) * st == l * st - st;
      PaintedByInterior(p, g, cx, l - 1, South, x, y);
    }
    if l < Height(g) {
      PaintedByInterior(p, g, cx, l, North, x, y);
    }
    if l == 0 {
      BoundaryWallsClosed(g, cx, 0);
      assert p.PaintedBy(g, (cx, 0), x, y);
    } else if l == Height(g) {
      BoundaryWallsClosed(g, cx, l - 1);
      assert p.PaintedBy(g, (cx, l - 1), x, y);
    } else {
      assert SymmetricAt(g, l, cx);
      assert SymmetricAt(g, l - 1, cx);
      if !g[l][cx].Carved(N) {
        assert p.PaintedBy(g, (cx, l), x, y);
      }
    }
  }

  /** Inside the square where the walls around grid point (k, l) meet: it is
      background only when it lies inside the maze and all four wall segments
      that meet there are carved. */
  lemma JunctionIff(p: Image, g: Grid, k: nat, l: nat, x: int, y: int)
    requires IsGrid(g) && WallsSymmetric(g)
    requires k <= Width(g) && l <= Height(g)
    requires k * p.Stride() < x - p.margin < k * p.Stride() + p.wallWidth
    requires l * p.Stride() < y - p.margin < l * p.Stride() + p.wallWidth
    ensures !p.Painted(g, x, y) <==>
      && 0 < k < Width(g) && 0 < l < Height(g)
      && g[l - 1][k].Carved(W) && g[l][k].Carved(W)
      && g[l][k - 1].Carved(N) && g[l][k].Carved(N)
  {
    JunctionPainters(p, g, k, l, x, y);
    if 0 < k < Width(g) && 0 < l < Height(g) {
      InnerJunctionCells(p, g, k, l, x, y);
      if !(g[l - 1][k].Carved(W) && g[l][k].Carved(W) && g[l][k - 1].Carved(N) && g[l][k].Carved(N)) {
        if !(g[l - 1][k].Carved(W) && g[l][k - 1].Carved(N)) {
          assert p.PaintedBy(g, (k - 1, l - 1), x, y);
        } else {
          assert p.PaintedBy(g, (k, l), x, y);
        }
      }
    } else {
      BoundaryJunctionPainted(p, g, k, l, x, y);
    }
  }

  /** At a junction inside the maze each of the four cells decides by its own
      corner rule; by symmetry the two walls each corner looks at are the two
      segments of that quadrant. */
  lemma InnerJunctionCells(p: Image, g: Grid, k: nat, l: nat, x: int, y: int)
    requires IsGrid(g) && WallsSymmetric(g)
    requires 0 < k < Width(g) && 0 < l < Height(g)
    requires k * p.Stride() < x - p.margin < k * p.Stride() + p.wallWidth
    requires l * p.Stride() < y - p.margin < l * p.Stride() + p.wallWidth
    ensures p.PaintedBy(g, (k - 1, l - 1), x, y) <==> !(g[l - 1][k].Carved(W) && g[l][k - 1].Carved(N))
    ensures p.PaintedBy(g, (k, l - 1), x, y) <==> !(g[l - 1][k].Carved(W) && g[l][k].Carved(N))
    ensures p.PaintedBy(g, (k - 1, l), x, y) <==> !(g[l][k - 1].Carved(N) && g[l][k].Carved(W))
    ensures p.PaintedBy(g, (k, l), x, y) <==> !(g[l][k].Carved(N) && g[l][k].Carved(W))
  {
    var st := p.Stride();
    assert (k - 1) * st == k * st - st;
    assert (l - 1) * st == l * st - st;
    PaintedByInterior(p, g, k - 1, l - 1, SouthEast, x, y);
    PaintedByInterior(p, g, k, l - 1, SouthWest, x, y);
    PaintedByInterior(p, g, k - 1, l, NorthEast, x, y);
    PaintedByInterior(p, g, k, l, NorthWest, x, y);
    assert SymmetricAt(g, l - 1, k - 1) && SymmetricAt(g, l - 1, k);
    assert SymmetricAt(g, l, k - 1) && SymmetricAt(g, l, k);
  }

  /** At a junction on the border of the maze some cell there has an outer,
      hence closed, wall among the two its corner rule looks at, and paints. */
  lemma BoundaryJunctionPainted(p: Image, g: Grid, k: nat, l: nat, x: int, y: int)
    requires IsGrid(g) && WallsSymmetric(g)
    requires k <= Width(g) && l <= Height(g)
    requires !(0 < k < Width(g) && 0 < l < Height(g))
    requires k * p.Stride() < x - p.margin < k * p.Stride() + p.wallWidth
    requires l * p.Stride() < y - p.margin < l * p.Stride() + p.wallWidth
    ensures p.Painted(g, x, y)
  {
    var st := p.Stride();
    var cx := if k < Width(g) then k else k - 1;
    var cy := if l < Height(g) then l else l - 1;
    assert cx * st == k * st || cx * st == k * st - st;
    assert cy * st == l * st || cy * st == l * st - st;
    var z := if cx == k then (if cy == l then NorthWest else SouthWest)
             else (if cy == l then NorthEast else SouthEast);
    PaintedByInterior(p, g, cx, cy, z, x, y);
    BoundaryWallsClosed(g, cx, cy);
    assert p.PaintedBy(g, (cx, cy), x, y);
  }

  /** Only the (up to four) cells around grid point (k, l) reach a pixel
      strictly inside the junction square there. */
  lemma JunctionPainters(p: Image, g: Grid, k: nat, l: nat, x: int, y: int)
    requires k * p.Stride() < x - p.margin < k * p.Stride() + p.wallWidth
    requires l * p.Stride() < y - p.margin < l * p.Stride() + p.wallWidth
    ensures forall cx: nat, cy: nat :: p.PaintedBy(g, (cx, cy), x, y) ==> (cx + 1 == k || cx == k) && (cy + 1 == l || cy == l)
  {
    forall cx: nat, cy: nat | p.PaintedBy(g, (cx, cy), x, y)
      ensures (cx + 1 == k || cx == k) && (cy + 1 == l || cy == l)
    {
      CoverJoint(cx, k, p.Stride(), p.wallWidth, x - p.margin);
      CoverJoint(cy, l, p.Stride(), p.wallWidth, y - p.margin);
    }
  }

  /** Inside a cell's passage square the image is background, whatever the walls. */
  lemma PassageInteriorIsBackground(p: Image, g: Grid, cx: nat, cy: nat, x: int, y: int)
    requires IsGrid(g) && cx < Width(g) && cy < Height(g)
    requires cx * p.Stride() + p.wallWidth < x - p.margin < cx * p.Stride() + p.Stride()
    requires cy * p.Stride() + p.wallWidth < y - p.margin < cy * p.Stride() + p.Stride()
    ensures p.PixelAt(g, x, y) == p.backgroundColor
  {
    if p.Painted(g, x, y) {
      var cx': nat, cy': nat :| p.PaintedBy(g, (cx', cy'), x, y);
      CoverPassage(cx', cx, p.Stride(), p.wallWidth, x - p.margin);
      CoverPassage(cy', cy, p.Stride(), p.wallWidth, y - p.margin);
      PaintedByInterior(p, g, cx, cy, Zone.Passage, x, y);
    }
  }

  /** The builder chain of the formatter's parameter test sets all five fields. */
  lemma ParamsChange()
    ensures var img := Image.New().Wall(10).Passage(5).Background(RGB(1, 1, 1))
                                  .Foreground(RGB(100, 100, 100)).Margin(20);
            && img.wallWidth == 10 && img.passageWidth == 5
            && img.backgroundColor == RGB(1, 1, 1) && img.foregroundColor == RGB(100, 100, 100)
            && img.margin == 20
  {
  }

  /** With the default parameters the 4 x 4 test maze becomes a 460 x 460 image. */
  lemma TestMazeSizes()
    ensures Image.New().Sizes(TestMaze()) == (460, 460)
  {
  }

  /** A few pixels of the test maze rendered with the defaults (stride 80,
      wall 40, margin 50): the carved wall between cells (0, 1) and (1, 1) is
      open, the closed one between (0, 0) and (1, 0) is drawn, the junction
      at grid point (1, 1) is drawn, and passages and margins are background. */
  lemma TestMazePixels()
    ensures var p, g := Image.New(), TestMaze();
      && p.PixelAt(g, 150, 190) == p.backgroundColor
      && p.PixelAt(g, 150, 110) == p.foregroundColor
      && p.PixelAt(g, 150, 150) == p.foregroundColor
      && p.PixelAt(g, 110, 110) == p.backgroundColor
      && p.PixelAt(g, 10, 300) == p.backgroundColor
  {
    var p, g := Image.New(), TestMaze();
    TestMazeIsSymmetric();
    EastWestWallIff(p, g, 1, 1, 150, 190);
    EastWestWallIff(p, g, 1, 0, 150, 110);
    JunctionIff(p, g, 1, 1, 150, 150);
    PassageInteriorIsBackground(p, g, 0, 0, 110, 110);
    OutsideFrameIsBackground(p, g, 10, 300);
  }
}
