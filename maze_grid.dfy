/** The maze grid as the image formatter sees it: a rectangle of cells, each
    knowing which of its four walls are carved. How passages get carved is not
    part of this model; a grid is given, and the invariant that the grid type
    maintains (a carved wall is carved from both sides) is stated as a
    predicate that the lemmas needing it require. */
module MazeGrid {

  /** The four compass directions; the y coordinate grows towards S. */
  datatype Pole = N | E | S | W

  /** An 8-bit colour channel. */
  type Byte = b: int | 0 <= b < 256

  /** An RGB colour; equality is channel-wise. */
  datatype Color = RGB(r: Byte, g: Byte, b: Byte)

  /** The wall state of one cell: the set of poles whose wall is carved. */
  datatype Walls = Walls(carved: set<Pole>)
  {
    predicate Carved(p: Pole) {
      p in carved
    }
  }

  /** Cells indexed [y][x]: one sequence per row. */
  type Grid = seq<seq<Walls>>

  /** A rectangular grid of at least one row and one column. */
  predicate IsGrid(g: Grid) {
    && |g| >= 1
    && |g[0]| >= 1
    && forall y :: 0 <= y < |g| ==> |g[y]| == |g[0]|
  }

  function Width(g: Grid): nat
    requires IsGrid(g)
  {
    |g[0]|
  }

  function Height(g: Grid): nat
    requires IsGrid(g)
  {
    |g|
  }

  /** The grid's invariant: a wall carved on one side is carved on the other
      side too, so a carved wall always has a neighbour behind it. */
  predicate WallsSymmetric(g: Grid)
    requires IsGrid(g)
  {
    forall y, x :: 0 <= y < |g| && 0 <= x < |g[y]| ==> SymmetricAt(g, y, x)
  }

  /** Each carved wall of cell (x, y) is matched by the opposite wall of the
      neighbour on that side. */
  predicate SymmetricAt(g: Grid, y: nat, x: nat)
    requires y < |g| && x < |g[y]|
    requires IsGrid(g)
  {
    && (g[y][x].Carved(N) ==> y > 0 && g[y - 1][x].Carved(S))
    && (g[y][x].Carved(S) ==> y + 1 < |g| && g[y + 1][x].Carved(N))
    && (g[y][x].Carved(W) ==> x > 0 && g[y][x - 1].Carved(E))
    && (g[y][x].Carved(E) ==> x + 1 < |g[y]| && g[y][x + 1].Carved(W))
  }

  /** A consequence of symmetry: the outer walls of the maze are never carved. */
  lemma BoundaryWallsClosed(g: Grid, x: nat, y: nat)
    requires IsGrid(g) && WallsSymmetric(g)
    requires x < Width(g) && y < Height(g)
    ensures x == 0 ==> !g[y][x].Carved(W)
    ensures x == Width(g) - 1 ==> !g[y][x].Carved(E)
    ensures y == 0 ==> !g[y][x].Carved(N)
    ensures y == Height(g) - 1 ==> !g[y][x].Carved(S)
  {
    assert SymmetricAt(g, y, x);
  }

  /** The 4 x 4 maze that the formatter's own test renders, after its fifteen
      carve calls, each of which opens the wall on both sides. */
  function TestMaze(): (g: Grid)
    ensures IsGrid(g) && Width(g) == 4 && Height(g) == 4
  {
    [ [Walls({S}),    Walls({E}),       Walls({W, E}), Walls({W, S})],
      [Walls({N, E}), Walls({W, E, S}), Walls({W}),    Walls({N, S})],
      [Walls({E, S}), Walls({W, N, E}), Walls({W, E}), Walls({W, N})],
      [Walls({N, E}), Walls({W, E}),    Walls({W, E}), Walls({W})] ]
  }

  lemma TestMazeIsSymmetric()
    ensures WallsSymmetric(TestMaze())
  {
    var g := TestMaze();
    forall y: nat, x: nat | y < |g| && x < |g[y]|
      ensures SymmetricAt(g, y, x)
    {
      assert y == 0 || y == 1 || y == 2 || y == 3;
      assert x == 0 || x == 1 || x == 2 || x == 3;
    }
  }
}
