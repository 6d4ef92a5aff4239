/** The per-pixel rule that draws one cell. A cell occupies the closed square
    of offsets [0, cw] x [0, cw] from its top-left pixel, where
    cw = 2 * wall + passage is the cell width and j = wall + passage the cell
    width without the joint wall. The square is covered by nine overlapping
    zones (four corners, four edges and the passage); zones share their
    boundary lines. A pixel is painted unless SOME zone containing it says to
    skip it: the checks fall through, they do not stop at the first zone that
    contains the pixel. */
module CellZones {
  import opened MazeGrid

  datatype Zone = NorthWest | North | NorthEast | West | Passage | East | SouthWest | South | SouthEast

  /** The zones in the order the drawing loop tests them. */
  const SourceOrder: seq<Zone> :=
    [NorthWest, North, NorthEast, West, Passage, East, SouthWest, South, SouthEast]

  /** Whether offset (dx, dy) lies in zone z of a cell; all bounds are inclusive. */
  predicate InZone(z: Zone, dx: int, dy: int, wall: nat, passage: nat)
  {
    var j := wall + passage;
    var cw := 2 * wall + passage;
    match z
    case NorthWest => 0 <= dx <= wall && 0 <= dy <= wall
    case North     => wall <= dx <= j && 0 <= dy <= wall
    case NorthEast => j <= dx <= cw && 0 <= dy <= wall
    case West      => 0 <= dx <= wall && wall <= dy <= j
    case Passage   => wall <= dx <= j && wall <= dy <= j
    case East      => j <= dx <= cw && wall <= dy <= j
    case SouthWest => 0 <= dx <= wall && j <= dy <= cw
    case South     => wall <= dx <= j && j <= dy <= cw
    case SouthEast => j <= dx <= cw && j <= dy <= cw
  }

  /** Whether zone z leaves its pixels as background, given the cell's walls:
      a corner when both adjoining walls are carved, an edge when its own wall
      is carved, the passage always. */
  predicate Skips(z: Zone, walls: Walls)
  {
    match z
    case NorthWest => walls.Carved(N) && walls.Carved(W)
    case North     => walls.Carved(N)
    case NorthEast => walls.Carved(N) && walls.Carved(E)
    case West      => walls.Carved(W)
    case Passage   => true
    case East      => walls.Carved(E)
    case SouthWest => walls.Carved(S) && walls.Carved(W)
    case South     => walls.Carved(S)
    case SouthEast => walls.Carved(S) && walls.Carved(E)
  }

  predicate SkippedBy(z: Zone, dx: int, dy: int, walls: Walls, wall: nat, passage: nat)
  {
    InZone(z, dx, dy, wall, passage) && Skips(z, walls)
  }

  /** The paint decision for the pixel at offset (dx, dy) of a cell: no zone
      containing it says to skip it. */
  predicate ShouldPaint(dx: int, dy: int, walls: Walls, wall: nat, passage: nat)
  {
    && !SkippedBy(NorthWest, dx, dy, walls, wall, passage)
    && !SkippedBy(North, dx, dy, walls, wall, passage)
    && !SkippedBy(NorthEast, dx, dy, walls, wall, passage)
    && !SkippedBy(West, dx, dy, walls, wall, passage)
    && !SkippedBy(Passage, dx, dy, walls, wall, passage)
    && !SkippedBy(East, dx, dy, walls, wall, passage)
    && !SkippedBy(SouthWest, dx, dy, walls, wall, passage)
    && !SkippedBy(South, dx, dy, walls, wall, passage)
    && !SkippedBy(SouthEast, dx, dy, walls, wall, passage)
  }

  /** The offset lies in the cell's closed square. */
  predicate InSquare(dx: int, dy: int, wall: nat, passage: nat)
  {
    0 <= dx <= 2 * wall + passage && 0 <= dy <= 2 * wall + passage
  }

  /** The checks run one after another in the given order; a zone that
      contains the pixel and says skip ends them (`continue`), any other zone
      lets evaluation fall through to the next check. */
  function Checks(order: seq<Zone>, dx: int, dy: int, walls: Walls, wall: nat, passage: nat): bool
  {
    if order == [] then true
    else if SkippedBy(order[0], dx, dy, walls, wall, passage) then false
    else Checks(order[1..], dx, dy, walls, wall, passage)
  }

  /** The other reading of the zone table: the first zone in the order that
      contains the pixel decides on its own. */
  function FirstMatch(order: seq<Zone>, dx: int, dy: int, walls: Walls, wall: nat, passage: nat): bool
  {
    if order == [] then true
    else if InZone(order[0], dx, dy, wall, passage) then !Skips(order[0], walls)
    else FirstMatch(order[1..], dx, dy, walls, wall, passage)
  }

  /** Running the checks paints exactly when no zone of the order skips the pixel. */
  lemma {:induction false} ChecksFallThrough(order: seq<Zone>, dx: int, dy: int, walls: Walls, wall: nat, passage: nat)
    ensures Checks(order, dx, dy, walls, wall, passage)
        <==> forall z :: z in order ==> !SkippedBy(z, dx, dy, walls, wall, passage)
  {
    if order != [] {
      ChecksFallThrough(order[1..], dx, dy, walls, wall, passage);
      assert forall z :: z in order <==> z == order[0] || z in order[1..];
    }
  }

  /** The order of the checks does not matter: any order that tests all nine
      zones paints exactly the pixels ShouldPaint selects. */
  lemma ChecksInAnyOrder(order: seq<Zone>, dx: int, dy: int, walls: Walls, wall: nat, passage: nat)
    requires forall z: Zone :: z in order
    ensures Checks(order, dx, dy, walls, wall, passage) == ShouldPaint(dx, dy, walls, wall, passage)
  {
    ChecksFallThrough(order, dx, dy, walls, wall, passage);
    assert NorthWest in order && North in order && NorthEast in order;
    assert West in order && Passage in order && East in order;
    assert SouthWest in order && South in order && SouthEast in order;
  }

  /** The loop's own order is one such order. */
  lemma SourceOrderIsShouldPaint(dx: int, dy: int, walls: Walls, wall: nat, passage: nat)
    ensures Checks(SourceOrder, dx, dy, walls, wall, passage) == ShouldPaint(dx, dy, walls, wall, passage)
  {
    forall z: Zone ensures z in SourceOrder {
      match z
      case NorthWest => assert SourceOrder[0] == z;
      case North => assert SourceOrder[1] == z;
      case NorthEast => assert SourceOrder[2] == z;
      case West => assert SourceOrder[3] == z;
      case Passage => assert SourceOrder[4] == z;
      case East => assert SourceOrder[5] == z;
      case SouthWest => assert SourceOrder[6] == z;
      case South => assert SourceOrder[7] == z;
      case SouthEast => assert SourceOrder[8] == z;
    }
    ChecksInAnyOrder(SourceOrder, dx, dy, walls, wall, passage);
  }

  /** Fall-through and first-match differ: the pixel at offset (wall, 0) lies
      in the NW corner and in the N edge. With N carved and W closed the
      corner alone would paint it, but the N edge check that follows skips it. */
  lemma FirstMatchDisagrees(walls: Walls, wall: nat, passage: nat)
    requires walls.Carved(N) && !walls.Carved(W)
    ensures FirstMatch(SourceOrder, wall, 0, walls, wall, passage)
    ensures !ShouldPaint(wall, 0, walls, wall, passage)
  {
  }

  /** A painted corner pixel always has one of the corner's two walls
      standing: a corner displays only if either adjoining wall exists. */
  lemma CornersDisplayOnlyIfWall(dx: int, dy: int, walls: Walls, wall: nat, passage: nat)
    requires ShouldPaint(dx, dy, walls, wall, passage)
    ensures InZone(NorthWest, dx, dy, wall, passage) ==> !walls.Carved(N) || !walls.Carved(W)
    ensures InZone(NorthEast, dx, dy, wall, passage) ==> !walls.Carved(N) || !walls.Carved(E)
    ensures InZone(SouthWest, dx, dy, wall, passage) ==> !walls.Carved(S) || !walls.Carved(W)
    ensures InZone(SouthEast, dx, dy, wall, passage) ==> !walls.Carved(S) || !walls.Carved(E)
  {
  }

  /** The passage square [wall, j] x [wall, j] is never painted, whatever the walls. */
  lemma PassageNeverPainted(dx: int, dy: int, walls: Walls, wall: nat, passage: nat)
    requires wall <= dx <= wall + passage && wall <= dy <= wall + passage
    ensures !ShouldPaint(dx, dy, walls, wall, passage)
  {
  }

  /** A cell with no carved wall paints its whole square except the passage square. */
  lemma ClosedCellPaintsFrame(dx: int, dy: int, walls: Walls, wall: nat, passage: nat)
    requires walls.carved == {}
    requires InSquare(dx, dy, wall, passage)
    ensures ShouldPaint(dx, dy, walls, wall, passage) <==> !InZone(Passage, dx, dy, wall, passage)
  {
  }

  /** A cell with all four walls carved paints nothing: the nine zones cover
      its square and each of them skips. */
  lemma OpenCellPaintsNothing(dx: int, dy: int, walls: Walls, wall: nat, passage: nat)
    requires walls.carved == {N, E, S, W}
    requires InSquare(dx, dy, wall, passage)
    ensures !ShouldPaint(dx, dy, walls, wall, passage)
  {
  }

  /** With zero wall thickness the passage zone is the whole square, so the
      cell paints nothing. */
  lemma ZeroWallPaintsNothing(dx: int, dy: int, walls: Walls, passage: nat)
    requires InSquare(dx, dy, 0, passage)
    ensures !ShouldPaint(dx, dy, walls, 0, passage)
  {
  }

  /** The interior of a zone: the pixels of z that lie on none of the lines
      where z meets another zone. */
  predicate InZoneInterior(z: Zone, dx: int, dy: int, wall: nat, passage: nat)
  {
    var j := wall + passage;
    var cw := 2 * wall + passage;
    match z
    case NorthWest => 0 <= dx < wall && 0 <= dy < wall
    case North     => wall < dx < j && 0 <= dy < wall
    case NorthEast => j < dx <= cw && 0 <= dy < wall
    case West      => 0 <= dx < wall && wall < dy < j
    case Passage   => wall < dx < j && wall < dy < j
    case East      => j < dx <= cw && wall < dy < j
    case SouthWest => 0 <= dx < wall && j < dy <= cw
    case South     => wall < dx < j && j < dy <= cw
    case SouthEast => j < dx <= cw && j < dy <= cw
  }

  /** A pixel inside one zone's interior lies in no other zone, and that
      zone's rule alone decides it: a corner is left only when both adjoining
      walls are carved, an edge when its own wall is. */
  lemma InteriorFollowsItsZone(z: Zone, dx: int, dy: int, walls: Walls, wall: nat, passage: nat)
    requires InZoneInterior(z, dx, dy, wall, passage)
    ensures forall z' :: InZone(z', dx, dy, wall, passage) <==> z' == z
    ensures ShouldPaint(dx, dy, walls, wall, passage) <==> !Skips(z, walls)
  {
    forall z' ensures InZone(z', dx, dy, wall, passage) <==> z' == z {
    }
  }
}
