/// Cube topology of the Liquiprism automaton: the six faces, the four local
/// edges of a face, the fixed face-adjacency table and the neighbour geometry
/// of a cell (which locations its up-to-eight neighbours occupy).
module Cube {

  /// The six faces, in the order of the TypeScript engine's FacePosition enumeration (FRONT = 0 ... BOTTOM = 5).
  datatype FacePosition = Front | Back | Left | Right | Top | Bottom

  /// The four local edges of a face (RelativeFacePosition in the TypeScript engine):
  /// crossing an edge leads to the face that lies across it.
  datatype Edge = TopEdge | BottomEdge | LeftEdge | RightEdge

  /// The numeric value of a face in the enumeration, which is also its index
  /// in the engine's face list.
  function FaceIndex(p: FacePosition): (t: nat)
    ensures t < 6
    ensures FaceAt(t) == p
  {
    match p
    case Front => 0
    case Back => 1
    case Left => 2
    case Right => 3
    case Top => 4
    case Bottom => 5
  }

  /// The face with enumeration value t.
  function FaceAt(t: nat): FacePosition
    requires t < 6
  {
    [Front, Back, Left, Right, Top, Bottom][t]
  }

  lemma FaceAtIndex(t: nat)
    requires t < 6
    ensures FaceIndex(FaceAt(t)) == t
  {
  }

  /// Independent description of cube geometry: the face on the other side of the cube.
  function Opposite(p: FacePosition): (q: FacePosition)
    ensures q != p
  {
    match p
    case Front => Back
    case Back => Front
    case Left => Right
    case Right => Left
    case Top => Bottom
    case Bottom => Top
  }

  function OppositeEdge(e: Edge): Edge
  {
    match e
    case TopEdge => BottomEdge
    case BottomEdge => TopEdge
    case LeftEdge => RightEdge
    case RightEdge => LeftEdge
  }

  /// The face-adjacency table built once by the engine's constructor.  Its
  /// contract checks it against cube geometry: an edge never leads back to the
  /// face itself or to its opposite face, and the two ends of each axis lead to
  /// opposite faces.
  function FaceMap(p: FacePosition, e: Edge): (q: FacePosition)
    ensures q != p && q != Opposite(p)
  {
    match p
    case Front =>
      (match e case TopEdge => Top case BottomEdge => Bottom case LeftEdge => Left case RightEdge => Right)
    case Back =>
      (match e case TopEdge => Top case BottomEdge => Bottom case LeftEdge => Right case RightEdge => Left)
    case Left =>
      (match e case TopEdge => Top case BottomEdge => Bottom case LeftEdge => Back case RightEdge => Front)
    case Right =>
      (match e case TopEdge => Top case BottomEdge => Bottom case LeftEdge => Front case RightEdge => Back)
    case Top =>
      (match e case TopEdge => Back case BottomEdge => Front case LeftEdge => Left case RightEdge => Right)
    case Bottom =>
      (match e case TopEdge => Front case BottomEdge => Back case LeftEdge => Left case RightEdge => Right)
  }

  /// The two ends of each axis of a face lead to opposite faces.
  lemma FaceMapOppositeEdges(p: FacePosition, e: Edge)
    ensures FaceMap(p, OppositeEdge(e)) == Opposite(FaceMap(p, e))
  {
  }

  /// The four edges of every face border exactly the four faces that are
  /// neither the face itself nor its opposite.
  lemma FaceMapCoversSides(p: FacePosition)
    ensures {FaceMap(p, TopEdge), FaceMap(p, BottomEdge), FaceMap(p, LeftEdge), FaceMap(p, RightEdge)}
         == {Front, Back, Left, Right, Top, Bottom} - {p, Opposite(p)}
  {
  }

  /// The table is not an exact cube unfolding: crossing an edge and then the
  /// opposite edge of the face reached returns to the start only for the
  /// left and right edges of the four side faces, and for the top and bottom
  /// edges between FRONT and TOP or BOTTOM.
  lemma EdgeRoundTrip(p: FacePosition, e: Edge)
    ensures FaceMap(FaceMap(p, e), OppositeEdge(e)) == p
        <==> if e == LeftEdge || e == RightEdge then p !in {Top, Bottom}
             else p == Front || (p == Top && e == BottomEdge) || (p == Bottom && e == TopEdge)
  {
  }

  /// A cell location: the face and the (row, column) position on it.
  datatype Loc = Loc(face: FacePosition, row: int, col: int)

  predicate InGrid(n: nat, loc: Loc)
  {
    0 <= loc.row < n && 0 <= loc.col < n
  }

  predicate AllInGrid(n: nat, locs: seq<Loc>)
  {
    forall loc <- locs :: InGrid(n, loc)
  }

  /// What the offset (di, dj) contributes to the neighbours of cell (i, j) of
  /// face f: the same-face cell when both coordinates stay on the face; when
  /// exactly one leaves it, the cell of the face across that edge whose crossed
  /// coordinate is clamped to the far edge and whose other coordinate is kept;
  /// nothing when both leave it.
  /// For a cell of the face and a unit offset other than (0, 0) this is at
  /// most one location, on some face, and never the cell itself.
  function OffsetNeighbour(n: nat, f: FacePosition, i: int, j: int, di: int, dj: int): (r: seq<Loc>)
    ensures 0 <= i < n && 0 <= j < n && -1 <= di <= 1 && -1 <= dj <= 1 && (di, dj) != (0, 0) ==>
              |r| <= 1 && AllInGrid(n, r) && Loc(f, i, j) !in r
  {
    var ni, nj := i + di, j + dj;
    var rowIn, colIn := 0 <= ni < n, 0 <= nj < n;
    if rowIn && colIn then [Loc(f, ni, nj)]
    else if !rowIn && !colIn then []
    else if ni < 0 then [Loc(FaceMap(f, TopEdge), n - 1, nj)]
    else if ni >= n then [Loc(FaceMap(f, BottomEdge), 0, nj)]
    else if nj < 0 then [Loc(FaceMap(f, LeftEdge), ni, n - 1)]
    else [Loc(FaceMap(f, RightEdge), ni, 0)]
  }

  /// The resolver's two crossing stages for an offset (di, dj) of cell (i, j):
  /// first the row may leave through the top or bottom edge (moving to the
  /// face across it, the row clamped to the far edge, one crossing counted),
  /// then the column through the left or right edge (the same for the column,
  /// the face taken across the original face's edge).  With exactly one
  /// crossing the result is the single location OffsetNeighbour gives; with
  /// none or two it gives nothing or the same-face cell.
  lemma CrossingStages(n: nat, f: FacePosition, i: int, j: int, di: int, dj: int,
                       rowFace: FacePosition, ni: int, rowCrossings: nat,
                       face: FacePosition, nj: int, crossings: nat)
    requires 0 <= i < n && 0 <= j < n && -1 <= di <= 1 && -1 <= dj <= 1
    requires (rowFace, ni, rowCrossings)
          == if i + di < 0 then (FaceMap(f, TopEdge), n - 1, 1)
             else if i + di >= n then (FaceMap(f, BottomEdge), 0, 1)
             else (f, i + di, 0)
    requires (face, nj, crossings)
          == if j + dj < 0 then (FaceMap(f, LeftEdge), n - 1, rowCrossings + 1)
             else if j + dj >= n then (FaceMap(f, RightEdge), 0, rowCrossings + 1)
             else (rowFace, j + dj, rowCrossings)
    ensures crossings == 1 ==> 0 <= ni < n && 0 <= nj < n && OffsetNeighbour(n, f, i, j, di, dj) == [Loc(face, ni, nj)]
    ensures crossings != 1 && !(0 <= i + di < n && 0 <= j + dj < n) ==> OffsetNeighbour(n, f, i, j, di, dj) == []
  {
  }

  /// The contributions of offsets (di, -1) .. (di, dj - 1), skipping (0, 0).
  function RowPrefix(n: nat, f: FacePosition, i: int, j: int, di: int, dj: int): (r: seq<Loc>)
    requires -1 <= dj <= 2
    ensures 0 <= i < n && 0 <= j < n && -1 <= di <= 1 ==> AllInGrid(n, r) && |r| <= dj + 1
    decreases dj + 1
  {
    if dj == -1 then []
    else RowPrefix(n, f, i, j, di, dj - 1)
         + (if di == 0 && dj - 1 == 0 then [] else OffsetNeighbour(n, f, i, j, di, dj - 1))
  }

  /// The contributions of all rows of offsets before di.
  function Prefix(n: nat, f: FacePosition, i: int, j: int, di: int): (r: seq<Loc>)
    requires -1 <= di <= 2
    ensures 0 <= i < n && 0 <= j < n ==> AllInGrid(n, r) && |r| <= 3 * (di + 1)
    decreases di + 1
  {
    if di == -1 then [] else Prefix(n, f, i, j, di - 1) + RowPrefix(n, f, i, j, di - 1, 2)
  }

  /// The neighbour locations of cell (i, j) of face f, in the order the
  /// resolver visits the offsets (row offset outer, column offset inner).
  function Neighbours(n: nat, f: FacePosition, i: int, j: int): (r: seq<Loc>)
    ensures 0 <= i < n && 0 <= j < n ==> AllInGrid(n, r)
  {
    Prefix(n, f, i, j, 2)
  }

  /// One more column offset of a row: its contribution is appended.
  lemma RowPrefixStep(n: nat, f: FacePosition, i: int, j: int, di: int, dj: int, next: int)
    requires -1 <= dj <= 1 && next == dj + 1
    ensures RowPrefix(n, f, i, j, di, next)
         == RowPrefix(n, f, i, j, di, dj) + (if di == 0 && dj == 0 then [] else OffsetNeighbour(n, f, i, j, di, dj))
  {
    assert next - 1 == dj;
  }

  /// One more row of offsets: the whole row is appended.
  lemma PrefixStep(n: nat, f: FacePosition, i: int, j: int, di: int, next: int)
    requires -1 <= di <= 1 && next == di + 1
    ensures Prefix(n, f, i, j, next) == Prefix(n, f, i, j, di) + RowPrefix(n, f, i, j, di, 2)
  {
    assert next - 1 == di;
  }

  lemma RowPrefixAbove(n: nat, f: FacePosition, i: int, j: int)
    ensures RowPrefix(n, f, i, j, -1, 2)
         == OffsetNeighbour(n, f, i, j, -1, -1) + OffsetNeighbour(n, f, i, j, -1, 0)
          + OffsetNeighbour(n, f, i, j, -1, 1)
  {
    assert RowPrefix(n, f, i, j, -1, 0) == OffsetNeighbour(n, f, i, j, -1, -1);
  }

  lemma RowPrefixLevel(n: nat, f: FacePosition, i: int, j: int)
    ensures RowPrefix(n, f, i, j, 0, 2)
         == OffsetNeighbour(n, f, i, j, 0, -1) + OffsetNeighbour(n, f, i, j, 0, 1)
  {
    assert RowPrefix(n, f, i, j, 0, 0) == OffsetNeighbour(n, f, i, j, 0, -1);
  }

  lemma RowPrefixBelow(n: nat, f: FacePosition, i: int, j: int)
    ensures RowPrefix(n, f, i, j, 1, 2)
         == OffsetNeighbour(n, f, i, j, 1, -1) + OffsetNeighbour(n, f, i, j, 1, 0)
          + OffsetNeighbour(n, f, i, j, 1, 1)
  {
    assert RowPrefix(n, f, i, j, 1, 0) == OffsetNeighbour(n, f, i, j, 1, -1);
  }

  lemma PrefixRows(n: nat, f: FacePosition, i: int, j: int)
    ensures Neighbours(n, f, i, j)
         == RowPrefix(n, f, i, j, -1, 2) + RowPrefix(n, f, i, j, 0, 2) + RowPrefix(n, f, i, j, 1, 2)
  {
    assert Prefix(n, f, i, j, 0) == RowPrefix(n, f, i, j, -1, 2);
    assert Prefix(n, f, i, j, 1) == Prefix(n, f, i, j, 0) + RowPrefix(n, f, i, j, 0, 2);
  }

  /// The eight offsets written out.
  lemma {:induction false} NeighboursUnfold(n: nat, f: FacePosition, i: int, j: int)
    ensures Neighbours(n, f, i, j)
         == (OffsetNeighbour(n, f, i, j, -1, -1) + OffsetNeighbour(n, f, i, j, -1, 0)
             + OffsetNeighbour(n, f, i, j, -1, 1))
          + (OffsetNeighbour(n, f, i, j, 0, -1) + OffsetNeighbour(n, f, i, j, 0, 1))
          + (OffsetNeighbour(n, f, i, j, 1, -1) + OffsetNeighbour(n, f, i, j, 1, 0)
             + OffsetNeighbour(n, f, i, j, 1, 1))
  {
    PrefixRows(n, f, i, j);
    RowPrefixAbove(n, f, i, j);
    RowPrefixLevel(n, f, i, j);
    RowPrefixBelow(n, f, i, j);
  }

  predicate IsCorner(n: nat, i: int, j: int)
  {
    (i == 0 || i == n - 1) && (j == 0 || j == n - 1)
  }

  /// Every neighbour is a cell on some face, and never the cell itself.
  lemma {:induction false} NeighboursInGrid(n: nat, f: FacePosition, i: int, j: int)
    requires 0 <= i < n && 0 <= j < n
    ensures |Neighbours(n, f, i, j)| <= 8
    ensures forall loc <- Neighbours(n, f, i, j) :: InGrid(n, loc) && loc != Loc(f, i, j)
  {
    NeighboursUnfold(n, f, i, j);
  }

  /// On a face of size at least 2, the four corner cells have 7 neighbours
  /// (one diagonal leaves the face on both axes) and all other cells have 8.
  lemma {:induction false} NeighbourCount(n: nat, f: FacePosition, i: int, j: int)
    requires 2 <= n && 0 <= i < n && 0 <= j < n
    ensures |Neighbours(n, f, i, j)| == if IsCorner(n, i, j) then 7 else 8
  {
    NeighboursUnfold(n, f, i, j);
  }

  /// On a face of size 1 each cell keeps only its four edge-crossing neighbours.
  lemma {:induction false} SingleCellNeighbourCount(f: FacePosition)
    ensures Neighbours(1, f, 0, 0)
         == [Loc(FaceMap(f, TopEdge), 0, 0), Loc(FaceMap(f, LeftEdge), 0, 0),
             Loc(FaceMap(f, RightEdge), 0, 0), Loc(FaceMap(f, BottomEdge), 0, 0)]
  {
    SingleCellOffsets(f);
    var top, left := Loc(FaceMap(f, TopEdge), 0, 0), Loc(FaceMap(f, LeftEdge), 0, 0);
    var right, bottom := Loc(FaceMap(f, RightEdge), 0, 0), Loc(FaceMap(f, BottomEdge), 0, 0);
    RowPrefixAbove(1, f, 0, 0);
    assert RowPrefix(1, f, 0, 0, -1, 2) == [] + [top] + [] == [top];
    RowPrefixLevel(1, f, 0, 0);
    assert RowPrefix(1, f, 0, 0, 0, 2) == [left] + [right] == [left, right];
    RowPrefixBelow(1, f, 0, 0);
    assert RowPrefix(1, f, 0, 0, 1, 2) == [] + [bottom] + [] == [bottom];
    PrefixRows(1, f, 0, 0);
  }

  /// The eight offsets of the only cell of a face of size 1.
  lemma SingleCellOffsets(f: FacePosition)
    ensures OffsetNeighbour(1, f, 0, 0, -1, -1) == [] && OffsetNeighbour(1, f, 0, 0, -1, 1) == []
    ensures OffsetNeighbour(1, f, 0, 0, 1, -1) == [] && OffsetNeighbour(1, f, 0, 0, 1, 1) == []
    ensures OffsetNeighbour(1, f, 0, 0, -1, 0) == [Loc(FaceMap(f, TopEdge), 0, 0)]
    ensures OffsetNeighbour(1, f, 0, 0, 0, -1) == [Loc(FaceMap(f, LeftEdge), 0, 0)]
    ensures OffsetNeighbour(1, f, 0, 0, 0, 1) == [Loc(FaceMap(f, RightEdge), 0, 0)]
    ensures OffsetNeighbour(1, f, 0, 0, 1, 0) == [Loc(FaceMap(f, BottomEdge), 0, 0)]
  {
  }

  /// The location the stochastic rule looks at: the cell directly below on the
  /// same face, or row 0 of the face across the bottom edge from the last row.
  function BelowLoc(n: nat, f: FacePosition, i: int, j: int): (loc: Loc)
    requires 0 <= i < n && 0 <= j < n
    ensures InGrid(n, loc) && loc.col == j
  {
    if i == n - 1 then Loc(FaceMap(f, BottomEdge), 0, j) else Loc(f, i + 1, j)
  }

  /// The cell below is exactly the neighbour the resolver finds for the
  /// offset (1, 0).
  lemma BelowIsNeighbour(n: nat, f: FacePosition, i: int, j: int)
    requires 0 <= i < n && 0 <= j < n
    ensures OffsetNeighbour(n, f, i, j, 1, 0) == [BelowLoc(n, f, i, j)]
  {
  }
}
