/// The Liquiprism engine: a cube of six faces of cells that is advanced one
/// generation at a time.  A face owns a row-major array of cells; a cell is a
/// record value, so changing a cell's fields in place is a write of the
/// updated record at its index.  The engine's methods are proved against the
/// value-level definitions of module Automaton, read off the ghost snapshot
/// Snapshot() of the six arrays.
module Engine {
  import opened Cube
  import opened Automaton

  /// One face of the cube: its position, its size, its row-major cells and
  /// the number of steps between two of its updates.
  class Face {
    const position: FacePosition
    const size: nat
    const cells: array<Cell>
    const updateRate: int

    /// The cells are the size * size cells of this face in row-major order.
    ghost predicate Valid()
      reads cells
    {
      FaceLayout(cells[..], position, size)
    }

    /// The cells of a fresh face, pushed row by row (initializeCells); the
    /// initial liveness of each cell is the supplied draw for its position.
    static method InitializeCells(position: FacePosition, size: nat, alive: (FacePosition, int, int) -> bool)
      returns (cells: seq<Cell>)
      ensures FaceLayout(cells, position, size)
      ensures forall k :: 0 <= k < |cells| ==> NewCell(cells[k], alive)
    {
      cells := [];
      for i := 0 to size
        invariant |cells| == i * size
        invariant forall k :: 0 <= k < |cells| ==> WellPlaced(cells[k], position, size, k) && NewCell(cells[k], alive)
      {
        for j := 0 to size
          invariant |cells| == i * size + j
          invariant forall k :: 0 <= k < |cells| ==> WellPlaced(cells[k], position, size, k) && NewCell(cells[k], alive)
        {
          cells := cells + [Cell(position, (i, j), alive(position, i, j), None, false)];
        }
        assert i * size + size == (i + 1) * size;
      }
    }

    constructor (position: FacePosition, size: nat, updateRate: int, alive: (FacePosition, int, int) -> bool)
      ensures this.position == position && this.size == size && this.updateRate == updateRate
      ensures Valid() && fresh(cells)
      ensures forall k :: 0 <= k < cells.Length ==> NewCell(cells[k], alive)
    {
      this.position := position;
      this.size := size;
      var cs := InitializeCells(position, size, alive);
      this.cells := new Cell[|cs|](k requires 0 <= k < |cs| => cs[k]);
      this.updateRate := updateRate;
      new;
      assert cells[..] == cs;
    }

    /// The cell at (row, column) position: the cell stored in this face
    /// whose recorded face and position are this face and that position.
    function GetCell(position: (int, int)): (c: Cell)
      reads cells
      requires Valid() && 0 <= position.0 < size && 0 <= position.1 < size
      ensures c in cells[..]
      ensures c.face == this.position && c.position == position
    {
      CellAtIndex(cells[..], this.position, size, position.0, position.1);
      cells[position.0 * size + position.1]
    }
  }

  /// The first face in fs with the given position, if any (the TypeScript engine's
  /// find over the face list).
  function FindFace(fs: seq<Face>, position: FacePosition): (r: Option<Face>)
    ensures r.None? <==> forall t :: 0 <= t < |fs| ==> fs[t].position != position
    ensures r.Some? ==> exists t :: 0 <= t < |fs| && fs[t] == r.value && fs[t].position == position
                                    && forall u :: 0 <= u < t ==> fs[u].position != position
  {
    if fs == [] then None
    else if fs[0].position == position then Some(fs[0])
    else
      var r := FindFace(fs[1..], position);
      assert forall t :: 1 <= t < |fs| ==> fs[t] == fs[1..][t - 1];
      r
  }

  /// The whole cube: the six faces, the activity counter of the current step,
  /// the step counter and the frontmost face (set from outside, by the view).
  class Liquiprism {
    const size: nat
    const randomUpdateRate: bool
    const faces: seq<Face>
    var activity: int
    const threshold: int
    var stepCounter: int
    var frontmostFace: Face

    /// A cube of the given size: the six faces in enumeration order, each with
    /// update rate 1, or 1 plus the supplied draw from {0, 1, 2} when random
    /// update rates are asked for; the frontmost face is the first face and
    /// both counters start at 0.
    constructor (size: nat, randomUpdateRate: bool, rateDraw: FacePosition -> int,
                 alive: (FacePosition, int, int) -> bool)
      requires forall f :: 0 <= rateDraw(f) < 3
      ensures Valid() && fresh(Cells())
      ensures this.size == size && this.randomUpdateRate == randomUpdateRate
      ensures forall p :: 0 <= p < 6 ==>
                faces[p].updateRate == if randomUpdateRate then rateDraw(FaceAt(p)) + 1 else 1
      ensures frontmostFace == faces[0] && activity == 0 && stepCounter == 0
      ensures forall p, k :: 0 <= p < 6 && 0 <= k < size * size ==> NewCell(Snapshot()[p][k], alive)
      ensures Settled(Snapshot())
    {
      var facePositions := [Front, Back, Left, Right, Top, Bottom];
      this.size := size;
      this.randomUpdateRate := randomUpdateRate;
      var fs: seq<Face> := [];
      for t := 0 to 6
        invariant |fs| == t
        invariant forall p :: 0 <= p < t ==>
                    fs[p].position == FaceAt(p) && fs[p].size == size && fs[p].Valid() && fresh(fs[p].cells)
                    && fs[p].updateRate == (if randomUpdateRate then rateDraw(FaceAt(p)) + 1 else 1)
                    && forall k :: 0 <= k < fs[p].cells.Length ==> NewCell(fs[p].cells[k], alive)
        invariant forall p, q :: 0 <= p < q < t ==> fs[p].cells != fs[q].cells
      {
        var position := facePositions[t];
        var face := new Face(position, size, if randomUpdateRate then rateDraw(position) + 1 else 1, alive);
        fs := fs + [face];
      }
      this.faces := fs;
      this.activity := 0;
      this.threshold := size * size;
      this.stepCounter := 0;
      this.frontmostFace := fs[0];
    }

    /// The cell arrays of all faces.
    ghost function Cells(): set<array<Cell>>
    {
      if |faces| == 6
      then {faces[0].cells, faces[1].cells, faces[2].cells, faces[3].cells, faces[4].cells, faces[5].cells}
      else {}
    }

    /// The fixed part of the cube: six faces in the enumeration order, each of
    /// the cube's size, with an update rate from 1 to 3 and its own cell
    /// array; the threshold is size * size.
    ghost predicate Shape()
    {
      |faces| == 6 && threshold == size * size
      && (forall p :: 0 <= p < 6 ==>
            faces[p].position == FaceAt(p) && faces[p].size == size && 1 <= faces[p].updateRate <= 3)
      && (forall p, q :: 0 <= p < q < 6 ==> faces[p].cells != faces[q].cells)
    }

    /// The six faces' cells as one value.
    ghost function Snapshot(): (g: Grid)
      reads Cells()
      requires Shape()
      ensures |g| == 6 && forall p :: 0 <= p < 6 ==> g[p] == faces[p].cells[..]
    {
      [faces[0].cells[..], faces[1].cells[..], faces[2].cells[..],
       faces[3].cells[..], faces[4].cells[..], faces[5].cells[..]]
    }

    /// The snapshot is the grid whose faces are the contents of the arrays.
    lemma SnapshotIs(h: Grid)
      requires Shape() && |h| == 6 && forall q :: 0 <= q < 6 ==> faces[q].cells[..] == h[q]
      ensures Snapshot() == h
    {
    }

    /// The cube is well formed: its fixed part, the frontmost face is one of
    /// the faces, and every face's cells are laid out.
    ghost predicate Valid()
      reads this`frontmostFace, Cells()
    {
      Shape() && frontmostFace in faces && WellFormed(Snapshot(), size)
    }

    /// A face of the cube sits at the index of its position and is laid out.
    lemma FaceOf(face: Face)
      requires Valid() && face in faces
      ensures face == faces[FaceIndex(face.position)] && face.Valid() && face.size == size
    {
      var p :| 0 <= p < 6 && faces[p] == face;
      FaceAtIndex(p);
      assert FaceLayout(Snapshot()[p], FaceAt(p), size);
    }

    /// Which faces the current step updates: those whose update rate divides
    /// the step counter.
    function Processed(): (r: seq<bool>)
      reads this`stepCounter
      requires Shape()
      ensures |r| == 6 && forall p :: 0 <= p < 6 ==> (r[p] <==> stepCounter % faces[p].updateRate == 0)
    {
      [stepCounter % faces[0].updateRate == 0, stepCounter % faces[1].updateRate == 0,
       stepCounter % faces[2].updateRate == 0, stepCounter % faces[3].updateRate == 0,
       stepCounter % faces[4].updateRate == 0, stepCounter % faces[5].updateRate == 0]
    }

    /// The face with the given position: the face list holds each position
    /// once, in enumeration order, so it is the face at that index.
    function GetFace(facePosition: FacePosition): (f: Face)
      requires Shape()
      ensures f == faces[FaceIndex(facePosition)] && f.position == facePosition
    {
      var r := FindFace(faces, facePosition);
      assert faces[FaceIndex(facePosition)].position == facePosition;
      var t :| 0 <= t < 6 && faces[t] == r.value && faces[t].position == facePosition
               && forall u :: 0 <= u < t ==> faces[u].position != facePosition;
      FaceAtIndex(t);
      r.value
    }

    /// A face's cell lookup agrees with the snapshot's.
    lemma GetCellOf(face: Face, i: int, j: int)
      requires Valid() && face in faces && 0 <= i < size && 0 <= j < size
      ensures face.Valid() && face.GetCell((i, j)) == CellOf(Snapshot(), size, Loc(face.position, i, j))
    {
      FaceOf(face);
      CellAtIndex(face.cells[..], face.position, size, i, j);
    }

    /// The cell directly below the given one: the next row of the same face,
    /// or row 0 of the face across the bottom edge when the cell is in the
    /// last row.  It is the cell at the location the automaton's stochastic
    /// rule reads, which is also the neighbour found for the offset (1, 0).
    function GetBellowCellNeighbor(face: Face, cell: Cell): (c: Cell)
      reads this, Cells()
      requires Valid() && face in faces
      requires 0 <= cell.position.0 < size && 0 <= cell.position.1 < size
      ensures c == CellOf(Snapshot(), size, BelowLoc(size, face.position, cell.position.0, cell.position.1))
    {
      var (i, j) := cell.position;
      FaceOf(face);
      if i == face.size - 1 then
        var neighborFace := GetFace(FaceMap(face.position, BottomEdge));
        GetCellOf(neighborFace, 0, j);
        neighborFace.GetCell((0, j))
      else
        GetCellOf(face, i + 1, j);
        face.GetCell((i + 1, j))
    }

    /// The neighbour across the face's edges for one offset of a cell: the
    /// cell of the adjacent face reached by crossing exactly one edge, with
    /// the crossed coordinate moved to the far edge of that face; nothing when
    /// the offset stays on the face or crosses two edges.  The target face, the
    /// coordinates and the crossing count are updated in sequence, each
    /// update a new binding; the target is tracked by its position and the
    /// face is looked up once, when exactly one edge was crossed.
    function GetAdjacentFaceCellNeighbors(face: Face, cell: Cell, iOffset: int, jOffset: int): (neighbors: seq<Cell>)
      reads this, Cells()
      requires Valid() && face in faces
      requires 0 <= cell.position.0 < size && 0 <= cell.position.1 < size
      requires -1 <= iOffset <= 1 && -1 <= jOffset <= 1
      ensures var (i, j) := cell.position;
              if 0 <= i + iOffset < size && 0 <= j + jOffset < size then neighbors == []
              else neighbors == CellsAt(Snapshot(), size, OffsetNeighbour(size, face.position, i, j, iOffset, jOffset))
    {
      FaceOf(face);
      var (i, j) := cell.position;
      var ni, nj := i + iOffset, j + jOffset;
      // crossing the top or bottom edge
      var (rowFace, ni, nRowFaces) :=
        if ni < 0 then (FaceMap(face.position, TopEdge), face.size - 1, 1)
        else if ni >= face.size then (FaceMap(face.position, BottomEdge), 0, 1)
        else (face.position, ni, 0);
      // crossing the left or right edge
      var (neighborFace, nj, nNeighborFaces) :=
        if nj < 0 then (FaceMap(face.position, LeftEdge), face.size - 1, nRowFaces + 1)
        else if nj >= face.size then (FaceMap(face.position, RightEdge), 0, nRowFaces + 1)
        else (rowFace, nj, nRowFaces);
      CrossingStages(size, face.position, i, j, iOffset, jOffset, rowFace, ni, nRowFaces, neighborFace, nj, nNeighborFaces);
      if nNeighborFaces == 1 then
        var target := GetFace(neighborFace);
        GetCellOf(target, ni, nj);
        CellsAtSingle(Snapshot(), size, [Loc(neighborFace, ni, nj)], Loc(neighborFace, ni, nj));
        [target.GetCell((ni, nj))]
      else
        []
    }

    /// An offset that stays on the face yields the cell the offset lands on.
    lemma SameFaceNeighbour(face: Face, i: int, j: int, di: int, dj: int)
      requires Valid() && face in faces && 0 <= i + di < size && 0 <= j + dj < size
      ensures face.Valid()
      ensures [face.GetCell((i + di, j + dj))] == CellsAt(Snapshot(), size, OffsetNeighbour(size, face.position, i, j, di, dj))
    {
      GetCellOf(face, i + di, j + dj);
      CellsAtSameFace(Snapshot(), size, face.position, i, j, di, dj);
    }

    /// The cells one offset other than (0, 0) contributes: the same-face
    /// cell when the offset stays on the face, else what the adjacent-face
    /// lookup returns.
    function OffsetCells(face: Face, cell: Cell, iOffset: int, jOffset: int): (more: seq<Cell>)
      reads this, Cells()
      requires Valid() && face in faces
      requires 0 <= cell.position.0 < size && 0 <= cell.position.1 < size
      requires -1 <= iOffset <= 1 && -1 <= jOffset <= 1 && !(iOffset == 0 && jOffset == 0)
      ensures more == CellsAt(Snapshot(), size, OffsetNeighbour(size, face.position, cell.position.0, cell.position.1, iOffset, jOffset))
    {
      FaceOf(face);
      var (i, j) := cell.position;
      var ni, nj := i + iOffset, j + jOffset;
      if 0 <= ni < face.size && 0 <= nj < face.size then
        SameFaceNeighbour(face, i, j, iOffset, jOffset);
        [face.GetCell((ni, nj))]
      else
        GetAdjacentFaceCellNeighbors(face, cell, iOffset, jOffset)
    }

    /// The neighbours of a cell, offsets visited row offset first: the
    /// cells at the automaton's neighbour locations, in that order.
    method GetCellNeighbors(face: Face, cell: Cell) returns (neighbors: seq<Cell>)
      requires Valid() && face in faces
      requires 0 <= cell.position.0 < size && 0 <= cell.position.1 < size
      ensures neighbors == CellsAt(Snapshot(), size, Neighbours(size, face.position, cell.position.0, cell.position.1))
    {
      FaceOf(face);
      var (i, j) := cell.position;
      ghost var g, f := Snapshot(), face.position;
      neighbors := [];
      var iOffset := -1;
      while iOffset <= 1
        invariant -1 <= iOffset <= 2
        invariant neighbors == Gathered(g, size, f, i, j, iOffset, -1)
      {
        var nextRow := iOffset + 1;
        var jOffset := -1;
        while jOffset <= 1
          invariant -1 <= jOffset <= 2
          invariant neighbors == Gathered(g, size, f, i, j, iOffset, jOffset)
        {
          var next := jOffset + 1;
          if iOffset == 0 && jOffset == 0 {
            GatheredStep(g, size, f, i, j, iOffset, jOffset, next, neighbors, []);
          } else {
            var more := OffsetCells(face, cell, iOffset, jOffset);
            GatheredStep(g, size, f, i, j, iOffset, jOffset, next, neighbors, more);
            neighbors := neighbors + more;
          }
          jOffset := next;
        }
        GatheredRow(g, size, f, i, j, iOffset, nextRow);
        iOffset := nextRow;
      }
      GatheredNeighbours(g, size, f, i, j);
    }

    /// Faces are distinct objects with distinct positions, so the identity
    /// test against the frontmost face is a test of positions.
    lemma FrontmostIs(face: Face)
      requires Shape() && frontmostFace in faces && face in faces
      ensures frontmostFace == face <==> frontmostFace.position == face.position
    {
      var s :| 0 <= s < 6 && faces[s] == frontmostFace;
      var t :| 0 <= t < 6 && faces[t] == face;
      FaceAtIndex(s);
      FaceAtIndex(t);
    }

    /// The next state of cell k of a face under the rule that applies to it
    /// (the rule selection of applyRules): the stimulus rule on the frontmost
    /// face, otherwise the stochastic rule while the activity is below the
    /// threshold and the conventional rule from then on, each on the live
    /// count of the cell's neighbours.
    method NextState(face: Face, k: nat, random: (FacePosition, nat) -> bool) returns (willBeAlive: bool)
      requires Valid() && face in faces && k < size * size
      ensures willBeAlive
           == Outcome(Snapshot(), size, frontmostFace.position, FaceIndex(face.position), k, activity, random(face.position, k))
    {
      FaceOf(face);
      FrontmostIs(face);
      ghost var g, p := Snapshot(), FaceIndex(face.position);
      var cell := face.cells[k];
      var draw := random(face.position, k);
      if frontmostFace == face {
        willBeAlive := ApplyStimulusRule(cell, draw);
      } else {
        var neighbors := GetCellNeighbors(face, cell);
        var aliveNeighbors := CountAlive(neighbors);
        if activity < threshold {
          willBeAlive := ApplyStochasticRule(cell, aliveNeighbors, GetBellowCellNeighbor(face, cell), draw);
        } else {
          willBeAlive := ApplyConventionalRule(cell, aliveNeighbors);
        }
      }
    }

    /// Evaluates the rules for cell k of a face (applyRules): the cell's
    /// pending state becomes its next state, its stimulated flag says whether
    /// it is being born, and a born cell is counted as activity; nothing else
    /// changes.
    method ApplyRules(face: Face, k: nat, random: (FacePosition, nat) -> bool)
      requires Valid() && face in faces && k < size * size
      modifies this`activity, face.cells
      ensures Valid()
      ensures var g, p := old(Snapshot()), FaceIndex(face.position);
              var c := Evaluated(g, size, frontmostFace.position, random, p, k, old(activity));
              Snapshot() == g[p := g[p][k := c]] && activity == old(activity) + (if c.stimulated then 1 else 0)
    {
      FaceOf(face);
      ghost var g, p := Snapshot(), FaceIndex(face.position);
      var willBeAlive := NextState(face, k, random);
      EvaluatedOf(g, size, frontmostFace.position, random, p, k, activity, face.position, willBeAlive);
      RecordOutcome(face, k, willBeAlive);
    }

    /// The second half of applyRules: the cell's pending state is set, its
    /// stimulated flag says whether it is being born, and a born cell is
    /// counted as activity.
    method RecordOutcome(face: Face, k: nat, willBeAlive: bool)
      requires Valid() && face in faces && k < size * size
      modifies this`activity, face.cells
      ensures Valid()
      ensures var g, p := old(Snapshot()), FaceIndex(face.position); var c := g[p][k];
              var stimulated := willBeAlive && !c.isAlive;
              Snapshot() == g[p := g[p][k := c.(willBeAlive := Some(willBeAlive), stimulated := stimulated)]]
              && activity == old(activity) + (if stimulated then 1 else 0)
    {
      FaceOf(face);
      var cell := face.cells[k];
      var stimulated := willBeAlive && !cell.isAlive;
      UpdateCell(face, k, cell.(willBeAlive := Some(willBeAlive), stimulated := stimulated));
      if stimulated {
        activity := activity + 1;
      }
    }

    /// Cells are values here, so changing fields of a cell in place is a write
    /// of the updated record at the cell's index: the snapshot changes in that
    /// one cell.
    method UpdateCell(face: Face, k: nat, c: Cell)
      requires Valid() && face in faces && k < size * size
      requires c.face == face.position && c.position == face.cells[k].position
      modifies face.cells
      ensures Valid()
      ensures var g, p := old(Snapshot()), FaceIndex(face.position); Snapshot() == g[p := g[p][k := c]]
    {
      FaceOf(face);
      ghost var g, p := Snapshot(), FaceIndex(face.position);
      face.cells[k] := c;
      forall q | 0 <= q < 6 ensures faces[q].cells[..] == g[p := g[p][k := c]][q] {
        if q != p {
          assert faces[q].cells != faces[p].cells;
        }
      }
      SnapshotIs(g[p := g[p][k := c]]);
      WriteCellWellFormed(g, size, p, k, c);
    }

    /// The body of the first loop of step for one face whose update rate
    /// divides the step counter: the rules are applied to each of its cells
    /// in row-major order, which is the compute pass over that face.
    method ApplyRulesToFace(face: Face, ghost t: nat, ghost g0: Grid, ghost gs: Grid, ghost processed: seq<bool>,
                            random: (FacePosition, nat) -> bool)
      requires Valid() && t < 6 && face == faces[t]
      requires WellFormed(g0, size) && |processed| == 6 && processed[t]
      requires gs == ComputePass(g0, size, frontmostFace.position, processed, random, t)
      requires Snapshot() == gs && activity == StimulatedBefore(gs, processed, t, 0)
      modifies this`activity, face.cells
      ensures Valid()
      ensures Snapshot() == ComputeCells(g0, gs, size, frontmostFace.position, processed, random, t, size * size)
      ensures activity == StimulatedBefore(Snapshot(), processed, t, size * size)
    {
      ghost var front := frontmostFace.position;
      FaceAtIndex(t);
      for k := 0 to face.cells.Length
        invariant Valid()
        invariant Snapshot() == ComputeCells(g0, gs, size, front, processed, random, t, k)
        invariant activity == StimulatedBefore(Snapshot(), processed, t, k)
      {
        ApplyRulesNext(face, t, k, g0, gs, processed, random);
      }
    }

    /// One iteration of the loop of ApplyRulesToFace: applyRules on cell k
    /// extends the compute pass over face t by that cell.
    method ApplyRulesNext(face: Face, ghost t: nat, k: nat, ghost g0: Grid, ghost gs: Grid, ghost processed: seq<bool>,
                          random: (FacePosition, nat) -> bool)
      requires Valid() && t < 6 && face == faces[t] && k < size * size
      requires WellFormed(g0, size) && |processed| == 6 && processed[t]
      requires gs == ComputePass(g0, size, frontmostFace.position, processed, random, t)
      requires Snapshot() == ComputeCells(g0, gs, size, frontmostFace.position, processed, random, t, k)
      requires activity == StimulatedBefore(Snapshot(), processed, t, k)
      modifies this`activity, face.cells
      ensures Valid()
      ensures Snapshot() == ComputeCells(g0, gs, size, frontmostFace.position, processed, random, t, k + 1)
      ensures activity == StimulatedBefore(Snapshot(), processed, t, k + 1)
    {
      FaceAtIndex(t);
      ghost var g, before := Snapshot(), activity;
      ApplyRules(face, k, random);
      ComputeCellsNext(g0, gs, g, Snapshot(), size, frontmostFace.position, processed, random, t, k, before);
    }

    /// The body of the second loop of step for one face whose update rate
    /// divides the step counter: each cell's pending state becomes its state
    /// and is cleared, in row-major order.
    method CommitCells(face: Face, ghost t: nat, ghost g1: Grid, ghost processed: seq<bool>)
      requires Valid() && t < 6 && face == faces[t]
      requires WellFormed(g1, size) && |processed| == 6 && processed[t]
      requires forall l :: 0 <= l < size * size ==> g1[t][l].willBeAlive.Some?
      requires CommittedUpTo(g1, Snapshot(), size, processed, t, 0)
      modifies face.cells
      ensures Valid()
      ensures CommittedUpTo(g1, Snapshot(), size, processed, t, size * size)
    {
      for k := 0 to face.cells.Length
        invariant Valid()
        invariant CommittedUpTo(g1, Snapshot(), size, processed, t, k)
      {
        var cell := face.cells[k];
        CommitNext(g1, Snapshot(), size, processed, t, k);
        UpdateCell(face, k, cell.(isAlive := cell.willBeAlive.value, willBeAlive := None));
      }
    }

    /// The first loop of step: every face whose update rate divides the step
    /// counter applies the rules to its cells, in face order.
    method ApplyRulesToFaces(ghost g0: Grid, ghost processed: seq<bool>, random: (FacePosition, nat) -> bool)
      requires Valid() && g0 == Snapshot() && processed == Processed() && activity == 0
      modifies this`activity, Cells()
      ensures Valid()
      ensures Snapshot() == ComputePass(g0, size, frontmostFace.position, processed, random, 6)
      ensures activity == StimulatedOnFaces(Snapshot(), processed, 6)
    {
      ghost var front := frontmostFace.position;
      for t := 0 to 6
        invariant Valid()
        invariant Snapshot() == ComputePass(g0, size, front, processed, random, t)
        invariant activity == StimulatedOnFaces(Snapshot(), processed, t)
      {
        var face := faces[t];
        ghost var gs := Snapshot();
        if stepCounter % face.updateRate == 0 {
          assert processed[t];
          StimulatedBeforeFace(gs, processed, t);
          ApplyRulesToFace(face, t, g0, gs, processed, random);
          StimulatedBeforeFace(Snapshot(), processed, t);
        }
      }
    }

    /// The second loop of step: the same faces commit their cells.
    method CommitFaces(ghost g1: Grid, ghost processed: seq<bool>)
      requires Valid() && g1 == Snapshot() && processed == Processed()
      requires forall q: nat, l: nat :: q < 6 && processed[q] && l < size * size ==> g1[q][l].willBeAlive.Some?
      modifies Cells()
      ensures Valid() && CommittedUpTo(g1, Snapshot(), size, processed, 6, 0)
    {
      for t := 0 to 6
        invariant Valid()
        invariant CommittedUpTo(g1, Snapshot(), size, processed, t, 0)
      {
        var face := faces[t];
        if stepCounter % face.updateRate == 0 {
          CommitCells(face, t, g1, processed);
        }
        CommitFace(g1, Snapshot(), size, processed, t);
      }
    }

    /// One generation (step): the activity counter is reset; in a first pass
    /// every face whose update rate divides the step counter evaluates the
    /// rules for each of its cells, in face order and row-major order; in a
    /// second pass the same faces commit the pending states; the step counter
    /// then advances.  The new cube is the successor of the old one for this
    /// step's faces and draws, and the activity is the number of cells born.
    method Step(random: (FacePosition, nat) -> bool)
      requires Valid()
      modifies this, Cells()
      ensures Valid() && frontmostFace == old(frontmostFace) && stepCounter == old(stepCounter) + 1
      ensures Successor(old(Snapshot()), Snapshot(), size, frontmostFace.position, old(Processed()), random)
      ensures activity == StimulatedOnFaces(Snapshot(), old(Processed()), 6)
      ensures Settled(old(Snapshot())) ==> Settled(Snapshot())
    {
      ghost var g0, processed, front := Snapshot(), Processed(), frontmostFace.position;
      activity := 0;
      ApplyRulesToFaces(g0, processed, random);
      ghost var g1: Grid := Snapshot();
      PassComputed(g0, size, front, processed, random, 6);
      CommitFaces(g1, processed);
      TwoPasses(g0, g1, Snapshot(), size, front, processed, random);
      if Settled(g0) {
        SuccessorSettled(g0, Snapshot(), size, front, processed, random);
      }
      stepCounter := stepCounter + 1;
    }
  }
}
