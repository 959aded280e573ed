/// The automaton's cells, its three update rules, and a value-level
/// description of one generation step over a snapshot of the whole cube
/// (six faces, each a row-major sequence of cells).  The engine's methods are
/// proved against these definitions.
module Automaton {
  import opened Cube

  datatype Option<T> = None | Some(value: T)

  /// A cell: its owning face, its fixed (row, column) position, whether it is
  /// alive, the pending next state (None outside a step), and whether it was
  /// born in the most recent step.
  datatype Cell = Cell(face: FacePosition, position: (int, int), isAlive: bool,
                       willBeAlive: Option<bool>, stimulated: bool)

  /// A cell as the face initialisation creates it: alive as the initial draw
  /// for its face and position says, with no pending state and not stimulated.
  predicate NewCell(c: Cell, alive: (FacePosition, int, int) -> bool)
  {
    c.isAlive == alive(c.face, c.position.0, c.position.1) && c.willBeAlive == None && !c.stimulated
  }

  /// The cells of the six faces, in face order, each face row-major.
  type Grid = seq<seq<Cell>>

  // ---------------------------------------------------------------------
  // Layout

  /// The row-major index of position (i, j) on a face of side n.
  function Idx(n: nat, i: int, j: int): int { i * n + j }

  /// The cell stored at index k of face f is cell (k / n, k % n) of that face.
  predicate WellPlaced(c: Cell, f: FacePosition, n: nat, k: int)
  {
    c.face == f && 0 <= c.position.0 < n && 0 <= c.position.1 < n
    && Idx(n, c.position.0, c.position.1) == k
  }

  predicate FaceLayout(cs: seq<Cell>, f: FacePosition, n: nat)
  {
    |cs| == n * n && forall k :: 0 <= k < |cs| ==> WellPlaced(cs[k], f, n, k)
  }

  predicate WellFormed(g: Grid, n: nat)
  {
    |g| == 6 && forall p :: 0 <= p < 6 ==> FaceLayout(g[p], FaceAt(p), n)
  }

  lemma IndexInRange(n: nat, i: int, j: int)
    requires 0 <= i < n && 0 <= j < n
    ensures 0 <= i * n + j < n * n
  {
    assert i * n <= (n - 1) * n by {
      MulMonotone(i, n - 1, n);
    }
  }

  lemma MulMonotone(a: int, b: int, n: nat)
    requires a <= b
    ensures a * n <= b * n
  {
  }

  /// Row-major indices are unique: index i * n + j determines i and j.
  lemma IndexUnique(n: nat, i: int, j: int, i': int, j': int)
    requires 0 <= i && 0 <= j < n && 0 <= i' && 0 <= j' < n
    requires i * n + j == i' * n + j'
    ensures i == i' && j == j'
  {
    if i < i' {
      MulMonotone(i + 1, i', n);
      assert false;
    } else if i' < i {
      MulMonotone(i' + 1, i, n);
      assert false;
    }
  }

  /// In a laid-out face, index i * n + j holds cell (i, j).
  lemma CellAtIndex(cs: seq<Cell>, f: FacePosition, n: nat, i: int, j: int)
    requires FaceLayout(cs, f, n) && 0 <= i < n && 0 <= j < n
    ensures 0 <= i * n + j < |cs| && cs[i * n + j].face == f && cs[i * n + j].position == (i, j)
  {
    IndexInRange(n, i, j);
    var c := cs[i * n + j];
    assert WellPlaced(c, f, n, i * n + j);
    IndexUnique(n, c.position.0, c.position.1, i, j);
  }

  /// The cell at a location of the snapshot: it is the cell stored on the
  /// location's face whose recorded face and position are that location.
  function CellOf(g: Grid, n: nat, loc: Loc): (c: Cell)
    requires WellFormed(g, n) && InGrid(n, loc)
    ensures c in g[FaceIndex(loc.face)]
    ensures c.face == loc.face && c.position == (loc.row, loc.col)
  {
    IndexInRange(n, loc.row, loc.col);
    var c := g[FaceIndex(loc.face)][loc.row * n + loc.col];
    IndexUnique(n, c.position.0, c.position.1, loc.row, loc.col);
    c
  }

  /// The cells at a sequence of locations.
  function CellsAt(g: Grid, n: nat, locs: seq<Loc>): (cs: seq<Cell>)
    requires WellFormed(g, n) && AllInGrid(n, locs)
    ensures |cs| == |locs|
  {
    if locs == [] then [] else CellsAt(g, n, locs[..|locs| - 1]) + [CellOf(g, n, locs[|locs| - 1])]
  }

  /// Entry t of the cells at locs is the cell at locs[t].
  lemma {:induction false} CellsAtIndex(g: Grid, n: nat, locs: seq<Loc>, t: nat)
    requires WellFormed(g, n) && AllInGrid(n, locs) && t < |locs|
    ensures InGrid(n, locs[t]) && CellsAt(g, n, locs)[t] == CellOf(g, n, locs[t])
  {
    if t < |locs| - 1 {
      CellsAtIndex(g, n, locs[..|locs| - 1], t);
    }
  }

  lemma {:induction false} CellsAtAppend(g: Grid, n: nat, a: seq<Loc>, b: seq<Loc>)
    requires WellFormed(g, n) && AllInGrid(n, a) && AllInGrid(n, b)
    ensures AllInGrid(n, a + b)
    ensures CellsAt(g, n, a + b) == CellsAt(g, n, a) + CellsAt(g, n, b)
  {
    if b == [] {
      assert a + b == a;
    } else {
      CellsAtAppend(g, n, a, b[..|b| - 1]);
      assert (a + b)[..|a + b| - 1] == a + b[..|b| - 1];
    }
  }

  /// An offset that stays on the face contributes the cell it lands on.
  lemma CellsAtSameFace(g: Grid, n: nat, f: FacePosition, i: int, j: int, di: int, dj: int)
    requires WellFormed(g, n) && 0 <= i + di < n && 0 <= j + dj < n
    ensures CellsAt(g, n, OffsetNeighbour(n, f, i, j, di, dj)) == [CellOf(g, n, Loc(f, i + di, j + dj))]
  {
    assert OffsetNeighbour(n, f, i, j, di, dj) == [Loc(f, i + di, j + dj)];
  }

  /// A single location contributes the cell there.
  lemma CellsAtSingle(g: Grid, n: nat, locs: seq<Loc>, loc: Loc)
    requires WellFormed(g, n) && InGrid(n, loc) && locs == [loc]
    ensures CellsAt(g, n, locs) == [CellOf(g, n, loc)]
  {
    assert locs[..0] == [];
  }

  /// The cells gathered before offset (di, dj), offsets visited row offset
  /// first and column offset second, each from -1 to 1: the cells at the
  /// locations of the earlier rows and of the earlier offsets of row di;
  /// (di, -1) is the start of row di and (2, -1) the end of the last row.
  ghost function Gathered(g: Grid, n: nat, f: FacePosition, i: int, j: int, di: int, dj: int): seq<Cell>
    requires WellFormed(g, n) && 0 <= i < n && 0 <= j < n
    requires -1 <= di <= 2 && -1 <= dj <= 2 && (di == 2 ==> dj == -1)
  {
    CellsAt(g, n, Prefix(n, f, i, j, di) + RowPrefix(n, f, i, j, di, dj))
  }

  /// Appending the cells of more locations to the cells of a prefix, when a
  /// row of locations grows by those locations.
  lemma CellsAtSnoc(g: Grid, n: nat, prefix: seq<Loc>, row: seq<Loc>, more: seq<Loc>, whole: seq<Loc>,
                    gathered: seq<Cell>, cells: seq<Cell>)
    requires WellFormed(g, n) && AllInGrid(n, prefix + row) && AllInGrid(n, more) && whole == row + more
    requires gathered == CellsAt(g, n, prefix + row) && cells == CellsAt(g, n, more)
    ensures AllInGrid(n, prefix + whole) && gathered + cells == CellsAt(g, n, prefix + whole)
  {
    AppendAssociates(prefix, row, more);
    CellsAtAppend(g, n, prefix + row, more);
  }

  lemma AppendAssociates<T>(a: seq<T>, b: seq<T>, c: seq<T>)
    ensures a + (b + c) == (a + b) + c
  {
  }

  /// One more column offset: its contribution is appended.
  lemma GatheredStep(g: Grid, n: nat, f: FacePosition, i: int, j: int, di: int, dj: int, next: int,
                     gathered: seq<Cell>, more: seq<Cell>)
    requires WellFormed(g, n) && 0 <= i < n && 0 <= j < n && -1 <= di <= 1 && -1 <= dj <= 1 && next == dj + 1
    requires gathered == Gathered(g, n, f, i, j, di, dj)
    requires !(di == 0 && dj == 0) ==> more == CellsAt(g, n, OffsetNeighbour(n, f, i, j, di, dj))
    ensures Gathered(g, n, f, i, j, di, next) == if di == 0 && dj == 0 then gathered else gathered + more
  {
    var prefix, row := Prefix(n, f, i, j, di), RowPrefix(n, f, i, j, di, dj);
    var locs: seq<Loc> := if di == 0 && dj == 0 then [] else OffsetNeighbour(n, f, i, j, di, dj);
    RowPrefixStep(n, f, i, j, di, dj, next);
    var cells := if di == 0 && dj == 0 then [] else more;
    assert cells == CellsAt(g, n, locs);
    CellsAtSnoc(g, n, prefix, row, locs, RowPrefix(n, f, i, j, di, next), gathered, cells);
    if di == 0 && dj == 0 {
      assert gathered + [] == gathered;
    }
  }

  /// The end of a row of offsets is the start of the next row.
  lemma GatheredRow(g: Grid, n: nat, f: FacePosition, i: int, j: int, di: int, next: int)
    requires WellFormed(g, n) && 0 <= i < n && 0 <= j < n && -1 <= di <= 1 && next == di + 1
    ensures Gathered(g, n, f, i, j, next, -1) == Gathered(g, n, f, i, j, di, 2)
  {
    var prefix := Prefix(n, f, i, j, next);
    assert prefix + RowPrefix(n, f, i, j, next, -1) == prefix;
    PrefixStep(n, f, i, j, di, next);
  }

  /// Gathering all nine offsets yields the cells at the neighbour locations.
  lemma GatheredNeighbours(g: Grid, n: nat, f: FacePosition, i: int, j: int)
    requires WellFormed(g, n) && 0 <= i < n && 0 <= j < n
    ensures Gathered(g, n, f, i, j, 2, -1) == CellsAt(g, n, Neighbours(n, f, i, j))
  {
    var all := Prefix(n, f, i, j, 2);
    assert all + RowPrefix(n, f, i, j, 2, -1) == all;
  }

  /// The number of live cells in a sequence (the neighbour filter's length).
  function CountAlive(cs: seq<Cell>): (r: nat)
    ensures r <= |cs|
  {
    if cs == [] then 0 else CountAlive(cs[..|cs| - 1]) + (if cs[|cs| - 1].isAlive then 1 else 0)
  }

  // ---------------------------------------------------------------------
  // The three rules

  /// Survival on 2 or 3 live neighbours, birth on 4 or more.
  function ApplyConventionalRule(cell: Cell, aliveNeighbors: int): (r: bool)
    ensures cell.isAlive ==> (r <==> aliveNeighbors == 2 || aliveNeighbors == 3)
    ensures !cell.isAlive ==> (r <==> aliveNeighbors >= 4)
  {
    if cell.isAlive then aliveNeighbors == 2 || aliveNeighbors == 3 else aliveNeighbors >= 4
  }

  /// Same survival condition as the conventional rule; a dead cell is born
  /// only when the cell below it is alive and the random draw succeeds.
  function ApplyStochasticRule(cell: Cell, aliveNeighbors: int, below: Cell, draw: bool): (r: bool)
    ensures cell.isAlive ==> r == ApplyConventionalRule(cell, aliveNeighbors)
    ensures r && !cell.isAlive ==> below.isAlive
  {
    if cell.isAlive then aliveNeighbors == 2 || aliveNeighbors == 3 else below.isAlive && draw
  }

  /// A live cell stays alive; a dead one is born when the random draw succeeds.
  function ApplyStimulusRule(cell: Cell, draw: bool): (r: bool)
    ensures cell.isAlive ==> r
  {
    cell.isAlive || draw
  }

  /// The number of live neighbours of cell k of face p.
  function LiveNeighbours(g: Grid, n: nat, p: nat, k: nat): (r: nat)
    requires WellFormed(g, n) && p < 6 && k < n * n
    ensures r <= 8
  {
    var (i, j) := g[p][k].position;
    NeighboursInGrid(n, FaceAt(p), i, j);
    CountAlive(CellsAt(g, n, Neighbours(n, FaceAt(p), i, j)))
  }

  /// The cell directly below cell k of face p.
  function BelowCell(g: Grid, n: nat, p: nat, k: nat): (c: Cell)
    requires WellFormed(g, n) && p < 6 && k < n * n
    ensures var (i, j) := g[p][k].position;
            c.position.1 == j
            && (i < n - 1 ==> c in g[p] && c.face == FaceAt(p) && c.position.0 == i + 1)
            && (i == n - 1 ==> c in g[FaceIndex(FaceMap(FaceAt(p), BottomEdge))]
                               && c.face == FaceMap(FaceAt(p), BottomEdge) && c.position.0 == 0)
  {
    var (i, j) := g[p][k].position;
    CellOf(g, n, BelowLoc(n, FaceAt(p), i, j))
  }

  /// The rule evaluation for cell k of face p of the snapshot g, with the given
  /// activity at the moment of evaluation: the stimulus rule on the frontmost
  /// face, otherwise the stochastic rule while activity is below n * n and the
  /// conventional rule from then on.
  function Outcome(g: Grid, n: nat, front: FacePosition, p: nat, k: nat, activity: int, draw: bool): (w: bool)
    requires WellFormed(g, n) && p < 6 && k < n * n
    ensures FaceAt(p) == front && g[p][k].isAlive ==> w
    ensures FaceAt(p) != front && g[p][k].isAlive ==> (w <==> LiveNeighbours(g, n, p, k) in {2, 3})
    ensures FaceAt(p) != front && !g[p][k].isAlive && w ==>
              (activity < n * n && BelowCell(g, n, p, k).isAlive) || LiveNeighbours(g, n, p, k) >= 4
  {
    var c := g[p][k];
    if FaceAt(p) == front then ApplyStimulusRule(c, draw)
    else if activity < n * n then ApplyStochasticRule(c, LiveNeighbours(g, n, p, k), BelowCell(g, n, p, k), draw)
    else ApplyConventionalRule(c, LiveNeighbours(g, n, p, k))
  }

  /// What the rule selection promises about a single evaluation.
  lemma OutcomeRules(g: Grid, n: nat, front: FacePosition, p: nat, k: nat, activity: int, draw: bool)
    requires WellFormed(g, n) && p < 6 && k < n * n
    ensures var c, live, w := g[p][k], LiveNeighbours(g, n, p, k), Outcome(g, n, front, p, k, activity, draw);
            (FaceAt(p) == front ==> (c.isAlive ==> w))
            && (FaceAt(p) != front && c.isAlive ==> (w <==> live == 2 || live == 3))
            && (FaceAt(p) != front && !c.isAlive && activity >= n * n ==> (w <==> live >= 4))
            && (FaceAt(p) != front && !c.isAlive && activity < n * n && w ==> BelowCell(g, n, p, k).isAlive)
  {
  }

  /// Unlike the Game of Life, a dead cell with exactly three live neighbours
  /// stays dead under the conventional rule.
  lemma ConventionalBirthNeedsFour(cell: Cell)
    requires !cell.isAlive
    ensures !ApplyConventionalRule(cell, 3) && ApplyConventionalRule(cell, 4)
  {
  }

  // ---------------------------------------------------------------------
  // Snapshot comparison

  /// g and h have the same shape and agree on every cell's face and position.
  predicate SameLayout(g: Grid, h: Grid)
  {
    |g| == |h| && (forall p :: 0 <= p < |g| ==> |g[p]| == |h[p]|)
    && forall p, k :: 0 <= p < |g| && 0 <= k < |g[p]| ==>
         g[p][k].face == h[p][k].face && g[p][k].position == h[p][k].position
  }

  /// g and h moreover agree on every cell's liveness: everything a rule
  /// evaluation reads.
  predicate SameLiveness(g: Grid, h: Grid)
  {
    SameLayout(g, h)
    && forall p, k :: 0 <= p < |g| && 0 <= k < |g[p]| ==> g[p][k].isAlive == h[p][k].isAlive
  }

  lemma {:induction false} CountAliveSame(cs: seq<Cell>, ds: seq<Cell>)
    requires |cs| == |ds| && forall t :: 0 <= t < |cs| ==> cs[t].isAlive == ds[t].isAlive
    ensures CountAlive(cs) == CountAlive(ds)
  {
    if cs != [] {
      CountAliveSame(cs[..|cs| - 1], ds[..|ds| - 1]);
    }
  }

  lemma SameLayoutWellFormed(g: Grid, h: Grid, n: nat)
    requires WellFormed(g, n) && SameLayout(g, h)
    ensures WellFormed(h, n)
  {
    forall p | 0 <= p < 6 ensures FaceLayout(h[p], FaceAt(p), n) {
      forall k | 0 <= k < |h[p]| ensures WellPlaced(h[p][k], FaceAt(p), n, k) {
        assert WellPlaced(g[p][k], FaceAt(p), n, k);
      }
    }
  }

  /// Writing a cell with the same face and position keeps the layout.
  lemma WriteCellWellFormed(g: Grid, n: nat, p: nat, k: nat, c: Cell)
    requires WellFormed(g, n) && p < 6 && k < n * n
    requires c.face == g[p][k].face && c.position == g[p][k].position
    ensures WellFormed(g[p := g[p][k := c]], n)
  {
    SameLayoutWellFormed(g, g[p := g[p][k := c]], n);
  }

  lemma CountAliveAtSame(g: Grid, h: Grid, n: nat, locs: seq<Loc>)
    requires WellFormed(g, n) && WellFormed(h, n) && SameLiveness(g, h) && AllInGrid(n, locs)
    ensures CountAlive(CellsAt(g, n, locs)) == CountAlive(CellsAt(h, n, locs))
  {
    var cs, ds := CellsAt(g, n, locs), CellsAt(h, n, locs);
    forall t | 0 <= t < |cs| ensures cs[t].isAlive == ds[t].isAlive {
      CellsAtIndex(g, n, locs, t);
      CellsAtIndex(h, n, locs, t);
      IndexInRange(n, locs[t].row, locs[t].col);
    }
    CountAliveSame(cs, ds);
  }

  lemma LiveNeighboursSame(g: Grid, h: Grid, n: nat, p: nat, k: nat)
    requires WellFormed(g, n) && SameLiveness(g, h) && p < 6 && k < n * n
    ensures WellFormed(h, n)
    ensures LiveNeighbours(g, n, p, k) == LiveNeighbours(h, n, p, k)
  {
    SameLayoutWellFormed(g, h, n);
    var (i, j) := g[p][k].position;
    NeighboursInGrid(n, FaceAt(p), i, j);
    CountAliveAtSame(g, h, n, Neighbours(n, FaceAt(p), i, j));
  }

  lemma BelowCellSame(g: Grid, h: Grid, n: nat, p: nat, k: nat)
    requires WellFormed(g, n) && SameLiveness(g, h) && p < 6 && k < n * n
    ensures WellFormed(h, n)
    ensures BelowCell(g, n, p, k).isAlive == BelowCell(h, n, p, k).isAlive
  {
    SameLayoutWellFormed(g, h, n);
    var (i, j) := g[p][k].position;
    var b := BelowLoc(n, FaceAt(p), i, j);
    IndexInRange(n, b.row, b.col);
  }

  /// A rule evaluation reads only faces, positions and liveness.
  lemma OutcomeSame(g: Grid, h: Grid, n: nat, front: FacePosition, p: nat, k: nat, activity: int, draw: bool)
    requires WellFormed(g, n) && SameLiveness(g, h) && p < 6 && k < n * n
    ensures WellFormed(h, n)
    ensures Outcome(g, n, front, p, k, activity, draw) == Outcome(h, n, front, p, k, activity, draw)
  {
    LiveNeighboursSame(g, h, n, p, k);
    BelowCellSame(g, h, n, p, k);
    var c, d, live := g[p][k], h[p][k], LiveNeighbours(g, n, p, k);
    assert c.isAlive == d.isAlive;
    if FaceAt(p) == front {
    } else if activity < n * n {
      assert ApplyStochasticRule(c, live, BelowCell(g, n, p, k), draw)
          == ApplyStochasticRule(d, live, BelowCell(h, n, p, k), draw);
    } else {
      assert ApplyConventionalRule(c, live) == ApplyConventionalRule(d, live);
    }
  }

  // ---------------------------------------------------------------------
  // Evaluation order and the activity counter

  /// Cell (q, l) is evaluated before cell (p, k): faces in their fixed order,
  /// cells row-major within a face.
  predicate Before(q: int, l: int, p: int, k: int)
  {
    q < p || (q == p && l < k)
  }

  /// The number of stimulated cells in a sequence.
  function CountStimulated(cs: seq<Cell>): (r: nat)
    ensures r <= |cs|
  {
    if cs == [] then 0 else CountStimulated(cs[..|cs| - 1]) + (if cs[|cs| - 1].stimulated then 1 else 0)
  }

  /// The number of stimulated cells on the processed faces among the first p faces.
  function StimulatedOnFaces(g: Grid, processed: seq<bool>, p: nat): nat
    requires p <= |g| && p <= |processed|
  {
    if p == 0 then 0
    else StimulatedOnFaces(g, processed, p - 1) + (if processed[p - 1] then CountStimulated(g[p - 1]) else 0)
  }

  /// The number of stimulated cells evaluated before cell (p, k): the value
  /// of the live activity counter when that cell is evaluated.
  function StimulatedBefore(g: Grid, processed: seq<bool>, p: nat, k: nat): (a: nat)
    requires p < |g| && p < |processed| && k <= |g[p]|
    ensures StimulatedOnFaces(g, processed, p) <= a <= StimulatedOnFaces(g, processed, p) + k
    ensures !processed[p] ==> a == StimulatedOnFaces(g, processed, p)
  {
    StimulatedOnFaces(g, processed, p) + (if processed[p] then CountStimulated(g[p][..k]) else 0)
  }

  /// g and h have the same shape and agree on the stimulated flag of every
  /// cell evaluated before (p, k).
  predicate FlagsAgreeBefore(g: Grid, h: Grid, p: int, k: int)
  {
    |g| == |h| && (forall q :: 0 <= q < |g| ==> |g[q]| == |h[q]|)
    && forall q, l :: 0 <= q < |g| && 0 <= l < |g[q]| && Before(q, l, p, k) ==>
         g[q][l].stimulated == h[q][l].stimulated
  }

  lemma {:induction false} CountStimulatedSame(cs: seq<Cell>, ds: seq<Cell>)
    requires |cs| == |ds| && forall t :: 0 <= t < |cs| ==> cs[t].stimulated == ds[t].stimulated
    ensures CountStimulated(cs) == CountStimulated(ds)
  {
    if cs != [] {
      CountStimulatedSame(cs[..|cs| - 1], ds[..|ds| - 1]);
    }
  }

  lemma {:induction false} StimulatedOnFacesSame(g: Grid, h: Grid, processed: seq<bool>, p: nat)
    requires p <= |g| && p <= |processed| && FlagsAgreeBefore(g, h, p, 0)
    ensures StimulatedOnFaces(g, processed, p) == StimulatedOnFaces(h, processed, p)
  {
    if p > 0 {
      StimulatedOnFacesSame(g, h, processed, p - 1);
      var cs, ds := g[p - 1], h[p - 1];
      forall t | 0 <= t < |cs| ensures cs[t].stimulated == ds[t].stimulated {
        assert Before(p - 1, t, p, 0);
      }
      CountStimulatedSame(cs, ds);
    }
  }

  /// The activity seen by a cell depends only on the cells evaluated before it.
  lemma StimulatedBeforeSame(g: Grid, h: Grid, processed: seq<bool>, p: nat, k: nat)
    requires p < |g| && p < |processed| && k <= |g[p]| && FlagsAgreeBefore(g, h, p, k)
    ensures StimulatedBefore(g, processed, p, k) == StimulatedBefore(h, processed, p, k)
  {
    StimulatedOnFacesSame(g, h, processed, p);
    forall t | 0 <= t < k ensures g[p][..k][t].stimulated == h[p][..k][t].stimulated {
      assert Before(p, t, p, k);
    }
    CountStimulatedSame(g[p][..k], h[p][..k]);
  }

  /// Evaluating one more cell raises the activity by one exactly when that
  /// cell is stimulated on a processed face.
  lemma StimulatedBeforeNext(g: Grid, processed: seq<bool>, p: nat, k: nat)
    requires p < |g| && p < |processed| && k < |g[p]|
    ensures StimulatedBefore(g, processed, p, k + 1)
         == StimulatedBefore(g, processed, p, k) + (if processed[p] && g[p][k].stimulated then 1 else 0)
  {
    assert g[p][..k + 1][..k] == g[p][..k];
  }

  /// Starting and finishing a face.
  lemma StimulatedBeforeFace(g: Grid, processed: seq<bool>, p: nat)
    requires p < |g| && p < |processed|
    ensures StimulatedBefore(g, processed, p, 0) == StimulatedOnFaces(g, processed, p)
    ensures StimulatedBefore(g, processed, p, |g[p]|) == StimulatedOnFaces(g, processed, p + 1)
  {
    assert g[p][..|g[p]|] == g[p];
  }

  lemma {:induction false} CountStimulatedPrefix(cs: seq<Cell>, k: nat, k': nat)
    requires k <= k' <= |cs|
    ensures CountStimulated(cs[..k]) <= CountStimulated(cs[..k'])
    decreases k' - k
  {
    if k < k' {
      CountStimulatedPrefix(cs, k, k' - 1);
      assert cs[..k'][..k' - 1] == cs[..k' - 1];
    }
  }

  lemma {:induction false} StimulatedOnFacesMonotone(g: Grid, processed: seq<bool>, p: nat, p': nat)
    requires p <= p' <= |g| && p' <= |processed|
    ensures StimulatedOnFaces(g, processed, p) <= StimulatedOnFaces(g, processed, p')
    decreases p' - p
  {
    if p < p' {
      StimulatedOnFacesMonotone(g, processed, p, p' - 1);
    }
  }

  /// The activity counter never decreases during the compute pass: a cell
  /// evaluated later sees at least the activity an earlier one saw, and
  /// neither sees more than the final count.
  lemma ActivityMonotone(g: Grid, processed: seq<bool>, q: nat, l: nat, p: nat, k: nat)
    requires |g| == |processed| && p < |g| && k <= |g[p]| && q < |g| && l <= |g[q]|
    requires Before(q, l, p, k) || (q, l) == (p, k)
    ensures StimulatedBefore(g, processed, q, l) <= StimulatedBefore(g, processed, p, k)
    ensures StimulatedBefore(g, processed, p, k) <= StimulatedOnFaces(g, processed, |g|)
  {
    StimulatedBeforeFace(g, processed, p);
    CountStimulatedPrefix(g[p], k, |g[p]|);
    StimulatedOnFacesMonotone(g, processed, p + 1, |g|);
    if q < p {
      StimulatedBeforeFace(g, processed, q);
      CountStimulatedPrefix(g[q], l, |g[q]|);
      StimulatedOnFacesMonotone(g, processed, q + 1, p);
    } else {
      CountStimulatedPrefix(g[p], l, k);
    }
  }

  // ---------------------------------------------------------------------
  // One generation

  /// Cell (p, k) after the compute pass, evaluated when the activity counter
  /// held the given value: the pending state holds the rule's outcome and the
  /// stimulated flag says whether the cell is being born.
  function Evaluated(g0: Grid, n: nat, front: FacePosition, random: (FacePosition, nat) -> bool,
                     p: nat, k: nat, activity: int): (e: Cell)
    requires WellFormed(g0, n) && p < 6 && k < n * n
    ensures e.face == g0[p][k].face && e.position == g0[p][k].position && e.isAlive == g0[p][k].isAlive
    ensures e.willBeAlive == Some(Outcome(g0, n, front, p, k, activity, random(FaceAt(p), k)))
    ensures e.stimulated <==> !e.isAlive && e.willBeAlive.value
  {
    var c := g0[p][k];
    var w := Outcome(g0, n, front, p, k, activity, random(FaceAt(p), k));
    c.(willBeAlive := Some(w), stimulated := w && !c.isAlive)
  }

  /// The evaluated cell in terms of the outcome drawn for it.
  lemma EvaluatedOf(g0: Grid, n: nat, front: FacePosition, random: (FacePosition, nat) -> bool,
                    p: nat, k: nat, activity: int, position: FacePosition, w: bool)
    requires WellFormed(g0, n) && p < 6 && k < n * n && position == FaceAt(p)
    requires w == Outcome(g0, n, front, p, k, activity, random(position, k))
    ensures Evaluated(g0, n, front, random, p, k, activity)
         == g0[p][k].(willBeAlive := Some(w), stimulated := w && !g0[p][k].isAlive)
  {
  }

  /// Evaluating a cell of a snapshot that has the layout and liveness of g0
  /// gives the same cell as evaluating it in g0.
  lemma EvaluatedSame(g0: Grid, g: Grid, n: nat, front: FacePosition, random: (FacePosition, nat) -> bool,
                      p: nat, k: nat, activity: int)
    requires WellFormed(g0, n) && SameLiveness(g0, g) && p < 6 && k < n * n
    ensures WellFormed(g, n)
    ensures Evaluated(g, n, front, random, p, k, activity) == Evaluated(g0, n, front, random, p, k, activity)
  {
    OutcomeSame(g0, g, n, front, p, k, activity, random(FaceAt(p), k));
  }

  /// The compute pass has evaluated exactly the processed cells before (p, k),
  /// each with the number of stimulated cells evaluated before it as activity.
  predicate ComputedUpTo(g0: Grid, g: Grid, n: nat, front: FacePosition, processed: seq<bool>,
                         random: (FacePosition, nat) -> bool, p: int, k: int)
    requires WellFormed(g0, n) && |processed| == 6
  {
    |g| == 6 && (forall q :: 0 <= q < 6 ==> |g[q]| == n * n)
    && forall q, l {:trigger g[q][l]} :: 0 <= q < 6 && 0 <= l < n * n ==>
         g[q][l] == if processed[q] && Before(q, l, p, k)
                    then Evaluated(g0, n, front, random, q, l, StimulatedBefore(g, processed, q, l))
                    else g0[q][l]
  }

  /// The commit pass: the pending state becomes the state and is cleared.
  function Committed(c: Cell): (d: Cell)
    ensures d.face == c.face && d.position == c.position && d.stimulated == c.stimulated
    ensures d.willBeAlive.None?
    ensures c.willBeAlive.Some? ==> d.isAlive == c.willBeAlive.value
    ensures c.willBeAlive.None? ==> d.isAlive == c.isAlive
  {
    c.(isAlive := if c.willBeAlive.Some? then c.willBeAlive.value else c.isAlive, willBeAlive := None)
  }

  /// The commit pass has committed exactly the processed cells before (p, k).
  predicate CommittedUpTo(g1: Grid, g: Grid, n: nat, processed: seq<bool>, p: int, k: int)
    requires |g1| == 6 && |processed| == 6
  {
    |g| == 6 && (forall q :: 0 <= q < 6 ==> |g[q]| == |g1[q]|)
    && forall q, l {:trigger g[q][l]} :: 0 <= q < 6 && 0 <= l < |g1[q]| ==>
         g[q][l] == if processed[q] && Before(q, l, p, k) then Committed(g1[q][l]) else g1[q][l]
  }

  /// g1 is the generation after g0: faces not processed this step are
  /// unchanged; on processed faces every cell's state is the rule outcome,
  /// evaluated with the activity reached by the cells before it, its pending
  /// state is cleared and it is stimulated exactly when it was born.
  ghost predicate Successor(g0: Grid, g1: Grid, n: nat, front: FacePosition, processed: seq<bool>,
                            random: (FacePosition, nat) -> bool): (b: bool)
    requires WellFormed(g0, n) && |processed| == 6
    ensures b ==> SameLayout(g0, g1)
  {
    |g1| == 6 && (forall q :: 0 <= q < 6 ==> |g1[q]| == n * n)
    && forall q, l {:trigger g1[q][l]} :: 0 <= q < 6 && 0 <= l < n * n ==>
         g1[q][l] == if processed[q]
                     then Committed(Evaluated(g0, n, front, random, q, l, StimulatedBefore(g1, processed, q, l)))
                     else g0[q][l]
  }

  /// What a successor promises cell by cell.
  lemma SuccessorCells(g0: Grid, g1: Grid, n: nat, front: FacePosition, processed: seq<bool>,
                       random: (FacePosition, nat) -> bool, q: nat, l: nat)
    requires WellFormed(g0, n) && |processed| == 6 && Successor(g0, g1, n, front, processed, random)
    requires q < 6 && l < n * n
    ensures g1[q][l].face == g0[q][l].face && g1[q][l].position == g0[q][l].position
    ensures processed[q] ==> g1[q][l].willBeAlive == None
    ensures processed[q] ==> (g1[q][l].stimulated <==> g1[q][l].isAlive && !g0[q][l].isAlive)
    ensures processed[q] ==>
              g1[q][l].isAlive == Outcome(g0, n, front, q, l, StimulatedBefore(g1, processed, q, l), random(FaceAt(q), l))
    ensures !processed[q] ==> g1[q][l] == g0[q][l]
  {
  }

  /// Between two steps no cell has a pending state.
  predicate Settled(g: Grid)
  {
    forall q, l :: 0 <= q < |g| && 0 <= l < |g[q]| ==> g[q][l].willBeAlive.None?
  }

  /// A step starting from a settled generation leaves a settled generation:
  /// processed faces clear every pending state and the others keep theirs.
  lemma {:induction false} SuccessorSettled(g0: Grid, g1: Grid, n: nat, front: FacePosition, processed: seq<bool>,
                                            random: (FacePosition, nat) -> bool)
    requires WellFormed(g0, n) && |processed| == 6 && Successor(g0, g1, n, front, processed, random)
    requires Settled(g0)
    ensures Settled(g1)
  {
    forall q, l | 0 <= q < |g1| && 0 <= l < |g1[q]|
      ensures g1[q][l].willBeAlive.None?
    {
      SuccessorCells(g0, g1, n, front, processed, random, q, l);
    }
  }

  // ---------------------------------------------------------------------
  // The two passes of a step

  /// During the compute pass the snapshot keeps the layout and liveness of
  /// the previous generation: rules always read the pre-step generation.
  lemma ComputedLiveness(g0: Grid, g: Grid, n: nat, front: FacePosition, processed: seq<bool>,
                         random: (FacePosition, nat) -> bool, p: int, k: int)
    requires WellFormed(g0, n) && |processed| == 6
    requires ComputedUpTo(g0, g, n, front, processed, random, p, k)
    ensures SameLiveness(g0, g) && WellFormed(g, n)
  {
    assert SameLayout(g0, g);
    SameLayoutWellFormed(g0, g, n);
  }

  /// Evaluating the next cell extends the compute pass by one cell.
  lemma ComputeNext(g0: Grid, g: Grid, n: nat, front: FacePosition, processed: seq<bool>,
                    random: (FacePosition, nat) -> bool, p: nat, k: nat)
    requires WellFormed(g0, n) && |processed| == 6 && p < 6 && k < n * n && processed[p]
    requires ComputedUpTo(g0, g, n, front, processed, random, p, k)
    ensures var c := Evaluated(g0, n, front, random, p, k, StimulatedBefore(g, processed, p, k));
            var g' := g[p := g[p][k := c]];
            ComputedUpTo(g0, g', n, front, processed, random, p, k + 1)
            && StimulatedBefore(g', processed, p, k + 1)
               == StimulatedBefore(g, processed, p, k) + (if c.stimulated then 1 else 0)
  {
    var c := Evaluated(g0, n, front, random, p, k, StimulatedBefore(g, processed, p, k));
    var g' := g[p := g[p][k := c]];
    forall q, l | 0 <= q < 6 && 0 <= l < n * n
      ensures g'[q][l] == if processed[q] && Before(q, l, p, k + 1)
                          then Evaluated(g0, n, front, random, q, l, StimulatedBefore(g', processed, q, l))
                          else g0[q][l]
    {
      if processed[q] && Before(q, l, p, k + 1) {
        assert FlagsAgreeBefore(g', g, q, l);
        StimulatedBeforeSame(g', g, processed, q, l);
      }
    }
    assert FlagsAgreeBefore(g', g, p, k);
    StimulatedBeforeSame(g', g, processed, p, k);
    StimulatedBeforeNext(g', processed, p, k);
  }

  /// The end of a face (or a face that is skipped) moves the compute pass to
  /// the next face.
  lemma ComputeFace(g0: Grid, g: Grid, n: nat, front: FacePosition, processed: seq<bool>,
                    random: (FacePosition, nat) -> bool, p: nat)
    requires WellFormed(g0, n) && |processed| == 6 && p < 6
    requires ComputedUpTo(g0, g, n, front, processed, random, p, if processed[p] then n * n else 0)
    ensures ComputedUpTo(g0, g, n, front, processed, random, p + 1, 0)
    ensures processed[p] ==> StimulatedBefore(g, processed, p, n * n) == StimulatedOnFaces(g, processed, p + 1)
    ensures !processed[p] ==> StimulatedOnFaces(g, processed, p) == StimulatedOnFaces(g, processed, p + 1)
  {
    StimulatedBeforeFace(g, processed, p);
  }

  /// The compute pass over cells 0 .. k - 1 of face p, in row-major order,
  /// starting from g: each cell is evaluated with the number of cells born
  /// before it as activity.
  function ComputeCells(g0: Grid, g: Grid, n: nat, front: FacePosition, processed: seq<bool>,
                        random: (FacePosition, nat) -> bool, p: nat, k: nat): (h: Grid)
    requires WellFormed(g0, n) && |processed| == 6 && p < 6 && k <= n * n
    requires |g| == 6 && forall q :: 0 <= q < 6 ==> |g[q]| == n * n
    ensures |h| == 6 && forall q :: 0 <= q < 6 ==> |h[q]| == n * n
    decreases k
  {
    if k == 0 then g
    else
      var h := ComputeCells(g0, g, n, front, processed, random, p, k - 1);
      h[p := h[p][k - 1 := Evaluated(g0, n, front, random, p, k - 1, StimulatedBefore(h, processed, p, k - 1))]]
  }

  /// The compute pass over faces 0 .. p - 1: a processed face has all its
  /// cells evaluated, the others are skipped.
  function ComputePass(g0: Grid, n: nat, front: FacePosition, processed: seq<bool>,
                       random: (FacePosition, nat) -> bool, p: nat): (g: Grid)
    requires WellFormed(g0, n) && |processed| == 6 && p <= 6
    ensures |g| == 6 && forall q :: 0 <= q < 6 ==> |g[q]| == n * n
  {
    if p == 0 then g0
    else
      var g := ComputePass(g0, n, front, processed, random, p - 1);
      if processed[p - 1] then ComputeCells(g0, g, n, front, processed, random, p - 1, n * n) else g
  }

  /// Computing cells of a processed face extends the compute pass cell by cell.
  lemma {:induction false} CellsComputed(g0: Grid, g: Grid, n: nat, front: FacePosition, processed: seq<bool>,
                                         random: (FacePosition, nat) -> bool, p: nat, k: nat)
    requires WellFormed(g0, n) && |processed| == 6 && p < 6 && k <= n * n && processed[p]
    requires ComputedUpTo(g0, g, n, front, processed, random, p, 0)
    ensures ComputedUpTo(g0, ComputeCells(g0, g, n, front, processed, random, p, k), n, front, processed, random, p, k)
    decreases k
  {
    if k > 0 {
      CellsComputed(g0, g, n, front, processed, random, p, k - 1);
      ComputeNext(g0, ComputeCells(g0, g, n, front, processed, random, p, k - 1), n, front, processed, random, p, k - 1);
    }
  }

  /// The compute pass over the first p faces is what ComputedUpTo describes.
  lemma {:induction false} PassComputed(g0: Grid, n: nat, front: FacePosition, processed: seq<bool>,
                                        random: (FacePosition, nat) -> bool, p: nat)
    requires WellFormed(g0, n) && |processed| == 6 && p <= 6
    ensures ComputedUpTo(g0, ComputePass(g0, n, front, processed, random, p), n, front, processed, random, p, 0)
  {
    if p > 0 {
      PassComputed(g0, n, front, processed, random, p - 1);
      PassFace(g0, ComputePass(g0, n, front, processed, random, p - 1), ComputePass(g0, n, front, processed, random, p),
               n, front, processed, random, p - 1);
    }
  }

  /// One face of the compute pass: a processed face is evaluated cell by
  /// cell, a skipped one is left as it is.
  lemma PassFace(g0: Grid, g: Grid, h: Grid, n: nat, front: FacePosition, processed: seq<bool>,
                 random: (FacePosition, nat) -> bool, p: nat)
    requires WellFormed(g0, n) && |processed| == 6 && p < 6
    requires ComputedUpTo(g0, g, n, front, processed, random, p, 0)
    requires |g| == 6 && forall q :: 0 <= q < 6 ==> |g[q]| == n * n
    requires h == if processed[p] then ComputeCells(g0, g, n, front, processed, random, p, n * n) else g
    ensures ComputedUpTo(g0, h, n, front, processed, random, p + 1, 0)
  {
    if processed[p] {
      CellsComputed(g0, g, n, front, processed, random, p, n * n);
    }
    ComputeFace(g0, h, n, front, processed, random, p);
  }

  /// Evaluating the next cell against the current snapshot, with the live
  /// activity counter, is the next step of the compute pass: the rules read
  /// only liveness, which the pass has not changed, and the counter equals
  /// the number of cells born so far.
  lemma ComputeCellsNext(g0: Grid, gs: Grid, g: Grid, h: Grid, n: nat, front: FacePosition, processed: seq<bool>,
                         random: (FacePosition, nat) -> bool, p: nat, k: nat, activity: int)
    requires WellFormed(g0, n) && |processed| == 6 && p < 6 && k < n * n && processed[p]
    requires gs == ComputePass(g0, n, front, processed, random, p)
    requires g == ComputeCells(g0, gs, n, front, processed, random, p, k)
    requires WellFormed(g, n) && activity == StimulatedBefore(g, processed, p, k)
    requires h == g[p := g[p][k := Evaluated(g, n, front, random, p, k, activity)]]
    ensures h == ComputeCells(g0, gs, n, front, processed, random, p, k + 1)
    ensures StimulatedBefore(h, processed, p, k + 1) == activity + (if h[p][k].stimulated then 1 else 0)
  {
    PassComputed(g0, n, front, processed, random, p);
    CellsComputed(g0, gs, n, front, processed, random, p, k);
    ComputedLiveness(g0, g, n, front, processed, random, p, k);
    EvaluatedSame(g0, g, n, front, random, p, k, activity);
    ComputeNext(g0, g, n, front, processed, random, p, k);
  }

  /// A processed face's cells all carry a pending state after the pass.
  lemma PassPending(g0: Grid, n: nat, front: FacePosition, processed: seq<bool>,
                    random: (FacePosition, nat) -> bool, q: nat, l: nat)
    requires WellFormed(g0, n) && |processed| == 6 && q < 6 && l < n * n && processed[q]
    ensures ComputePass(g0, n, front, processed, random, 6)[q][l].willBeAlive.Some?
  {
    PassComputed(g0, n, front, processed, random, 6);
  }

  /// Committing the next cell extends the commit pass by one cell.
  lemma CommitNext(g1: Grid, g: Grid, n: nat, processed: seq<bool>, p: nat, k: nat)
    requires |g1| == 6 && |processed| == 6 && p < 6 && k < |g1[p]| && processed[p]
    requires CommittedUpTo(g1, g, n, processed, p, k)
    ensures g[p][k] == g1[p][k]
    ensures CommittedUpTo(g1, g[p := g[p][k := Committed(g1[p][k])]], n, processed, p, k + 1)
  {
  }

  lemma CommitFace(g1: Grid, g: Grid, n: nat, processed: seq<bool>, p: nat)
    requires |g1| == 6 && |processed| == 6 && p < 6
    requires CommittedUpTo(g1, g, n, processed, p, if processed[p] then |g1[p]| else 0)
    ensures CommittedUpTo(g1, g, n, processed, p + 1, 0)
  {
  }

  lemma CommittedLayout(g1: Grid, g: Grid, n: nat, processed: seq<bool>, p: int, k: int)
    requires WellFormed(g1, n) && |processed| == 6 && CommittedUpTo(g1, g, n, processed, p, k)
    ensures WellFormed(g, n)
  {
    assert SameLayout(g1, g);
    SameLayoutWellFormed(g1, g, n);
  }

  /// A compute pass followed by a commit pass over the same faces yields the
  /// successor generation, and the activity counted during the compute pass
  /// is the number of stimulated cells in it.
  lemma TwoPasses(g0: Grid, g1: Grid, g2: Grid, n: nat, front: FacePosition, processed: seq<bool>,
                  random: (FacePosition, nat) -> bool)
    requires WellFormed(g0, n) && |processed| == 6
    requires ComputedUpTo(g0, g1, n, front, processed, random, 6, 0)
    requires CommittedUpTo(g1, g2, n, processed, 6, 0)
    ensures Successor(g0, g2, n, front, processed, random)
    ensures StimulatedOnFaces(g1, processed, 6) == StimulatedOnFaces(g2, processed, 6)
  {
    assert FlagsAgreeBefore(g1, g2, 6, 0);
    forall q, l | 0 <= q < 6 && 0 <= l < n * n
      ensures g2[q][l] == if processed[q]
                          then Committed(Evaluated(g0, n, front, random, q, l, StimulatedBefore(g2, processed, q, l)))
                          else g0[q][l]
    {
      if processed[q] {
        assert FlagsAgreeBefore(g1, g2, q, l);
        StimulatedBeforeSame(g1, g2, processed, q, l);
      }
    }
    StimulatedOnFacesSame(g1, g2, processed, 6);
  }

  /// g and h agree on every cell evaluated before (p, k).
  predicate AgreeBefore(g: Grid, h: Grid, p: int, k: int)
  {
    |g| == |h| && (forall q :: 0 <= q < |g| ==> |g[q]| == |h[q]|)
    && forall q, l :: 0 <= q < |g| && 0 <= l < |g[q]| && Before(q, l, p, k) ==> g[q][l] == h[q][l]
  }

  /// The first cell on which two successors of g0 could differ cannot differ.
  lemma SuccessorCellAgree(g0: Grid, g1: Grid, g2: Grid, n: nat, front: FacePosition,
                           processed: seq<bool>, random: (FacePosition, nat) -> bool, p: nat, k: nat)
    requires WellFormed(g0, n) && |processed| == 6
    requires Successor(g0, g1, n, front, processed, random)
    requires Successor(g0, g2, n, front, processed, random)
    requires p < 6 && k < n * n && AgreeBefore(g1, g2, p, k)
    ensures g1[p][k] == g2[p][k]
  {
    assert FlagsAgreeBefore(g1, g2, p, k);
    StimulatedBeforeSame(g1, g2, processed, p, k);
  }

  lemma AgreeBeforeNext(g: Grid, h: Grid, p: nat, k: nat)
    requires AgreeBefore(g, h, p, k) && p < |g| && k < |g[p]| && g[p][k] == h[p][k]
    ensures AgreeBefore(g, h, p, k + 1)
  {
  }

  lemma AgreeBeforeFace(g: Grid, h: Grid, p: nat)
    requires p < |g| && AgreeBefore(g, h, p, |g[p]|)
    ensures AgreeBefore(g, h, p + 1, 0)
  {
  }

  /// The step is deterministic: given the previous generation, the frontmost
  /// face, the schedule of processed faces and the random draws, there is at
  /// most one next generation.
  lemma {:induction false} SuccessorUnique(g0: Grid, g1: Grid, g2: Grid, n: nat, front: FacePosition,
                                           processed: seq<bool>, random: (FacePosition, nat) -> bool)
    requires WellFormed(g0, n) && |processed| == 6
    requires Successor(g0, g1, n, front, processed, random)
    requires Successor(g0, g2, n, front, processed, random)
    ensures g1 == g2
  {
    var p := 0;
    while p < 6
      invariant 0 <= p <= 6
      invariant AgreeBefore(g1, g2, p, 0)
    {
      var k := 0;
      while k < n * n
        invariant 0 <= k <= n * n
        invariant AgreeBefore(g1, g2, p, k)
      {
        SuccessorCellAgree(g0, g1, g2, n, front, processed, random, p, k);
        AgreeBeforeNext(g1, g2, p, k);
        k := k + 1;
      }
      AgreeBeforeFace(g1, g2, p);
      p := p + 1;
    }
    forall q | 0 <= q < 6 ensures g1[q] == g2[q] {
      assert forall l :: 0 <= l < |g1[q]| ==> Before(q, l, 6, 0);
    }
  }
}
