/// The sonifier's pure core: the per-face pitch tables built from a base
/// pitch and the intervals of a scale, and the choice of the notes to sound
/// among the stimulated cells of a face (a Fisher-Yates shuffle of a copy of
/// the candidates, cut to the note threshold).
module Sonifier {
  import opened Cube
  import opened Automaton

  datatype ScaleType = Major | Minor | Blues

  /// A note candidate: a stimulated cell and the pitch (a MIDI note number)
  /// of its position.
  type Note = (Cell, int)

  predicate StrictlyIncreasing(s: seq<int>)
  {
    forall a, b :: 0 <= a < b < |s| ==> s[a] < s[b]
  }

  const MajorScaleIntervals: seq<int> := [0, 2, 4, 5, 7, 9, 11]
  const MinorScaleIntervals: seq<int> := [0, 2, 3, 5, 7, 8, 10]
  const BluesScaleIntervals: seq<int> := [0, 3, 5, 6, 7, 10]

  /// The intervals of a scale, in semitones above its root: the minor
  /// intervals for Minor, the blues intervals for Blues and the major
  /// intervals otherwise.  Each list starts at the root, rises strictly and
  /// stays within the octave.
  function Intervals(scale: ScaleType): (r: seq<int>)
    ensures scale == Minor ==> r == MinorScaleIntervals
    ensures scale == Blues ==> r == BluesScaleIntervals
    ensures scale == Major ==> r == MajorScaleIntervals
    ensures |r| == (if scale == Blues then 6 else 7)
    ensures r[0] == 0 && r[|r| - 1] < 12 && StrictlyIncreasing(r)
  {
    if scale == Minor then MinorScaleIntervals
    else if scale == Blues then BluesScaleIntervals
    else MajorScaleIntervals
  }

  /// The base pitch of each face, in the insertion order of the table the
  /// grids are built from: the faces an octave apart, BOTTOM lowest and TOP
  /// highest.
  const BasePitches: seq<(FacePosition, int)> :=
    [(Bottom, 24), (Top, 84), (Front, 48), (Back, 60), (Left, 36), (Right, 72)]

  /// The base pitch of a face, as the table gives it.
  function BasePitch(f: FacePosition): (pitch: int)
    ensures (f, pitch) in BasePitches
    ensures 24 <= pitch <= 84 && pitch % 12 == 0
  {
    match f
    case Bottom => 24
    case Top => 84
    case Front => 48
    case Back => 60
    case Left => 36
    case Right => 72
  }

  /// Each face has exactly one entry in the base pitch table, and it is the
  /// face's base pitch.
  lemma BasePitchesTable(t: nat)
    requires t < |BasePitches|
    ensures BasePitches[t].1 == BasePitch(BasePitches[t].0)
    ensures forall u :: 0 <= u < |BasePitches| && u != t ==> BasePitches[u].0 != BasePitches[t].0
  {
  }

  /// The faces the first t entries of the base pitch table name.
  function TableFaces(t: nat): set<FacePosition>
    requires t <= |BasePitches|
  {
    if t == 0 then {} else TableFaces(t - 1) + {BasePitches[t - 1].0}
  }

  /// The table names every face.
  lemma {:induction false} TableCoversFaces()
    ensures TableFaces(|BasePitches|) == {Front, Back, Left, Right, Top, Bottom}
  {
    assert TableFaces(1) == {Bottom};
    assert TableFaces(2) == {Bottom, Top};
    assert TableFaces(3) == {Bottom, Top, Front};
    assert TableFaces(4) == {Bottom, Top, Front, Back};
    assert TableFaces(5) == {Bottom, Top, Front, Back, Left};
  }

  /// A pitch grid for a face with the given base pitch: one row per interval
  /// and one entry per interval in each row; row r is the scale whose root
  /// lies len - 1 - r semitones above the base pitch, so the top row is the
  /// highest.
  ghost predicate IsPitchGrid(grid: seq<seq<int>>, basePitch: int, intervals: seq<int>)
  {
    |grid| == |intervals|
    && forall row :: 0 <= row < |grid| ==>
         |grid[row]| == |intervals|
         && forall k :: 0 <= k < |intervals| ==> grid[row][k] == basePitch + (|intervals| - 1 - row) + intervals[k]
  }

  /// Along a row the pitches rise strictly.
  lemma PitchGridRowsRise(grid: seq<seq<int>>, basePitch: int, intervals: seq<int>, row: int, a: int, b: int)
    requires IsPitchGrid(grid, basePitch, intervals) && StrictlyIncreasing(intervals)
    requires 0 <= row < |grid| && 0 <= a < b < |intervals|
    ensures grid[row][a] < grid[row][b]
  {
  }

  /// One row down lowers every pitch by exactly one semitone.
  lemma PitchGridRowStep(grid: seq<seq<int>>, basePitch: int, intervals: seq<int>, row: int, k: int)
    requires IsPitchGrid(grid, basePitch, intervals)
    requires 0 <= row && row + 1 < |grid| && 0 <= k < |intervals|
    ensures grid[row + 1][k] == grid[row][k] - 1
  {
  }

  /// Every pitch of a grid lies between its base pitch (the first entry of
  /// the bottom row) and base + len - 1 + the last interval (the last entry
  /// of the top row).
  lemma {:induction false} PitchGridBounds(grid: seq<seq<int>>, basePitch: int, intervals: seq<int>, row: int, k: int)
    requires IsPitchGrid(grid, basePitch, intervals) && StrictlyIncreasing(intervals) && |intervals| > 0
    requires intervals[0] == 0
    requires 0 <= row < |grid| && 0 <= k < |intervals|
    ensures basePitch <= grid[row][k] <= basePitch + |intervals| - 1 + intervals[|intervals| - 1]
    ensures grid[|grid| - 1][0] == basePitch
    ensures grid[0][|intervals| - 1] == basePitch + |intervals| - 1 + intervals[|intervals| - 1]
  {
    assert intervals[0] <= intervals[k] <= intervals[|intervals| - 1] by {
      if 0 < k { assert intervals[0] < intervals[k]; }
      if k < |intervals| - 1 { assert intervals[k] < intervals[|intervals| - 1]; }
    }
  }

  /// The grids the sonifier builds hold MIDI note numbers: from 24 (the
  /// lowest note of the BOTTOM face) to 101 (the highest of the TOP face
  /// under the major or minor scale).
  lemma PitchGridsInMidiRange(grids: map<FacePosition, seq<seq<int>>>, scale: ScaleType,
                              f: FacePosition, row: int, k: int)
    requires f in grids && IsPitchGrid(grids[f], BasePitch(f), Intervals(scale))
    requires 0 <= row < |grids[f]| && 0 <= k < |Intervals(scale)|
    ensures 24 <= grids[f][row][k] <= 101 <= 127
  {
    PitchGridBounds(grids[f], BasePitch(f), Intervals(scale), row, k);
  }

  /// The Fisher-Yates swaps for indices i, i - 1, ..., 1 of s: index i is
  /// swapped with index pick(i), a draw from 0 .. i.
  function ShuffleDown<T>(s: seq<T>, pick: nat -> nat, i: int): (r: seq<T>)
    requires i < |s|
    requires forall t: nat :: pick(t) <= t
    ensures |r| == |s|
    decreases i
  {
    if i <= 0 then s
    else ShuffleDown(s[i := s[pick(i)]][pick(i) := s[i]], pick, i - 1)
  }

  /// The whole shuffle, from the last index down.
  function Shuffle<T>(s: seq<T>, pick: nat -> nat): (r: seq<T>)
    requires forall t: nat :: pick(t) <= t
    ensures |r| == |s|
  {
    ShuffleDown(s, pick, |s| - 1)
  }

  /// A swap of two entries keeps the multiset of a sequence.
  lemma SwapPermutes<T>(s: seq<T>, a: nat, b: nat)
    requires a < |s| && b < |s|
    ensures |s[a := s[b]][b := s[a]]| == |s|
    ensures multiset(s[a := s[b]][b := s[a]]) == multiset(s)
  {
    var t := s[a := s[b]];
    assert multiset(t) == multiset(s) - multiset{s[a]} + multiset{s[b]};
    assert t[b] == s[b];
    assert multiset(t[b := s[a]]) == multiset(t) - multiset{t[b]} + multiset{s[a]};
  }

  /// The shuffle is a permutation: same length, same multiset.
  lemma {:induction false} ShuffleDownPermutes<T>(s: seq<T>, pick: nat -> nat, i: int)
    requires i < |s|
    requires forall t: nat :: pick(t) <= t
    ensures |ShuffleDown(s, pick, i)| == |s|
    ensures multiset(ShuffleDown(s, pick, i)) == multiset(s)
    decreases i
  {
    if i > 0 {
      SwapPermutes(s, i, pick(i));
      ShuffleDownPermutes(s[i := s[pick(i)]][pick(i) := s[i]], pick, i - 1);
    }
  }

  lemma ShufflePermutes<T>(s: seq<T>, pick: nat -> nat)
    requires forall t: nat :: pick(t) <= t
    ensures |Shuffle(s, pick)| == |s|
    ensures multiset(Shuffle(s, pick)) == multiset(s)
  {
    ShuffleDownPermutes(s, pick, |s| - 1);
  }

  /// The first n entries of a sequence are a sub-multiset of it.
  lemma PrefixSubMultiset<T>(s: seq<T>, n: nat)
    requires n <= |s|
    ensures multiset(s[..n]) <= multiset(s)
  {
    assert s == s[..n] + s[n..];
  }

  function Min(a: int, b: int): int
  {
    if a <= b then a else b
  }

  /// The sonifier's own state: the note threshold, the scale and a pitch
  /// grid per face.
  class Sonifier {
    const noteThreshold: nat
    const scaleType: ScaleType
    var pitchGrids: map<FacePosition, seq<seq<int>>>

    /// An instance sounds at most five notes per face and builds its grids
    /// from the chosen scale.
    constructor (scaleType: ScaleType)
      ensures this.noteThreshold == 5 && this.scaleType == scaleType
      ensures pitchGrids.Keys == {Front, Back, Left, Right, Top, Bottom}
      ensures forall f :: f in pitchGrids ==> IsPitchGrid(pitchGrids[f], BasePitch(f), Intervals(scaleType))
    {
      this.noteThreshold := 5;
      this.scaleType := scaleType;
      new;
      pitchGrids := CreatePitchGrids();
    }

    /// Builds one grid per entry of the base pitch table, in the table's
    /// order, each from the intervals of the instance's scale.
    method CreatePitchGrids() returns (grids: map<FacePosition, seq<seq<int>>>)
      ensures grids.Keys == {Front, Back, Left, Right, Top, Bottom}
      ensures forall f :: f in grids ==> IsPitchGrid(grids[f], BasePitch(f), Intervals(scaleType))
    {
      grids := map[];
      var intervals := Intervals(scaleType);
      for t := 0 to |BasePitches|
        invariant grids.Keys == TableFaces(t)
        invariant forall f :: f in grids ==> IsPitchGrid(grids[f], BasePitch(f), intervals)
      {
        var (facePosition, basePitch) := BasePitches[t];
        BasePitchesTable(t);
        var pitchGrid := PitchGrid(basePitch, intervals);
        grids := grids[facePosition := pitchGrid];
      }
      TableCoversFaces();
    }

    /// The grid of one face (the body of the loop over the base pitch
    /// table): row after row, the scale rooted len - 1 - row semitones above
    /// the base pitch.
    static method PitchGrid(basePitch: int, intervals: seq<int>) returns (pitchGrid: seq<seq<int>>)
      ensures IsPitchGrid(pitchGrid, basePitch, intervals)
    {
      var intervalLength := |intervals|;
      pitchGrid := [];
      for row := 0 to intervalLength
        invariant |pitchGrid| == row
        invariant forall r :: 0 <= r < row ==>
                    |pitchGrid[r]| == intervalLength
                    && forall k :: 0 <= k < intervalLength ==>
                         pitchGrid[r][k] == basePitch + (intervalLength - 1 - r) + intervals[k]
      {
        var scaleBase := basePitch + (intervalLength - 1 - row);
        var rowPitches := seq(intervalLength, k requires 0 <= k < intervalLength => scaleBase + intervals[k]);
        pitchGrid := pitchGrid + [rowPitches];
      }
    }

    /// The notes to sound: a copy of the candidates is shuffled in place
    /// (index i, from the last down to 1, swapped with index pick(i), a draw
    /// from 0 .. i) and its first min(noteThreshold, count) entries are
    /// returned.  The result is the prefix of the shuffle and so a
    /// sub-multiset of the candidates; the candidates themselves are a value
    /// and stay as they were.
    method GetNotes(noteCandidates: seq<Note>, pick: nat -> nat) returns (notes: seq<Note>)
      requires forall t: nat :: pick(t) <= t
      ensures |notes| == Min(noteThreshold, |noteCandidates|)
      ensures notes == Shuffle(noteCandidates, pick)[..|notes|]
      ensures multiset(notes) <= multiset(noteCandidates)
    {
      var candidates := new Note[|noteCandidates|](k requires 0 <= k < |noteCandidates| => noteCandidates[k]);
      assert candidates[..] == noteCandidates;
      var i := candidates.Length - 1;
      while i > 0
        invariant -1 <= i < candidates.Length
        invariant ShuffleDown(candidates[..], pick, i) == Shuffle(noteCandidates, pick)
      {
        var j := pick(i);
        candidates[i], candidates[j] := candidates[j], candidates[i];
        i := i - 1;
      }
      ShufflePermutes(noteCandidates, pick);
      notes := candidates[..Min(noteThreshold, candidates.Length)];
      PrefixSubMultiset(Shuffle(noteCandidates, pick), |notes|);
    }
  }
}
