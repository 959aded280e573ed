# Liquiprism cube automaton, modelled in Dafny

Liquiprism is a cellular automaton on the six faces of a cube. Each face is
an n × n grid of cells, stored row-major. A cell's neighbours are taken
across the face edges through a fixed face-adjacency table: the up to eight
cells around it, where an offset that crosses exactly one edge lands on the
adjacent face and an offset that crosses two edges contributes nothing.

One generation (`step`) runs two passes:

- **Compute pass.** Every face whose update rate divides the step counter
  evaluates a rule for each of its cells, in face order and row-major order.
  The result goes into the cell's pending state. A cell that is being born is
  marked stimulated and counted in the activity counter.
- **Commit pass.** The same faces copy each pending state into the cell's
  state and clear it.

Three rules decide the next state:

- **Stimulus rule** (frontmost face): a live cell stays alive, and a dead one
  is born on a random draw.
- **Stochastic rule**: used while the activity counted so far in the step is
  below n². A live cell survives on 2 or 3 live neighbours. A dead one is born
  only if the cell below it is alive and a random draw succeeds.
- **Conventional rule**: used once the activity reaches n². Survival on 2 or
  3 live neighbours, birth on 4 or more.

A second, smaller part is the sonifier core:

- one pitch grid per face, built from the face's base pitch and the intervals
  of the chosen scale;
- the choice of the notes to sound among the stimulated cells: a
  Fisher–Yates shuffle of a copy of the candidates, cut to the note
  threshold.

The files:

- `cube.dfy` (module `Cube`): faces, edges, the adjacency table, and the
  neighbour geometry of a cell as locations.
- `automaton.dfy` (module `Automaton`): cells, face layout and the three
  rules. It also gives a value-level description of one generation over a
  snapshot of all six faces:
  - `Successor`: the next generation;
  - `ComputePass`: the compute pass;
  - `CommittedUpTo`: the commit pass;
  - `StimulatedBefore`: the activity each cell sees.
- `engine.dfy` (module `Engine`): the engine itself as classes.
  - `Face` holds a row-major `array<Cell>`.
  - `Liquiprism` holds the six faces and the counters.
  - Its methods are proved against the `Automaton` definitions, read off the
    ghost `Snapshot()` of the six arrays.
- `sonifier.dfy` (module `Sonifier`): the scales, the base pitch table, pitch
  grid construction, and the shuffle and cut of note candidates.

Random draws enter as parameters:

- `alive(face, i, j)`: the initial liveness per cell;
- `rateDraw(face)` in {0, 1, 2}: the random update rate;
- `random(face, k)`: one boolean draw per cell per step, used by whichever
  rule needs one;
- `pick(i)` ≤ i: the Fisher–Yates index.

The main results:

- `Step` turns the cube into the unique successor generation
  (`Successor`, `SuccessorUnique`).
- The activity is the number of cells born during the step.
- Rules always read the pre-step generation (`ComputedLiveness`,
  `OutcomeSame`).
- Every pending state is set before it is committed (`PassPending`).
- On faces of size 2 or more a corner cell has 7 neighbours and every other cell 8 (`NeighbourCount`), because an offset that crosses one edge reaches the adjacent face while one that crosses two edges reaches nothing; the single cell of a size-1 face has 4 (`SingleCellNeighbourCount`).

## Model

| member | source | states |
|---|---|---|
| `Cube.FaceIndex` | src/scripts/liquiprism.ts:8-15 | the enumeration value of a face is below 6 and `FaceAt` maps it back to the face |
| `Cube.FaceAtIndex` | src/scripts/liquiprism.ts:8-15 | the six values and the six faces correspond one to one |
| `Cube.Opposite` | src/scripts/liquiprism.ts:114-153 | reference cube geometry used to check the adjacency table: the opposite face is never the face itself |
| `Cube.FaceMap` | src/scripts/liquiprism.ts:114-153 | the adjacency table; crossing any edge never leads back to the face or to its opposite face |
| `Cube.FaceMapOppositeEdges` | src/scripts/liquiprism.ts:114-153 | the two ends of each axis of a face lead to opposite faces |
| `Cube.FaceMapCoversSides` | src/scripts/liquiprism.ts:114-153 | the four edges of a face reach exactly the four faces that are neither it nor its opposite |
| `Cube.EdgeRoundTrip` | src/scripts/liquiprism.ts:114-153 | crossing an edge and then the opposite edge returns to the start exactly on the left and right edges of the four side faces, and on the top and bottom edges between FRONT and TOP or BOTTOM (both directions) |
| `Cube.OffsetNeighbour` | src/scripts/liquiprism.ts:163-172 | one non-zero offset of a cell contributes at most one location, on the grid of some face, and never the cell itself |
| `Cube.CrossingStages` | src/scripts/liquiprism.ts:192-222 | the two crossing stages with their crossing count: one crossing yields the single location `OffsetNeighbour` gives (coordinates in range); none or two crossings off the face yield nothing |
| `Cube.RowPrefix` | src/scripts/liquiprism.ts:164-173 | the locations gathered by a prefix of one row of offsets are on the grid, at most one per offset |
| `Cube.Prefix` | src/scripts/liquiprism.ts:163-174 | the locations gathered by the earlier rows of offsets are on the grid, at most three per row |
| `Cube.Neighbours` | src/scripts/liquiprism.ts:159-177 | the neighbour locations of a cell are all on the grid |
| `Cube.NeighboursUnfold` | src/scripts/liquiprism.ts:163-174 | the neighbour list is the contributions of the eight offsets, in loop order, row offset outer |
| `Cube.NeighboursInGrid` | src/scripts/liquiprism.ts:159-177 | a cell has at most 8 neighbours, each on the grid and none the cell itself |
| `Cube.NeighbourCount` | src/scripts/liquiprism.ts:159-177 | on a face of size at least 2, the corner cells have exactly 7 neighbours and all other cells exactly 8 |
| `Cube.SingleCellNeighbourCount` | src/scripts/liquiprism.ts:159-223 | on a face of size 1 the only cell has exactly the four cells across its edges, in the order top, left, right, bottom |
| `Cube.BelowLoc` | src/scripts/liquiprism.ts:179-187 | the location below a cell is on the grid and in the same column |
| `Cube.BelowIsNeighbour` | src/scripts/liquiprism.ts:179-223 | the cell below is exactly the neighbour the resolver finds for the offset (1, 0) |
| `Automaton.IndexInRange` | src/scripts/liquiprism.ts:70-72 | the row-major index of a position on the face lies in 0 .. n² - 1 |
| `Automaton.IndexUnique` | src/scripts/liquiprism.ts:70-72 | the row-major index determines the row and the column |
| `Automaton.CellAtIndex` | src/scripts/liquiprism.ts:60-72 | in a face laid out by the initialisation, index i·n + j holds the cell whose face and position are (i, j) |
| `Automaton.CellOf` | src/scripts/liquiprism.ts:70-72 | the cell looked up at a location is a cell stored on that location's face, and it has that face and position |
| `Automaton.CellsAt` | src/scripts/liquiprism.ts:159-177 | the cells gathered at a list of locations are one per location |
| `Automaton.CellsAtIndex` | src/scripts/liquiprism.ts:159-177 | entry t of the gathered cells is the cell at location t |
| `Automaton.CellsAtAppend` | src/scripts/liquiprism.ts:169-171 | gathering at concatenated location lists concatenates the cells |
| `Automaton.GatheredStep` | src/scripts/liquiprism.ts:164-172 | one inner-loop iteration appends exactly that offset's cells (nothing for (0, 0)) |
| `Automaton.GatheredRow` | src/scripts/liquiprism.ts:163-174 | the end of one row of offsets is the start of the next |
| `Automaton.GatheredNeighbours` | src/scripts/liquiprism.ts:159-177 | everything gathered over all nine offsets is the cells at the neighbour locations |
| `Automaton.CountAlive` | src/scripts/liquiprism.ts:253 | the live count of a list is at most its length |
| `Automaton.ApplyConventionalRule` | src/scripts/liquiprism.ts:268-274 | a live cell survives iff it has 2 or 3 live neighbours; a dead cell is born iff it has 4 or more |
| `Automaton.ApplyStochasticRule` | src/scripts/liquiprism.ts:276-284 | a live cell survives as under the conventional rule; a dead cell is born only if the cell below is alive |
| `Automaton.ApplyStimulusRule` | src/scripts/liquiprism.ts:286-288 | a live cell stays alive |
| `Automaton.LiveNeighbours` | src/scripts/liquiprism.ts:252-253 | a cell has at most 8 live neighbours |
| `Automaton.BelowCell` | src/scripts/liquiprism.ts:179-187 | the cell below is stored in the same column: one row down on the same face, or in row 0 of the face across the bottom edge for a cell of the last row |
| `Automaton.Outcome` | src/scripts/liquiprism.ts:248-261 | the rule evaluation: on the frontmost face a live cell stays alive; elsewhere a live cell survives iff it has 2 or 3 live neighbours, and a dead cell is born only if the cell below is alive with activity below n², or it has at least 4 live neighbours |
| `Automaton.OutcomeRules` | src/scripts/liquiprism.ts:248-288 | rule selection: on the frontmost face a live cell stays alive; elsewhere a live cell survives iff it has 2 or 3 live neighbours; at activity ≥ n² a dead cell is born iff it has ≥ 4; below n² it is born only if the cell below is alive |
| `Automaton.ConventionalBirthNeedsFour` | src/scripts/liquiprism.ts:268-274 | unlike the Game of Life, 3 live neighbours do not give birth and 4 do |
| `Automaton.OutcomeSame` | src/scripts/liquiprism.ts:248-261 | a rule evaluation reads only faces, positions and liveness, so pending states and flags written earlier in the pass cannot change it |
| `Automaton.CountAliveSame` | src/scripts/liquiprism.ts:253 | the live count depends only on liveness |
| `Automaton.StimulatedBefore` | src/scripts/liquiprism.ts:262-265 | the activity a cell sees is the births on the processed faces before its own, plus at most one per earlier cell of its own face when that face is processed |
| `Automaton.StimulatedBeforeSame` | src/scripts/liquiprism.ts:262-265 | the activity a cell sees depends only on the flags of the cells evaluated before it |
| `Automaton.StimulatedBeforeNext` | src/scripts/liquiprism.ts:262-265 | evaluating one more cell raises the activity by one exactly when that cell is stimulated on a processed face |
| `Automaton.ActivityMonotone` | src/scripts/liquiprism.ts:225-233 | within a pass the activity seen never decreases along the evaluation order and never exceeds the final count |
| `Automaton.Successor` | src/scripts/liquiprism.ts:225-246 | the generation after a step; a successor keeps every cell's face and position |
| `Automaton.SuccessorCells` | src/scripts/liquiprism.ts:225-246 | in a successor, each cell of a processed face holds its rule outcome as state, has no pending state, and is stimulated iff it was born; unprocessed faces are unchanged; layout is kept |
| `Automaton.SuccessorSettled` | src/scripts/liquiprism.ts:236-243 | a step from a generation with no pending state leaves none: processed faces clear every pending state and the others keep theirs |
| `Automaton.ComputedLiveness` | src/scripts/liquiprism.ts:228-233 | during the compute pass the snapshot keeps the previous generation's layout and liveness |
| `Automaton.ComputeNext` | src/scripts/liquiprism.ts:230-232 | evaluating the next cell extends the compute pass by one cell and raises the count of births by its stimulated flag |
| `Automaton.ComputeCells` | src/scripts/liquiprism.ts:230-232 | the compute pass over a face keeps the shape of the snapshot |
| `Automaton.ComputePass` | src/scripts/liquiprism.ts:228-234 | the compute pass over the faces keeps the shape of the snapshot |
| `Automaton.CellsComputed` | src/scripts/liquiprism.ts:230-232 | after k cells of a processed face, exactly the cells before k are evaluated, each with the births before it as activity |
| `Automaton.PassComputed` | src/scripts/liquiprism.ts:228-234 | after the first p faces, exactly their processed cells are evaluated, each with the births before it as activity |
| `Automaton.PassPending` | src/scripts/liquiprism.ts:236-243 | after the compute pass every cell of a processed face has a pending state, so the commit's non-null assertion holds |
| `Automaton.Evaluated` | src/scripts/liquiprism.ts:248-265 | an evaluated cell keeps its face, position and liveness; its pending state is the rule outcome for its draw; it is stimulated iff it is dead and will be alive |
| `Automaton.Committed` | src/scripts/liquiprism.ts:239-240 | a committed cell takes its pending state as liveness, has no pending state, and keeps its face, position and stimulated flag |
| `Automaton.CommitNext` | src/scripts/liquiprism.ts:238-241 | committing the next cell extends the commit pass by one cell |
| `Automaton.TwoPasses` | src/scripts/liquiprism.ts:225-246 | a compute pass followed by a commit pass over the same faces yields the successor generation; the activity counted is its number of stimulated cells |
| `Automaton.SuccessorUnique` | src/scripts/liquiprism.ts:225-246 | the step is deterministic: given the generation, frontmost face, schedule and draws, two successors are equal |
| `Engine.Face.InitializeCells` | src/scripts/liquiprism.ts:60-68 | the cells are pushed row by row: n² cells, index i·n + j holds cell (i, j) of this face, each a new cell with the drawn liveness |
| `Engine.Face.constructor` | src/scripts/liquiprism.ts:53-58 | a face has its position, size and update rate and a fresh array of its initialised cells |
| `Engine.Face.GetCell` | src/scripts/liquiprism.ts:70-72 | the cell at a position is a cell stored in this face's array, and it has this face and that position |
| `Engine.FindFace` | src/scripts/liquiprism.ts:156 | the list search yields nothing iff no face has the position, else the first face that has it |
| `Engine.Liquiprism.constructor` | src/scripts/liquiprism.ts:89-112 | six faces in enumeration order with update rate 1, or 1 + a draw from {0, 1, 2}; threshold n²; counters 0; frontmost face the first; every cell new, so no cell has a pending state |
| `Engine.Liquiprism.Processed` | src/scripts/liquiprism.ts:228 | a face is processed this step iff its update rate divides the step counter |
| `Engine.Liquiprism.GetFace` | src/scripts/liquiprism.ts:155-157 | the face found for a position is the face at that enumeration index and has that position |
| `Engine.Liquiprism.GetBellowCellNeighbor` | src/scripts/liquiprism.ts:179-187 | the cell below: next row, or row 0 of the face across the bottom edge from the last row |
| `Engine.Liquiprism.GetAdjacentFaceCellNeighbors` | src/scripts/liquiprism.ts:189-223 | for an offset leaving the face, the cells at the location `OffsetNeighbour` gives: one cell across a single edge, none across two; nothing for an offset that stays on the face |
| `Engine.Liquiprism.OffsetCells` | src/scripts/liquiprism.ts:166-172 | a non-zero offset contributes the same-face cell or what the adjacent-face lookup returns, which is the cells at its `OffsetNeighbour` location |
| `Engine.Liquiprism.GetCellNeighbors` | src/scripts/liquiprism.ts:159-177 | the neighbours are the cells at the neighbour locations, in the loops' order |
| `Engine.Liquiprism.NextState` | src/scripts/liquiprism.ts:248-261 | the rule that applies (stimulus on the frontmost face, else stochastic below the threshold, else conventional) gives `Outcome` for the cell |
| `Engine.Liquiprism.ApplyRules` | src/scripts/liquiprism.ts:248-266 | only that cell changes: its pending state is the evaluated outcome, it is stimulated iff born, and the activity rises by one exactly then |
| `Engine.Liquiprism.RecordOutcome` | src/scripts/liquiprism.ts:262-265 | the cell's pending state and stimulated flag are set from the outcome and a birth is counted; nothing else changes |
| `Engine.Liquiprism.UpdateCell` | src/scripts/liquiprism.ts:238-240 | a field update of one cell changes the snapshot at that cell only |
| `Engine.Liquiprism.ApplyRulesToFace` | src/scripts/liquiprism.ts:229-233 | applying the rules to every cell of a processed face is the compute pass over that face, with the activity equal to the births so far |
| `Engine.Liquiprism.ApplyRulesNext` | src/scripts/liquiprism.ts:230-232 | applying the rules to the next cell of a processed face extends the compute pass by that cell, and the activity stays equal to the births so far |
| `Engine.Liquiprism.CommitCells` | src/scripts/liquiprism.ts:237-242 | committing every cell of a processed face extends the commit pass over that face |
| `Engine.Liquiprism.ApplyRulesToFaces` | src/scripts/liquiprism.ts:228-234 | the first loop of step is the whole compute pass and the activity is the number of births in it |
| `Engine.Liquiprism.CommitFaces` | src/scripts/liquiprism.ts:236-243 | the second loop of step is the whole commit pass over the same faces |
| `Engine.Liquiprism.Step` | src/scripts/liquiprism.ts:225-246 | the new cube is the successor of the old one for this step's faces and draws; activity is the number of births; the step counter rises by one; the frontmost face is kept; if no cell had a pending state before the step, none has one after it |
| `Sonifier.Intervals` | src/scripts/sonifier.ts:58-69 | minor intervals for Minor, blues for Blues, major otherwise; 6 or 7 entries from 0, strictly rising, within the octave |
| `Sonifier.BasePitch` | src/scripts/sonifier.ts:49-56 | each face's base pitch is its table entry, a C from 24 to 84 |
| `Sonifier.BasePitchesTable` | src/scripts/sonifier.ts:49-56 | each table entry holds its face's base pitch and no face appears twice |
| `Sonifier.TableCoversFaces` | src/scripts/sonifier.ts:49-56 | the table names all six faces |
| `Sonifier.PitchGridRowsRise` | src/scripts/sonifier.ts:76-79 | along a row of a grid the pitches rise strictly |
| `Sonifier.PitchGridRowStep` | src/scripts/sonifier.ts:75-79 | one row down lowers every pitch by exactly one semitone |
| `Sonifier.PitchGridBounds` | src/scripts/sonifier.ts:71-81 | every pitch lies between the base pitch (first entry of the bottom row) and base + len − 1 + the last interval (last entry of the top row) |
| `Sonifier.PitchGridsInMidiRange` | src/scripts/sonifier.ts:47-86 | every pitch the sonifier builds is a MIDI note from 24 to 101 |
| `Sonifier.ShuffleDown` | src/scripts/sonifier.ts:104-107 | the swaps keep the length |
| `Sonifier.Shuffle` | src/scripts/sonifier.ts:104-107 | the shuffle keeps the length |
| `Sonifier.SwapPermutes` | src/scripts/sonifier.ts:106 | one swap keeps the multiset |
| `Sonifier.ShuffleDownPermutes` | src/scripts/sonifier.ts:104-107 | the swaps from index i down to 1 are a permutation |
| `Sonifier.ShufflePermutes` | src/scripts/sonifier.ts:102-107 | the whole shuffle is a permutation of the candidates |
| `Sonifier.PrefixSubMultiset` | src/scripts/sonifier.ts:109 | a prefix is a sub-multiset |
| `Sonifier.Sonifier.constructor` | src/scripts/sonifier.ts:19-31 | note threshold 5, the given scale, and a pitch grid for each of the six faces |
| `Sonifier.Sonifier.CreatePitchGrids` | src/scripts/sonifier.ts:47-86 | one grid per face, each len × len with entry [row][k] = base pitch + (len − 1 − row) + intervals[k] |
| `Sonifier.Sonifier.PitchGrid` | src/scripts/sonifier.ts:73-81 | the grid of one face has that shape and those entries |
| `Sonifier.Sonifier.GetNotes` | src/scripts/sonifier.ts:101-110 | exactly min(threshold, count) notes: the prefix of the Fisher–Yates shuffle of a copy, hence a sub-multiset of the candidates |

## Left out

- Web Audio is not modelled: `AudioContext`, oscillators, the convolver, `createImpulseResponse`, `midiToFrequency`, `playNoteOn`, `playNoteOff`, `setMuteFace` and `update`. These are foreign calls and floating-point signal code.
- `sonifyFace` is not modelled. It is audio side effects. It also reads past the end of a pitch grid when the cube is larger than the scale, which is JavaScript out-of-range behaviour.
- The sonifier's `liquiprism`, `oscillators` and `mutedFaces` fields are not modelled; only the audio code uses them.
- Random draws are parameters, not probabilities (Math.random). The model does not capture:
  - the 0.5 initial liveness;
  - the 0.2 stimulus chance;
  - the 1/3 stochastic chance;
  - the uniform update-rate and Fisher–Yates draws.
- In the source a rule draws only when it needs a number. The model gives each cell one boolean per step, which the rule reads or ignores.
- `Cell.isCellOnFaceEdge` and the `toString` methods are not modelled; the core never calls them.
- The visualizer sets `frontmostFace` from outside; it is not part of the model, and `Step` keeps the face it is given.
- A cell's `face` back-reference is modelled as the face's position; positions are unique among the faces.
- Default arguments are explicit parameters of the constructors: `Face`'s update rate (default 1), `Liquiprism`'s random update rate flag (default false) and the sonifier's scale (default major).
- Cells are records stored in the face arrays, so a field update is a write of the updated record. Other holders of a cell (the neighbour lists of `getCellNeighbors`, the sonifier's note candidates) only read it, and every write goes through the face's array, so modelling cells as values loses no behaviour.
- The `faceMap` field is modelled as the pure function `Cube.FaceMap`; the source builds it once and never changes it. `initializeFaceMap` is that function's table.
- `getFace`'s non-null assertion becomes the precondition `Shape()`: the cube always holds all six faces.
- The commit's non-null assertion on `willBeAlive` is proved to hold (`PassPending`). `Automaton.Committed` keeps the old state for a missing pending state, a case that never arises.
- JavaScript numbers are doubles; the model uses unbounded integers. Counters beyond 2^53 are not modelled.
- `getAdjacentFaceCellNeighbors` looks up a face at each edge crossing. The model tracks the target by position and looks it up once, when exactly one edge was crossed. Lookups are pure, so the result is the same.
- `applyRules` is split into `NextState` (rule selection) and `RecordOutcome` (the pending state, the flag and the count). The loops of `step` are split into `ApplyRulesToFaces`/`ApplyRulesToFace`/`ApplyRulesNext` (the outer loop, the inner loop and its body) and `CommitFaces`/`CommitCells`. The statements and their order are unchanged.
- The source builds the pitch grids into a `Map`, whose order is insertion order. A Dafny map has no order, so the insertion order is kept in the sequence `BasePitches`.
