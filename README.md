# ArrowPuzzle generation and validation, modelled in Dafny

ArrowPuzzle fills a W×H grid with polyline "arrows". Each arrow occupies a path of
cells and points, from its last cell, in its final direction. A player removes an
arrow by clicking it, but only when no other arrow lies on the ray ahead of it.

The generator makes up to MaxAttempts attempts.
- Each attempt picks a free start cell, favouring cells near the centre.
- It grows an arrow there with random length and random turns.
- It then recomputes every arrow's block list, the arrows met by its ray.
- It keeps the new arrow only if a depth-first search from it finds no cycle in the
  block graph. A cycle of blocking would make the puzzle impossible to clear.
- Generation stops early once the occupied fraction reaches the configured density,
  or when no cell is free.

The model follows the source's form.
- `PuzzleGraph` is a class. It holds the `array2<int>` grid (−1 for a free cell), the
  arrow table, the block graph (`map<int, seq<int>>`) and the occupied counter.
- Its methods update those fields with loops, as the source does.
- `Arrow` is a class whose `GenerateArrow` grows the path step by step, marking each
  cell as it is added.
- A ghost copy of the grid (`cells`) lets contracts speak about the grid as a value.
- Pure modules hold the reference definitions the methods are proved against:
  - `Grids`: boards, painting and erasing an arrow, the consistency of grid, table and
    counter;
  - `Rays`: the ray scan that defines a block list;
  - `BlockGraphs`: paths, cycles and the depth-first search;
  - `CentreOrder`: ordering cells by distance from the centre;
  - `GenParams`: the GenData record and the density test;
  - `Rng`: random draws;
  - `LiveGraph`: how the block graph responds to adding and deleting an arrow;
  - `Solvability`: clearing a cycle-free puzzle.

The main results:
- Every operation keeps these in agreement:
  - the grid;
  - the arrow table (each arrow a connected, duplicate-free, in-bounds path owning
    exactly its cells);
  - the counter (equal to the number of occupied cells).
- `DeleteArrow` frees exactly the deleted arrow's cells. It recomputes exactly the lists
  that mentioned it, and those lists stay current and cycle-free.
- `Validate` answers true exactly when no cycle is reachable from the new arrow.
- `GeneratePuzzle` ends with:
  - current block lists;
  - a cycle-free block graph;
  - arrows with at least one segment each;
  - ids that are distinct attempt numbers;
  - a ghost trace of the grid and table before and after every attempt. Each step is
    one attempt as the loop body makes it (`Puzzle.Advances`), and the loop ends early
    only when the density is reached or no cell is free.
- The resulting puzzle can be cleared completely by repeated legal clicks
  (`Solvability.Solvable`).

Randomness is an explicit input.
- `Rolls` gives, per attempt (and per growth step), the index drawn by each
  `Random.Range` call.
- For the two float draws, it gives the outcome of the comparison they feed
  (`roll <= FromInsideProb`, `turnRoll <= turnProb`).
- `RangeInt` is Unity's integer `Random.Range(lo, hi)`: some value in `[lo, hi)`, and
  `lo` when the range is empty.

The physics ray cast of `CheckBlock` is modelled as a walk over the grid.
- The walk visits the cells at distances 1 … max(W, H) past the arrow's last cell, in
  its direction.
- It reports the owner of each occupied in-grid cell, nearest first.
- An arrow met in several cells is listed once per cell, and the arrow's own id is
  included when its ray re-enters its own cells. Such a self-block counts as a cycle
  (`BlockGraphs.SelfBlockIsCycle`).

Growing an arrow, the code considers all four cardinal neighbours of its last cell at each step.
- After the first step the reverse cell is the arrow's own previous cell, so it is occupied
  and never chosen.
- On the first step the reverse of the initial direction is a legal turn, and the model
  allows it as the code does.

The growth itself has a reference definition, `Puzzle.GrowPath`.
- `StepDir` is the heading one step takes: a turn (the candidate at the drawn index) when
  the step's turn roll says so or straight on is closed, and straight on otherwise.
- `GrowPath` applies `StepDir` for steps i … length, marking each new cell, and stops at
  the first stuck end.
- `GrownFrom` plants the start and grows from step 1; `ArrowOf` feeds it attempt i's
  direction, length and per-step rolls.
- `Arrow.GenerateArrow`'s loop is proved to compute exactly `GrownFrom`, and every
  arrow the generator keeps is `ArrowOf` its attempt (`GrownBy`).

## Model

| member | source | states |
|---|---|---|
| GenParams.DensityReached | Assets/Scripts/PuzzleGraph.cs:64-65 | the stopping test holds exactly when occupied / (width·height) ≥ density, compared as exact rationals |
| Rng.RangeInt | Assets/Scripts/PuzzleGraph.cs:139-141 | a draw from `[lo, hi)` lies in that range, and is `lo` when the range is empty |
| Rng.RangeIntOnto | Assets/Scripts/PuzzleGraph.cs:141 | every value of a non-empty range is drawn by some roll |
| Puzzle.SampleLength | Assets/Scripts/Arrow.cs:34 | the arrow length lies in [MinArrowLength, MaxArrowLength] inclusive, and is MinArrowLength when that range is empty |
| Puzzle.WrapInt32 | Assets/Scripts/Arrow.cs:34 | C#'s unchecked `int` result of a sum: a value in the `int` range, congruent to the sum modulo 2^32, and the sum itself when that fits |
| Puzzle.SampleLengthAsWritten | Assets/Scripts/Arrow.cs:34 | the length draw with the wrapping bound `MaxArrowLength + 1`; it agrees with SampleLength whenever MaxArrowLength < int.MaxValue |
| Puzzle.LengthBoundWraps | Assets/Scripts/Arrow.cs:34 | for MinArrowLength 1 and MaxArrowLength int.MaxValue the bound wraps to int.MinValue, and the drawn length differs from the intended one |
| Puzzle.SampleDir | Assets/Scripts/Arrow.cs:36 | the initial direction is one of the four unit cardinal steps |
| Puzzle.SamplesOnto | Assets/Scripts/Arrow.cs:34-36 | every length of the configured range and every cardinal direction is drawn by some roll |
| Puzzle.CheckBlock | Assets/Scripts/Arrow.cs:80-97 | the returned list is the ray scan of the arrow on the current grid: the owners of the occupied cells straight ahead, nearest first |
| Rays.ScanMeaning | Assets/Scripts/Arrow.cs:82-92 | the ray reports a hit exactly for each occupied in-grid cell at distance 1 … max(W, H) ahead of the last cell, in strictly increasing distance |
| Rays.OwnersStep | Assets/Scripts/Arrow.cs:88-92 | the owner list is the owner at distance k, if any, followed by the owners farther on |
| Rays.BlockedIffNotClear | Assets/Scripts/Arrow.cs:80-97 | a block list is non-empty exactly when some cell straight ahead, within max(W, H), is occupied |
| Rays.BlockersErase | Assets/Scripts/PuzzleGraph.cs:229-243 | freeing one arrow's cells removes exactly that arrow's entries from every ray, keeping the rest in order |
| Rays.BlockersLive | Assets/Scripts/PuzzleGraph.cs:201-204 | on a consistent grid every id in a block list is a live arrow, so the search never looks up a missing id |
| Rays.RemoveAllIff | Assets/Scripts/PuzzleGraph.cs:240-243 | after removing v, a list contains x exactly when the original contains x and x ≠ v |
| CentreOrder.SortByCentreCorrect | Assets/Scripts/PuzzleGraph.cs:133-134 | the centre order is a permutation of the free cells, nearest to the centre first |
| CentreOrder.RankBound | Assets/Scripts/PuzzleGraph.cs:139 | in a centre-sorted list, at most j cells are strictly nearer than entry j, however ties are broken |
| BlockGraphs.Dfs | Assets/Scripts/PuzzleGraph.cs:196-208 | false only when a cycle is reachable from the search root; true extends the finished set by the node, keeps it closed and cycle-free, and restores the in-progress marks |
| BlockGraphs.NoCycleFromClosed | Assets/Scripts/PuzzleGraph.cs:193 | no cycle is reachable from a node of a closed, cycle-free finished set, so a true answer means no reachable cycle |
| BlockGraphs.LassoCycle | Assets/Scripts/PuzzleGraph.cs:198 | a path that revisits a node contains a cycle |
| BlockGraphs.AcyclicIffNoReachableCycle | Assets/Scripts/PuzzleGraph.cs:180-194 | a graph is cycle-free exactly when no cycle is reachable from any node |
| BlockGraphs.FinishNode | Assets/Scripts/PuzzleGraph.cs:206 | finishing a node whose successors are all finished keeps the finished set closed and cycle-free |
| BlockGraphs.EnterMarks | Assets/Scripts/PuzzleGraph.cs:199 | marking a node in progress pushes it on the search path and takes it out of the unvisited set |
| BlockGraphs.LeaveMarks | Assets/Scripts/PuzzleGraph.cs:206 | marking a finished node done pops it from the stack and adds it to the finished set, which stays closed and cycle-free |
| BlockGraphs.FreshMarks | Assets/Scripts/PuzzleGraph.cs:189-192 | with every arrow unvisited, nothing is in progress or finished, so the search may start from any arrow |
| BlockGraphs.AcyclicAfterInsert | Assets/Scripts/PuzzleGraph.cs:73-78 | adding a node whose lists only gain entries for it keeps a cycle-free graph cycle-free when no cycle is reachable from the new node |
| BlockGraphs.AcyclicSubgraph | Assets/Scripts/PuzzleGraph.cs:240-243 | dropping nodes and list entries keeps a graph cycle-free |
| BlockGraphs.SelfBlockIsCycle | Assets/Scripts/PuzzleGraph.cs:198-204 | an arrow listed in its own block list is a cycle reachable from itself |
| BlockGraphs.RingOfThree | Assets/Scripts/PuzzleGraph.cs:74-78 | three arrows blocking each other in a ring form a cycle reachable from the third, while the first two alone have none |
| BlockGraphs.NoSinkCycle | Assets/Scripts/PuzzleGraph.cs:43-47 | a closed, non-empty graph in which every arrow is blocked contains a cycle |
| BlockGraphs.SomeSink | Assets/Scripts/PuzzleGraph.cs:43-47 | a closed, non-empty, cycle-free graph has an arrow with an empty block list |
| BlockGraphs.FirstChoicePath | Assets/Scripts/PuzzleGraph.cs:43-47 | in a graph without sinks, following first entries gives a path of any length |
| Grids.BlankConsistent | Assets/Scripts/PuzzleGraph.cs:56-59 | the all-free grid is consistent with an empty arrow table and has no occupied cell |
| Grids.OccupiedIff | Assets/Scripts/PuzzleGraph.cs:35-38 | a cell is occupied exactly when it is in bounds and not free |
| Grids.FreeCellsIff | Assets/Scripts/PuzzleGraph.cs:119-129 | a cell is free exactly when it is in bounds and holds −1 |
| Grids.OwnedIffOccupied | Assets/Scripts/PuzzleGraph.cs:35-38 | on a consistent grid a cell is occupied exactly when some live arrow's path contains it |
| Grids.PaintConsistent | Assets/Scripts/PuzzleGraph.cs:166 | marking a fresh well-formed arrow on free cells keeps grid and table consistent |
| Grids.PaintErase | Assets/Scripts/PuzzleGraph.cs:229-233 | erasing a freshly painted arrow gives back the grid it was painted on |
| Grids.EraseConsistent | Assets/Scripts/PuzzleGraph.cs:229-235 | freeing an arrow's cells frees exactly its path and keeps the rest consistent; the occupied count drops by its path length |
| Grids.ErasePainted | Assets/Scripts/PuzzleGraph.cs:229-233 | the erased grid is the old one with exactly the arrow's path set free |
| Grids.EraseCounted | Assets/Scripts/PuzzleGraph.cs:229-233 | after erasing an arrow, the rest of the table stays consistent and the occupied count drops by its path length |
| Grids.PaintCounted | Assets/Scripts/Arrow.cs:43 | painting a fresh arrow on free cells keeps the table consistent, raises the occupied count by its length, and is undone by erasing it |
| Grids.PaintOccupied | Assets/Scripts/PuzzleGraph.cs:26-30 | painting a duplicate-free path of free cells adds exactly its cells to the occupied set and its length to the count |
| Grids.PaintMore | Assets/Scripts/Arrow.cs:74-75 | marking one more path cell extends the painted path by that cell |
| Grids.PaintedUnique | Assets/Scripts/PuzzleGraph.cs:229-232 | painting a path with one value from a given grid has a single result |
| Grids.GrowStep | Assets/Scripts/Arrow.cs:49-75 | appending a free in-bounds neighbour in a cardinal direction keeps the path connected, duplicate-free and in bounds, with `dir` equal to the last step |
| Grids.FreeTurnsSnoc | Assets/Scripts/Arrow.cs:49-62 | scanning one more direction appends it to the turns exactly when it is not straight on and its neighbour is free and in bounds |
| Grids.FreeTurnsIff | Assets/Scripts/Arrow.cs:49-62 | a direction is among the turns exactly when it was scanned, is not straight on, and its neighbour is free and in bounds |
| Grids.FreeTurnsDistinct | Assets/Scripts/Arrow.cs:49-62 | scanning distinct directions lists each turn once |
| Grids.StuckIffNoMoves | Assets/Scripts/Arrow.cs:64 | an arrow end has no free in-bounds neighbour exactly when straight on is closed and there is no turn, the condition on which growth stops |
| Grids.NeighbourScan | Assets/Scripts/Arrow.cs:49-64 | after scanning the four directions, the turns are exactly the other free in-bounds neighbours, each once, and with straight on closed there are none exactly when the end has no free neighbour, where the loop breaks |
| Grids.StuckAfterMark | Assets/Scripts/Arrow.cs:65 | marking the start cell does not change whether its neighbours are free |
| Grids.NotStuckIfGrown | Assets/Scripts/Arrow.cs:65 | a cell with a free in-bounds neighbour is not stuck |
| Grids.StartStuck | Assets/Scripts/Arrow.cs:44-65 | an arrow that grew past its start had a free neighbour there; for an arrow that stayed a single cell, marking the start does not change whether it is stuck |
| LiveGraph.ListsUnique | Assets/Scripts/PuzzleGraph.cs:183-186 | current block lists are determined by the grid and the arrow table |
| LiveGraph.CurrentClosed | Assets/Scripts/PuzzleGraph.cs:201-204 | current lists mention only live arrows |
| LiveGraph.FreshUnlisted | Assets/Scripts/PuzzleGraph.cs:166-171 | no ray meets an id that owns no cell |
| LiveGraph.InsertKeepsAcyclic | Assets/Scripts/PuzzleGraph.cs:73-78 | adding an arrow and recomputing every list keeps a cycle-free graph cycle-free when no cycle is reachable from the new arrow |
| LiveGraph.AddedAcyclic | Assets/Scripts/PuzzleGraph.cs:73-78 | the same for an arrow just entered on top of a current, cycle-free state |
| LiveGraph.ListShrinks | Assets/Scripts/PuzzleGraph.cs:185 | an entry other than the new arrow in a recomputed list was already in the list before that arrow was added |
| LiveGraph.DeleteKeepsCurrent | Assets/Scripts/PuzzleGraph.cs:218-243 | recomputing just the lists that mentioned the deleted arrow leaves every list current and the graph cycle-free |
| LiveGraph.DeleteListsCurrent | Assets/Scripts/PuzzleGraph.cs:218-243 | the lists without the deleted arrow are already current, and erasing removes exactly its entries |
| LiveGraph.DeleteFreshRestores | Assets/Scripts/PuzzleGraph.cs:166-171 | entering an arrow that no list mentions and deleting it again gives back the original lists |
| LiveGraph.BlockedMeaning | Assets/Scripts/PuzzleGraph.cs:43-47 | with current lists, an arrow is blocked exactly when some cell straight ahead of it is occupied |
| Solvability.Solvable | Assets/Scripts/PuzzleGraph.cs:73-78 | a consistent grid with cycle-free block lists can be cleared by removing, one at a time, an arrow with nothing ahead of it |
| Solvability.ClearsFirst | Assets/Scripts/Arrow.cs:121-127 | removing a clear arrow, then clearing the rest, clears everything |
| Solvability.RemoveKeepsAcyclic | Assets/Scripts/PuzzleGraph.cs:213-244 | removing any arrow keeps the grid consistent and the recomputed lists cycle-free |
| Solvability.CurrentSolvable | Assets/Scripts/PuzzleGraph.cs:73-78 | a current, cycle-free block graph can be cleared |
| Puzzle.PuzzleGraph.constructor | Assets/Scripts/PuzzleGraph.cs:17-21 | starts with empty tables and a zero counter |
| Puzzle.PuzzleGraph.SetGraphPoint | Assets/Scripts/PuzzleGraph.cs:26-30 | writes the id into exactly that cell, no other cell changes, and the counter rises by one |
| Puzzle.PuzzleGraph.IsPointOccupied | Assets/Scripts/PuzzleGraph.cs:35-38 | true exactly when the cell is occupied; on a consistent state, exactly when some live arrow owns it |
| Puzzle.PuzzleGraph.IsArrowBlock | Assets/Scripts/PuzzleGraph.cs:43-47 | with current lists, true exactly when some cell straight ahead of the arrow is occupied |
| Puzzle.PuzzleGraph.FindAffected | Assets/Scripts/PuzzleGraph.cs:218-226 | returns exactly the other live arrows whose list mentions the id |
| Puzzle.PuzzleGraph.RecomputeLists | Assets/Scripts/PuzzleGraph.cs:240-243 | the lists of the given arrows become their ray scans on the present grid; the other lists are kept |
| Puzzle.PuzzleGraph.ClearPoint | Assets/Scripts/PuzzleGraph.cs:231-232 | frees exactly that cell and lowers the counter by one |
| Puzzle.PuzzleGraph.ErasePoints | Assets/Scripts/PuzzleGraph.cs:229-233 | frees exactly the given cells and lowers the counter by their number |
| Puzzle.PuzzleGraph.RemoveArrow | Assets/Scripts/PuzzleGraph.cs:228-236 | frees exactly the arrow's cells, lowers the counter by its length, drops it from both tables, and keeps the state consistent |
| Puzzle.PuzzleGraph.DeleteArrow | Assets/Scripts/PuzzleGraph.cs:213-244 | frees exactly the arrow's cells, lowers the counter by its length, and drops it from both tables; exactly the lists that mentioned it are recomputed; current lists stay current and a cycle-free graph stays cycle-free |
| Puzzle.PuzzleGraph.RefreshAffected | Assets/Scripts/PuzzleGraph.cs:238-243 | recomputes the lists that mentioned the deleted arrow, keeps the others, and keeps current lists current and cycle-free |
| Puzzle.PuzzleGraph.Register | Assets/Scripts/PuzzleGraph.cs:166-167 | enters the grown arrow with an empty list; the state is consistent and erasing the arrow gives back the old grid |
| Puzzle.PuzzleGraph.GeneratePuzzle | Assets/Scripts/PuzzleGraph.cs:52-83 | the returned trace starts from the blank W×H grid with an empty table; each of at most MaxAttempts attempts advances it (`Advances`, where a growing arrow is exactly `ArrowOf` its attempt's rolls); fewer than MaxAttempts attempts only when the density is reached or no cell is free in the last snapshot; the final grid and table are that snapshot; ends with current lists, a cycle-free graph, ids that are attempt numbers, and a puzzle that can be cleared |
| Puzzle.PuzzleGraph.RunAttempts | Assets/Scripts/PuzzleGraph.cs:61-79 | the loop of attempts 0, 1, …: every attempt it makes advances the trace from the state it started in; it ends after MaxAttempts attempts or when the stop test holds; lists stay current and cycle-free |
| Puzzle.RunSnoc | Assets/Scripts/PuzzleGraph.cs:61-79 | one more advancing attempt extends a run |
| Puzzle.RunSteps | Assets/Scripts/PuzzleGraph.cs:61-79 | in a run, attempt k takes snapshot k to snapshot k+1 |
| Puzzle.AdvancesOccupies | Assets/Scripts/PuzzleGraph.cs:64-78 | an attempt never frees a cell, so the occupied count the density test reads never falls |
| Puzzle.RunOccupies | Assets/Scripts/PuzzleGraph.cs:61-79 | every cell occupied at the start of a run stays occupied after each attempt |
| Grids.PaintKeepsOccupied | Assets/Scripts/PuzzleGraph.cs:26-30 | marking a path with an arrow id keeps every occupied cell occupied |
| Puzzle.PuzzleGraph.InitGrid | Assets/Scripts/PuzzleGraph.cs:56-59 | a fresh W×H grid with every cell free |
| Puzzle.PuzzleGraph.Attempt | Assets/Scripts/PuzzleGraph.cs:63-78 | stops exactly when the density is reached or no cell is free; otherwise picks a free start cell (in inside mode one of small centre rank), and arrow i is kept exactly when it grows a segment (length at least 1, start with a free neighbour) and no cycle is reachable from it after every list is recomputed; a growing arrow is `GrownBy` the rolls (exactly `ArrowOf` them, shorter than length+1 only when stuck); a kept arrow is exactly that one on the marked grid; otherwise grid, table, lists and counter are unchanged; the step is `Advances` from the old state; the invariants hold |
| Puzzle.PuzzleGraph.TryFreeCell | Assets/Scripts/PuzzleGraph.cs:67-78 | stops exactly when no cell is free; otherwise the same as Attempt from the chosen free cell: a growing arrow is `GrownBy` the rolls, a kept arrow is exactly the grown one on the marked grid, and a discarded one leaves grid, table, lists and counter unchanged |
| Puzzle.PuzzleGraph.PlaceArrow | Assets/Scripts/PuzzleGraph.cs:70-78 | the arrow is kept exactly when it grows a segment and no cycle is reachable from it in the recomputed graph; then exactly that arrow is added; a growing arrow is `GrownBy` the rolls (exactly `ArrowOf` them, 2 … length+1 free cells from the start, shorter only when stuck); otherwise nothing changes; lists stay current and cycle-free |
| Puzzle.PuzzleGraph.KeepIfAcyclic | Assets/Scripts/PuzzleGraph.cs:74-78 | keeps the new arrow exactly when no cycle is reachable from it once every list is recomputed, and otherwise restores grid, table, lists and counter |
| Puzzle.PuzzleGraph.Discard | Assets/Scripts/PuzzleGraph.cs:77 | deleting a rejected arrow restores grid, table, lists and counter exactly |
| Puzzle.PuzzleGraph.ChooseStartPoint | Assets/Scripts/PuzzleGraph.cs:93-142 | None exactly when no cell is free; otherwise a free cell, and in inside mode one with at most min(20, n/2) − 1 free cells strictly nearer the centre |
| Puzzle.PuzzleGraph.FreeList | Assets/Scripts/PuzzleGraph.cs:119-129 | lists exactly the free cells, each once |
| Puzzle.PuzzleGraph.GenerateArrow | Assets/Scripts/PuzzleGraph.cs:149-175 | −1 exactly when the start is taken, the length is below 1 or the start has no free neighbour, and then nothing changes; otherwise the arrow id, whose arrow is `GrownBy` the rolls: exactly `ArrowOf` them, 2 … length+1 cells from the start on free cells, shorter only when the end is stuck, marked and counted |
| Puzzle.PuzzleGraph.Withdraw | Assets/Scripts/PuzzleGraph.cs:168-172 | deleting an undrawable arrow restores grid, table and counter, and the lists when they were current |
| Puzzle.PuzzleGraph.SpawnArrow | Assets/Scripts/PuzzleGraph.cs:162-168 | grows the arrow and enters it with an empty list; the entered arrow is exactly `ArrowOf` the attempt's rolls and start; DrawArrow accepts it (at least two cells) exactly when the length is at least 1 and the start has a free neighbour |
| Puzzle.PuzzleGraph.AllUnvisited | Assets/Scripts/PuzzleGraph.cs:189-192 | a mark for every live arrow, all unvisited |
| Puzzle.PuzzleGraph.Validate | Assets/Scripts/PuzzleGraph.cs:180-194 | every list becomes current, and the answer is true exactly when no cycle is reachable from the new arrow |
| Puzzle.PuzzleGraph.ClearArrows | Assets/Scripts/PuzzleGraph.cs:249-254 | both tables are empty and the counter is zero |
| Puzzle.Arrow.InitializeArrow | Assets/Scripts/Arrow.cs:24-37 | the arrow has no cells, a length in the configured range and a cardinal direction |
| Puzzle.Arrow.CandidateDirs | Assets/Scripts/Arrow.cs:47-62 | straight on is legal exactly when that neighbour is free and in bounds; the turns are exactly the other free in-bounds neighbours, each once, in up, right, down, left order; both empty exactly when the end is stuck |
| Puzzle.Arrow.ScanNeighbours | Assets/Scripts/Arrow.cs:49-62 | the loop over the four directions notes straight on exactly when its neighbour is free and in bounds, and collects the turns in up, right, down, left order |
| Puzzle.Arrow.Extend | Assets/Scripts/Arrow.cs:67-75 | turns to the picked candidate when the roll says so or straight on is closed, then appends and marks the next cell, changing no other grid cell; the path stays well-formed |
| Puzzle.Arrow.StepTo | Assets/Scripts/Arrow.cs:72-75 | takes the given free cardinal step: the heading becomes it, exactly its neighbour is appended and marked, and the counter rises by one |
| Puzzle.Arrow.GrowOnce | Assets/Scripts/Arrow.cs:46-75 | grows exactly when the end has a free in-bounds neighbour; then the heading is the one `StepDir` picks from this step's turn roll and pick, exactly the neighbour that way is appended and marked, and the counter rises by one; otherwise path, heading, grid and counter are unchanged |
| Puzzle.Arrow.GrowAt | Assets/Scripts/Arrow.cs:46-75 | one pass of the growth loop at step i: the rest of the growth (`GrowPath` from step i) is the growth from step i+1 on the new state when it grew, and the path as it stands when the end was stuck |
| Puzzle.StepOpen | Assets/Scripts/Arrow.cs:65-74 | from an end that is not stuck, the heading picked by the step rule is cardinal and leads to a free in-bounds cell |
| Puzzle.GrowPathStops | Assets/Scripts/Arrow.cs:44-65 | growth past the last step, or from a stuck end, leaves the path and heading as they are |
| Puzzle.GrowPathStep | Assets/Scripts/Arrow.cs:44-75 | growth from an end that is not stuck takes the picked step onto a free cell and continues from the next step on the marked grid |
| Puzzle.GrowPathExtends | Assets/Scripts/Arrow.cs:44-76 | growth from step i keeps the existing path as a prefix and adds at most length − i + 1 cells |
| Puzzle.Arrow.Plant | Assets/Scripts/Arrow.cs:41-43 | the path is the start cell, marked (no other grid cell changes) and counted |
| Puzzle.Arrow.GrowSteps | Assets/Scripts/Arrow.cs:44-76 | the loop over steps 1 … length produces exactly `GrowPath` from the planted start, with step i using turn roll i and pick i; it keeps the path well-formed on free cells, counts each added cell, adds at most length cells, and stops short only when the end is stuck |
| Puzzle.Arrow.GenerateArrow | Assets/Scripts/Arrow.cs:39-78 | the path and heading are exactly `GrownFrom` of the start, initial heading, length and the per-step rolls; a well-formed path from the start over free cells, each marked once and counted; at most length+1 cells, shorter only when the end is stuck; at least two cells exactly when the length is at least 1 and the start has a free neighbour |
| Puzzle.Arrow.OnPointerClick | Assets/Scripts/Arrow.cs:121-127 | a blocked arrow changes nothing; otherwise it is deleted; with current lists it goes exactly when nothing lies ahead, and the lists stay current and cycle-free |

## Left out

- CheckBlock's ray cast uses Unity physics against the arrows' edge colliders. It is replaced by the grid walk described above.
  - RaycastAll reports one hit per collider, while the model lists an arrow once per cell its ray meets.
  - The set of listed ids, whether a list is empty, and the search's answer are the same either way.
  - The 0.1-cell origin offset and the hit geometry of collider segments are not modelled.
- Unity's Destroy is deferred, so in the engine a just-deleted arrow's collider may still be hit by a ray cast in the same frame. The model assumes a deleted arrow vanishes at once.
- Rendering (LineRenderer, prefab activation, Atan2 rotation) is not part of this model.
- The camera, the ArrowPuzzleGame singleton, the settings UI and the editor button are not part of this model. Of ArrowPuzzleGame.cs only the GenData record is kept.
- The turn probability `_turnProb` is a float drawn per arrow. The model does not draw it; the outcome of each `turnRoll <= _turnProb` comparison is an oracle boolean. `roll <= FromInsideProb` is treated the same way.
- The density test is compared on exact rationals. A float32 rounding difference at the exact boundary is not modelled.
- Puzzle.PuzzleGraph.ChooseStartPoint: the free cells are sorted by a stable insertion sort. The source's List.Sort may order equally distant cells differently. The contract states only what holds for every tie order: a free cell, and in inside mode its rank bound. It does not state which cell a given roll selects.
- The arrow table stores each arrow's cells and direction as a value, not a reference to the Arrow object. The source never changes an arrow after it is entered, so no aliasing is lost.
- The search's visited dictionary is passed by value and returned. The source mutates one shared dictionary; the marks are the same.
- Puzzle.PuzzleGraph.GenerateArrow requires that the attempt number is not already a live id. GeneratePuzzle guarantees this, since kept ids are earlier attempt numbers. The source would overwrite an existing entry.
- Puzzle.PuzzleGraph.GeneratePuzzle returns a ghost trace of snapshots and the choices of each attempt instead of `this`.
- Puzzle.PuzzleGraph.GeneratePuzzle reuses the arrow table and the counter as ClearArrows leaves them. There is no model of "the tables were never created" (the source's null checks in ClearArrows).
- IsArrowBlock and DeleteArrow require their id to be present, as the source's dictionary lookups do. A missing key would throw in the source.
- SampleLength / InitializeArrow: the length range they promise is computed with an unbounded `MaxArrowLength + 1`. Arrow.cs:34 computes that bound as a 32-bit `int`, which wraps to int.MinValue when MaxArrowLength is int.MaxValue. The settings screen accepts that value, since SetMaxArrowLength (Assets/Scripts/PuzzleGameUI.cs:152-159) only checks `l >= MinArrowLength`. The wrapped form is SampleLengthAsWritten, and the discrepancy is listed under Findings. The rest of the model uses the intended, unwrapped bound.
- Rng.RangeInt: it returns `lo` for a reversed range (`hi < lo`). What Unity's integer Random.Range draws for a reversed range is not modelled. A reversed length range arises only from the wrap above, or from MaxArrowLength < MinArrowLength − 1, which SetMinArrowLength and SetMaxArrowLength (Assets/Scripts/PuzzleGameUI.cs:143-159) never produce from the defaults 1 and 7.

## Findings

| source | as written | input that shows it | evidently intended | confidence | as-written member | corrected member |
|---|---|---|---|---|---|---|
| Assets/Scripts/Arrow.cs:34 | the exclusive bound `MaxArrowLength + 1` is an unchecked `int` sum | MinArrowLength = 1, MaxArrowLength = 2147483647: the bound becomes −2147483648, so Random.Range gets a reversed range and the draw no longer covers [1, 2147483647] (what Unity draws for a reversed range is not modelled; the model returns 1) | a length drawn from [MinArrowLength, MaxArrowLength] inclusive | not executed | Puzzle.SampleLengthAsWritten, Puzzle.LengthBoundWraps | Puzzle.SampleLength |
