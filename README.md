# Sudoku deduction solver, modelled in Dafny

This project models the solving engine of a small Java Sudoku program:
- the solver class `SudokuSolver`;
- the grid class `Sudoku` it works on;
- the `Coordinate` key of its candidate store.

The solver keeps one candidate set per cell (`fieldPossible`) and one assignment primitive (`setValue`). `setValue` writes the grid and removes the value from the cell's row, column and block. Each round it runs:
- `singlePossibility`, which fills every cell that has one candidate;
- `singles` (hidden singles) on all 27 units;
- when the grid did not change, `twins` (hidden pairs), then `slings` (naked subsets), each on all 27 units.

The driver `solve` runs at most 81 rounds and stops once the grid is full.

Layout, one module per file:

| file | module | models |
|---|---|---|
| coordinate.dfy | `Coordinates` | `Coordinate` and the order its `compareTo` induces |
| units.dfy | `Units` | block arithmetic (`coordsToBlock`, block ranges), the 27 units, peers |
| sudoku.dfy | `Grids` | class `Sudoku` over a 9x9 `array2`, with a ghost grid value `cells` |
| occurrences.dfy | `Occurrences` | a unit as a group of nine candidate sets; occurrence counts |
| singles.dfy | `SinglesTechnique` | `singles`: a reference function and the loop proved against it |
| twins.dfy | `TwinsTechnique` | `twins`: a reference function and the loops proved against it |
| slings.dfy | `SlingsTechnique` | `slings` and `slingsRecursive` |
| candidates.dfy | `Candidates` | the candidate store, unit views, `setValue`'s effect, the invariant, `prepareSolve` and `singlePossibility` as functions |
| rounds.dfy | `Solving` | one round, up to 81 rounds, and what `solve` computes |
| solver.dfy | `Solver` | class `SudokuSolver` with the source's fields and methods |

How the model is built:
- Stateful code stays imperative. `SudokuSolver` has the fields `sudoku`, `startSudoku`, `solved` and `fieldPossible`, and `Sudoku` keeps its `values` array.
- Each method is proved against a function of the old state (`Assign`, `WriteUnit`, `AllGroups`, `PassUpTo`, `Round`, `Rounds`, `Solution`).
- Lemmas about those functions state what the source promises:
  - candidates only shrink;
  - the solver's invariant `Consistent` holds throughout;
  - placed values are kept;
  - no conflict is introduced.
- Some nested loops of the source are written as a method per loop level, each with its own contract: for example `PrepareRows` / `PrepareRow` / `PrepareAt` for the second double loop of `prepareSolve`, and `SinglePossibility` / `SinglePossibilityInRow` / `SinglePossibilityAt`. Others stay as nested loops in one method: `CheckSolved`, `FillAll`, `GetBlockPossibilities`, `Sudoku.Equals` and `Sudoku.Clone`. Either way the loop order is the source's.

Where the code and its own comments disagree, the model follows the code:
- Cells are keyed `Coordinate(row, col)`, so x is the row.
- `Sudoku` is indexed `values[row][col]`, even though its field comment says `[col][row]`.
- `compareTo` orders descending on x, then descending on y.
- `prepareSolve` first gives every cell all nine candidates and then calls `setValue` on each filled cell in row-major order. It does not set filled cells to the empty set directly. The resulting store is the same (`Candidates.Initial`).

Iteration order of the source's `HashMap`/`HashSet` over small `Integer` keys is modelled as ascending key order. Only `twins` depends on it: a cell rewritten by several pairs keeps the pair visited last, with `val` and then `twinVal` ascending over the keys of `fields`.

In `singles` the order of the map does not matter, because each field is rewritten on its own. Values are visited by an explicit loop over 1..9 against the group as already rewritten, so a cell holding two hidden singles keeps the smaller one.

## Model

| member | source | states |
|---|---|---|
| Coordinates.Coordinate.CompareTo | src/sudoku/Coordinate.java:48-66 | the result is always -1, 0 or 1, and it is 0 exactly when both coordinates are equal |
| Coordinates.AccessorsReturnComponents | src/sudoku/Coordinate.java:19-38 | `getX`/`getY` return the x and y given to the constructor |
| Coordinates.CompareToAntisymmetric | src/sudoku/Coordinate.java:48-66 | `a.compareTo(b) == -b.compareTo(a)` for all coordinates |
| Coordinates.BeforeIsDescending | src/sudoku/Coordinate.java:53-64 | a sorts before b exactly when a.x > b.x, or the x are equal and a.y > b.y |
| Coordinates.BeforeIsTransitive | src/sudoku/Coordinate.java:48-66 | the order induced by `compareTo` is transitive |
| Coordinates.BeforeIsStrictTotalOrder | src/sudoku/Coordinate.java:48-66 | the order is irreflexive, transitive, asymmetric and total on distinct keys, so it is fit as a `TreeMap` key order |
| Units.CoordsToBlock | src/sudoku/solver/SudokuSolver.java:206-208 | for row and col in 0..8 the block is in 0..8, and its row range `(block/3)*3..+3` and column range `(block%3)*3..+3` contain (row, col) |
| Units.BlockRowStart | src/sudoku/solver/SudokuSolver.java:171 | the first row of a block 0..8 is between 0 and 6 |
| Units.BlockColStart | src/sudoku/solver/SudokuSolver.java:170 | the first column of a block 0..8 is between 0 and 6 |
| Units.InBlockRangeIffSameBlock | src/sudoku/solver/SudokuSolver.java:169-177 | a cell lies in the ranges `setValue` scans for a block exactly when `coordsToBlock` puts it in that block |
| Units.BlockCell | src/sudoku/solver/SudokuSolver.java:476-482 | block index i is the cell (rowStart + i/3, colStart + i%3), a grid cell of that block |
| Units.PosInBlock | src/sudoku/solver/SudokuSolver.java:476-482 | every grid cell has a block index that leads back to it |
| Units.PosInBlockOffset | src/sudoku/solver/SudokuSolver.java:490-497 | inside its block, a cell's index counts row-major from the block's top-left corner |
| Units.RowMajor | src/sudoku/solver/SudokuSolver.java:136-144 | visit n of a row-then-column double loop is the cell with 9 * row + col == n, a grid cell when n < 81 |
| Units.RowMajorOf | src/sudoku/solver/SudokuSolver.java:136-144 | every grid cell is visited, at number 9 * row + col |
| Units.UnitCell | src/sudoku/solver/SudokuSolver.java:247-270 | position k of unit u (rows 0..8, columns 9..17, blocks 18..26) is a grid cell of that unit at that position |
| Units.PosInUnit | src/sudoku/solver/SudokuSolver.java:433-485 | a cell's position in a unit it belongs to is in 0..8 |
| Units.UnitCellOfPos | src/sudoku/solver/SudokuSolver.java:433-485 | the position of a unit's cell leads back to that cell |
| Units.UnitsPartitionCells | src/sudoku/solver/SudokuSolver.java:247-270 | each cell lies in exactly one row unit, one column unit and one block unit |
| Grids.EmptyGrid | src/sudoku/Sudoku.java:13 | the blank grid is a 9x9 grid of zeros |
| Grids.Sudoku.constructor | src/sudoku/Sudoku.java:29-31 | the grid keeps the caller's array as its storage and reads back exactly its values |
| Grids.Sudoku.Blank | src/sudoku/Sudoku.java:36-38 | a blank grid reads 0 everywhere and has storage of its own |
| Grids.Sudoku.SetVal | src/sudoku/Sudoku.java:52-54 | cell (row, col) becomes val and every other cell keeps its value |
| Grids.Sudoku.Empty | src/sudoku/Sudoku.java:59-61 | afterwards every cell reads 0, over storage of its own |
| Grids.Sudoku.EmptyOnto | src/sudoku/Sudoku.java:59-61 | `empty` as written: the grid's storage becomes the shared blank array itself |
| Grids.Sudoku.GetVal | src/sudoku/Sudoku.java:72-74 | returns the value of cell (row, col), in 0..9 |
| Grids.Sudoku.Equals | src/sudoku/Sudoku.java:103-119 | true exactly when the argument is a `Sudoku` whose 81 values all coincide, false for any other object |
| Grids.Sudoku.Clone | src/sudoku/Sudoku.java:122-136 | a new grid over a new array, with the same values |
| Grids.SameCellsIffEqual | src/sudoku/Sudoku.java:107-113 | two grids are equal exactly when all 81 cells agree |
| Grids.EqualsIsReflexiveAndSymmetric | src/sudoku/Sudoku.java:103-119 | `a.equals(a)` holds and `a.equals(b) == b.equals(a)` |
| Grids.CloneIsIndependent | src/sudoku/Sudoku.java:122-136 | for any cell: a write to the clone leaves the original's cell as it was, a later write to the original leaves the clone as it was, and each grid is its old grid with only its own write applied |
| Grids.SharedBlankLeaks | src/sudoku/Sudoku.java:36-38 | as written, a value set in one blank grid is read back from a grid built blank later, and from a grid emptied later |
| Grids.FreshBlankIsIndependent | src/sudoku/Sudoku.java:36-38 | with fresh storage per blank grid, after a write to any cell of one blank grid, a grid made blank before it, one made blank after it and the written grid once emptied are all the whole empty grid |
| Occurrences.Cells | src/sudoku/solver/SudokuSolver.java:324-338 | exactly the positions whose candidates contain v, strictly ascending |
| Occurrences.CountOccurrences | src/sudoku/solver/SudokuSolver.java:277-283 | entry v of the table is the number of cells of the group where v is possible |
| Occurrences.AddCell | src/sudoku/solver/SudokuSolver.java:279-282 | each candidate of one cell is counted once more, and no other entry changes |
| Occurrences.CountOfLonger | src/sudoku/solver/SudokuSolver.java:278-283 | one more cell adds one to the count of exactly its candidates |
| SinglesTechnique.LeastHiddenSingle | src/sudoku/solver/SudokuSolver.java:286-297 | returns 0, or the least value below hi that is in the cell and possible in exactly one cell of the group; it is 0 only when there is none |
| SinglesTechnique.SinglesOf | src/sudoku/solver/SudokuSolver.java:275-300 | the group keeps its size and every cell only loses candidates |
| SinglesTechnique.SinglesOfMeaning | src/sudoku/solver/SudokuSolver.java:275-300 | a cell holding no hidden single is unchanged; a cell holding hidden singles becomes exactly {v} for the least of them |
| SinglesTechnique.CollapsedStep | src/sudoku/solver/SudokuSolver.java:286-297 | processing value v rewrites a cell to {v} only when v is a hidden single still present in it |
| SinglesTechnique.Singles | src/sudoku/solver/SudokuSolver.java:275-300 | the loops compute exactly `SinglesOf` of the group |
| SinglesTechnique.CollapseOnto | src/sudoku/solver/SudokuSolver.java:289-295 | for a value counted once, every cell still holding it becomes {v}, and the others are kept |
| TwinsTechnique.PairOfVisit | src/sudoku/solver/SudokuSolver.java:341-342 | the pair (val, twinVal) is visit (val-1)*9 + (twinVal-1) of the 81 |
| TwinsTechnique.LastWrite | src/sudoku/solver/SudokuSolver.java:353-354 | the last of the first n visits that writes, or -1; no later visit writes |
| TwinsTechnique.TwinCellStep | src/sudoku/solver/SudokuSolver.java:343-355 | visiting (a, b) sets cell i to {a, b} exactly when a and b are twins possible in i, and otherwise keeps it |
| TwinsTechnique.TwinsOf | src/sudoku/solver/SudokuSolver.java:306-361 | the group keeps its size and every cell only loses candidates |
| TwinsTechnique.TwinsOfMeaning | src/sudoku/solver/SudokuSolver.java:306-361 | a cell in no twin pair is unchanged; a rewritten cell equals {a, b} for a twin pair holding it; a cell in exactly one pair becomes that pair |
| TwinsTechnique.Twins | src/sudoku/solver/SudokuSolver.java:306-361 | the loops compute exactly `TwinsOf` of the group |
| TwinsTechnique.TwinsDone | src/sudoku/solver/SudokuSolver.java:341-358 | after all 81 visits the group is `TwinsOf` |
| TwinsTechnique.VisitPairsWith | src/sudoku/solver/SudokuSolver.java:342-357 | the inner pair loop performs the nine visits (val, 1..9) |
| TwinsTechnique.VisitPair | src/sudoku/solver/SudokuSolver.java:343-356 | one visit: comparing the two field lists decides exactly the twin condition |
| TwinsTechnique.CollectFields | src/sudoku/solver/SudokuSolver.java:324-338 | every twice-occurring value maps to its two cells in ascending order, and no other value is a key |
| TwinsTechnique.AddField | src/sudoku/solver/SudokuSolver.java:326-337 | field f is appended to the list of exactly the values of `twices` it can hold |
| TwinsTechnique.CellsOfLonger | src/sudoku/solver/SudokuSolver.java:325-338 | one more cell appends its position to the lists of exactly its candidates |
| SlingsTechnique.OpenFields | src/sudoku/solver/SudokuSolver.java:370-375 | ascending positions, holding exactly the cells with a non-empty candidate set |
| SlingsTechnique.CollectOpenFields | src/sudoku/solver/SudokuSolver.java:370-375 | the loop collects exactly `OpenFields` |
| SlingsTechnique.Combinations | src/sudoku/solver/SudokuSolver.java:401-427 | the reference for slingsRecursive: every key extends the fields chosen so far and its union extends their candidates (its exact keys and values are `CombinationsMeaning`) |
| SlingsTechnique.SlingsRecursive | src/sudoku/solver/SudokuSolver.java:401-427 | the recursion builds exactly the combinations map `Combinations` |
| SlingsTechnique.AddedBy | src/sudoku/solver/SudokuSolver.java:407-424 | each entry of the result was added by some iteration, with that iteration's value |
| SlingsTechnique.Kept | src/sudoku/solver/SudokuSolver.java:407-424 | an entry added by an iteration stays in the result |
| SlingsTechnique.SplitAt | src/sudoku/solver/SudokuSolver.java:421-422 | the fields after position j are the remaining fields without fs[j], still ascending and disjoint from the chosen ones |
| SlingsTechnique.ExtendLast | src/sudoku/solver/SudokuSolver.java:415-418 | with one field left to choose, iteration j adds exactly the choice of fs[j] with its candidates |
| SlingsTechnique.ExtendFurther | src/sudoku/solver/SudokuSolver.java:419-423 | with more to choose, iteration j adds fs[j] to every choice from the later fields, with the union of candidates |
| SlingsTechnique.ExtendMeaning | src/sudoku/solver/SudokuSolver.java:407-424 | iteration j yields exactly the size-k choices from fs[j..] that include fs[j], each mapped to cp plus their candidates |
| SlingsTechnique.CombinationsMeaning | src/sudoku/solver/SudokuSolver.java:401-427 | the keys are exactly the ways of adding k of the fields to ci, each mapped to cp plus the union of the added cells' candidates |
| SlingsTechnique.FirstChosen | src/sudoku/solver/SudokuSolver.java:407 | a non-empty choice of fields has a first chosen field, and the rest lie after it |
| SlingsTechnique.ElemsCard | src/sudoku/solver/SudokuSolver.java:407 | a list of fields names at most as many fields as its length |
| SlingsTechnique.ChoicesOfFields | src/sudoku/solver/SudokuSolver.java:381 | started from nothing, the keys are exactly the size-k subsets of the open fields, each mapped to the union of their candidates |
| SlingsTechnique.Prune | src/sudoku/solver/SudokuSolver.java:384-395 | every cell only loses candidates |
| SlingsTechnique.SlingsUpTo | src/sudoku/solver/SudokuSolver.java:379-396 | every cell only loses candidates, and cells with no candidates are never touched |
| SlingsTechnique.SlingStepMeaning | src/sudoku/solver/SudokuSolver.java:379-396 | for size k, an open cell loses v exactly when v is in the union of some k open cells with exactly k values that do not include it; other cells are kept |
| SlingsTechnique.RemovedStep | src/sudoku/solver/SudokuSolver.java:384-395 | handling one more combination removes its union from the cells outside it exactly when the union has size k |
| SlingsTechnique.RemovedNothing | src/sudoku/solver/SudokuSolver.java:384 | before any combination is handled, no cell has lost anything |
| SlingsTechnique.SlingsOf | src/sudoku/solver/SudokuSolver.java:368-399 | the reference for slings: the group keeps its size, cells only lose candidates, and cells without candidates stay without (what is removed is `SlingStepMeaning`) |
| SlingsTechnique.Slings | src/sudoku/solver/SudokuSolver.java:368-399 | the loops compute exactly `SlingsOf` of the group |
| SlingsTechnique.RemoveSlings | src/sudoku/solver/SudokuSolver.java:384-395 | the loop over the combinations, in any order, removes exactly what `Prune` removes |
| SlingsTechnique.RemoveFromOthers | src/sudoku/solver/SudokuSolver.java:387-393 | the open fields outside the chosen cells lose the union's values, and every other cell is kept |
| Candidates.AllCells | src/sudoku/solver/SudokuSolver.java:129-133 | exactly the 81 grid coordinates |
| Candidates.ShrinkingKeepsConsistent | src/sudoku/solver/SudokuSolver.java:26-28 | taking candidates away never breaks the solver's invariant |
| Candidates.Assign | src/sudoku/solver/SudokuSolver.java:156-177 | the cell loses all candidates, every other cell of its row, column and block loses val, other cells are kept, and nothing grows |
| Candidates.Place | src/sudoku/solver/SudokuSolver.java:180 | cell c of the grid becomes v and every other cell is kept |
| Candidates.AssignKeepsConsistent | src/sudoku/solver/SudokuSolver.java:156-181 | setting an empty cell to one of its candidates keeps the invariant and every placed value, and adds no conflict |
| Candidates.ReadUnit | src/sudoku/solver/SudokuSolver.java:433-485 | the unit's nine candidate sets, by position, all within 0..9 when the store is |
| Candidates.WriteUnit | src/sudoku/solver/SudokuSolver.java:445-498 | each cell of the unit gets the group's set at its position, and cells outside the unit are kept |
| Candidates.ReadAfterWrite | src/sudoku/solver/SudokuSolver.java:445-468 | reading a unit back after writing it gives the group written |
| Candidates.WriteWhatWasRead | src/sudoku/solver/SudokuSolver.java:433-468 | writing back a unit's own group changes nothing |
| Candidates.WriteShrinks | src/sudoku/solver/SudokuSolver.java:252-254 | writing back a group whose sets lie within the ones read only shrinks the store |
| Candidates.Apply | src/sudoku/solver/SudokuSolver.java:247-253 | each technique keeps the group's size and only shrinks its cells |
| Candidates.AllGroups | src/sudoku/solver/SudokuSolver.java:247-270 | the store stays full, and candidates stay within 1..9 |
| Candidates.AllGroupsShrinks | src/sudoku/solver/SudokuSolver.java:247-270 | a pass of a technique over units 0..n-1 only removes candidates |
| Candidates.AllGroupsStep | src/sudoku/solver/SudokuSolver.java:251-255 | unit n is read, transformed and written after units 0..n-1 |
| Candidates.AllGroupsWithinDigits | src/sudoku/solver/SudokuSolver.java:247-270 | a pass never adds a candidate outside 1..9 |
| Candidates.AllGroupsKeepsConsistent | src/sudoku/solver/SudokuSolver.java:247-270 | a pass of a technique over all 27 units keeps the invariant |
| Candidates.Prepared | src/sudoku/solver/SudokuSolver.java:136-144 | the store is full |
| Candidates.Initial | src/sudoku/solver/SudokuSolver.java:121-145 | after prepareSolve a filled cell has no candidates and an empty one has 1..9 minus the values of its filled peers |
| Candidates.PreparedStart | src/sudoku/solver/SudokuSolver.java:129-133 | a store giving every cell 1..9 is the state before the second double loop |
| Candidates.PeerValuesBeforeStep | src/sudoku/solver/SudokuSolver.java:136-144 | passing a cell adds its value to exactly its peers' seen values |
| Candidates.PreparedStep | src/sudoku/solver/SudokuSolver.java:137-143 | visiting cell n applies setValue's effect when the cell is filled and nothing otherwise |
| Candidates.InitialConsistent | src/sudoku/solver/SudokuSolver.java:121-145 | after prepareSolve the invariant holds: candidates within 1..9, none on filled cells, no peer of a filled cell keeps its value |
| Candidates.PassStart | src/sudoku/solver/SudokuSolver.java:229 | before any cell is visited the pass's guarantees hold trivially |
| Candidates.SubsetOfSingleton | src/sudoku/solver/SudokuSolver.java:233 | a cell that had one candidate has that one or none |
| Candidates.NextBefore | src/sudoku/solver/SudokuSolver.java:230-231 | visit n - 1 is the only cell between the first n - 1 and the first n |
| Candidates.PassSkip | src/sudoku/solver/SudokuSolver.java:233 | skipping a cell without exactly one candidate keeps the pass's guarantees |
| Candidates.PassSet | src/sudoku/solver/SudokuSolver.java:233-238 | setting a cell to its only candidate keeps the pass's guarantees; the cell was empty and the value is in 1..9 |
| Candidates.Only | src/sudoku/solver/SudokuSolver.java:234-235 | the one element of a one-element set |
| Candidates.PassUpTo | src/sudoku/solver/SudokuSolver.java:229-241 | the grid stays a grid, the store stays full and within 1..9 |
| Candidates.PassUpToSkip | src/sudoku/solver/SudokuSolver.java:233 | a cell without exactly one candidate leaves the pass's state as it was |
| Candidates.PassUpToSet | src/sudoku/solver/SudokuSolver.java:233-238 | a cell whose only candidate is v is set to v through setValue's effect |
| Candidates.PassMeaningStep | src/sudoku/solver/SudokuSolver.java:231-239 | one visit keeps the pass's guarantees |
| Candidates.PassMeaning | src/sudoku/solver/SudokuSolver.java:229-241 | after n visits: invariant kept, candidates only shrink, placed values kept, no new conflict, only visited cells changed and each to one of its candidates, and visited single-candidate cells cleared |
| Candidates.PassKeeps | src/sudoku/solver/SudokuSolver.java:229-241 | a whole singlePossibility pass keeps the invariant and every placed value, and adds no conflict |
| Candidates.ExtendsTransitive | src/sudoku/solver/SudokuSolver.java:77-98 | keeping placed values composes across steps |
| Solving.CheapPart | src/sudoku/solver/SudokuSolver.java:83-86 | singlePossibility then singles yields a grid and a full store within 1..9 |
| Solving.ExpensivePart | src/sudoku/solver/SudokuSolver.java:89-94 | twins then slings yield a full store within 1..9 |
| Solving.Round | src/sudoku/solver/SudokuSolver.java:80-95 | a round yields a grid and a full store within 1..9 |
| Solving.Rounds | src/sudoku/solver/SudokuSolver.java:77-98 | any number of rounds yields a grid and a full store within 1..9 |
| Solving.Solution | src/sudoku/solver/SudokuSolver.java:72-102 | what solve computes is a grid with a full store within 1..9 |
| Solving.CheapPartKeeps | src/sudoku/solver/SudokuSolver.java:83-86 | singlePossibility then singles keeps the invariant and placed values, and adds no conflict |
| Solving.ExpensivePartKeeps | src/sudoku/solver/SudokuSolver.java:89-94 | twins then slings keep the invariant |
| Solving.RoundKeeps | src/sudoku/solver/SudokuSolver.java:80-95 | a round keeps the invariant and placed values, and adds no conflict |
| Solving.RoundsKeep | src/sudoku/solver/SudokuSolver.java:77-98 | any number of rounds keeps the invariant and placed values, and adds no conflict |
| Solving.SolutionKeeps | src/sudoku/solver/SudokuSolver.java:72-102 | solve keeps every given, never introduces a conflict into a conflict-free grid, and ends with candidates agreeing with its grid |
| Solving.ReachesOf | src/sudoku/solver/SudokuSolver.java:77 | ending on b after r rounds is reaching b in r rounds |
| Solving.RoundsNext | src/sudoku/solver/SudokuSolver.java:77-98 | after one round on a non-full grid, one round fewer reaches the same end |
| Solving.RoundsDone | src/sudoku/solver/SudokuSolver.java:77 | when no round is left or the grid is full, the end is the current state |
| Solver.ApplyTechnique | src/sudoku/solver/SudokuSolver.java:86-93 | running the technique handed to attemptOnAllGroups computes its reference function |
| Solver.SudokuSolver.constructor | src/sudoku/solver/SudokuSolver.java:41-52 | the solver works on a fresh copy of s over a fresh array, keeps s as the start grid, has no candidates yet, and `solved` says whether the grid is full |
| Solver.SudokuSolver.FromArray | src/sudoku/solver/SudokuSolver.java:61-63 | the start grid is built over the given array, and the solver works on a fresh copy of it over a fresh array |
| Solver.SolveGrid | src/sudoku/solver/SudokuSolver.java:534-536 | a solver built for g can be solved: its grid ends as `Solution` of g, g is its start grid and is not modified (the method modifies nothing that existed before), and the result is true exactly when the grid is full |
| Solver.SudokuSolver.IsSolved | src/sudoku/solver/SudokuSolver.java:110-112 | returns the `solved` flag; while the flag is kept as `CheckSolved` sets it, it is true exactly when every cell is non-zero |
| Solver.SudokuSolver.CheckSolved | src/sudoku/solver/SudokuSolver.java:186-196 | `solved` becomes true exactly when every cell is non-zero; nothing else changes |
| Solver.SudokuSolver.SetValue | src/sudoku/solver/SudokuSolver.java:156-181 | the grid gets val at (row, col) and the store becomes `Assign`: the cell's candidates are cleared and val leaves its row, column and block |
| Solver.SudokuSolver.PrepareSolve | src/sudoku/solver/SudokuSolver.java:121-145 | the grid is unchanged and the store becomes `Initial` of the grid |
| Solver.SudokuSolver.PrepareRows | src/sudoku/solver/SudokuSolver.java:136-144 | the second double loop takes the store from `Prepared(g, 0)` to `Prepared(g, 81)` and leaves the grid as it was |
| Solver.SudokuSolver.PrepareRow | src/sudoku/solver/SudokuSolver.java:137-143 | one row of that loop advances the store by nine cells |
| Solver.SudokuSolver.PrepareAt | src/sudoku/solver/SudokuSolver.java:138-142 | one cell: a filled cell is set again with its own value, which advances the store by one cell |
| Solver.SudokuSolver.SinglePossibility | src/sudoku/solver/SudokuSolver.java:229-241 | the grid and store become the state `PassUpTo` gives after all 81 cells |
| Solver.SudokuSolver.SinglePossibilityInRow | src/sudoku/solver/SudokuSolver.java:231-239 | one row of the pass advances it by nine cells |
| Solver.SudokuSolver.SinglePossibilityAt | src/sudoku/solver/SudokuSolver.java:232-238 | a cell with one candidate is set to it, and any other cell is skipped |
| Solver.SudokuSolver.GetRowPossibilities | src/sudoku/solver/SudokuSolver.java:453-460 | returns the row's nine candidate sets by column |
| Solver.SudokuSolver.SetRowPossibilities | src/sudoku/solver/SudokuSolver.java:465-468 | the row takes the group, and every other cell and field is kept |
| Solver.SudokuSolver.GetColPossibilities | src/sudoku/solver/SudokuSolver.java:433-440 | returns the column's nine candidate sets by row |
| Solver.SudokuSolver.SetColPossibilities | src/sudoku/solver/SudokuSolver.java:445-448 | the column takes the group, and every other cell and field is kept |
| Solver.SudokuSolver.GetBlockPossibilities | src/sudoku/solver/SudokuSolver.java:473-485 | returns the block's nine candidate sets, row-major within the block |
| Solver.SudokuSolver.SetBlockPossibilities | src/sudoku/solver/SudokuSolver.java:490-498 | the block takes the group row-major, and every other cell and field is kept |
| Solver.SudokuSolver.AttemptOnAllGroups | src/sudoku/solver/SudokuSolver.java:247-270 | the store becomes the technique applied to the 9 rows, then the 9 columns, then the 9 blocks, each on the store as already updated; the grid is untouched |
| Solver.SudokuSolver.AttemptOnRow | src/sudoku/solver/SudokuSolver.java:251-255 | one row: read, transform, write back |
| Solver.SudokuSolver.AttemptOnCol | src/sudoku/solver/SudokuSolver.java:258-262 | one column: read, transform, write back |
| Solver.SudokuSolver.AttemptOnBlock | src/sudoku/solver/SudokuSolver.java:265-269 | one block: read, transform, write back |
| Solver.SudokuSolver.Orbit | src/sudoku/solver/SudokuSolver.java:79-97 | one pass of the loop body takes grid and store to `Round` of them and records whether the grid is full |
| Solver.SudokuSolver.ExpensiveTechniques | src/sudoku/solver/SudokuSolver.java:88-95 | twins runs only when the grid equals the snapshot; since twins leaves the grid alone, slings runs exactly when twins does |
| Solver.SudokuSolver.Solve | src/sudoku/solver/SudokuSolver.java:72-102 | the grid and store end as `Solution` of the grid, the start grid is untouched, and the result is true exactly when every cell is filled |
| Solver.SudokuSolver.NextRound | src/sudoku/solver/SudokuSolver.java:77-98 | one round leaves one round fewer to reach the same end |
| Solver.SudokuSolver.RunRounds | src/sudoku/solver/SudokuSolver.java:77-98 | the loop runs rounds while fewer than 81 have run and the grid is not full, ending on `Rounds(g, m, 81)` |
| Solver.RemoveFromRowAndCol | src/sudoku/solver/SudokuSolver.java:160-166 | val leaves every cell of the row and of the column, and other cells are kept |
| Solver.RemoveFromBlock | src/sudoku/solver/SudokuSolver.java:173-177 | val leaves every cell of the block, and other cells are kept |
| Solver.WriteBlock | src/sudoku/solver/SudokuSolver.java:490-498 | each cell of the block takes the group's set at its row-major index, and other cells are kept |
| Solver.WriteBlockRow | src/sudoku/solver/SudokuSolver.java:493-496 | three cells of a row take the three sets in order, and other cells are kept |
| Solver.DigitSet | src/sudoku/solver/SudokuSolver.java:123-126 | exactly the values 1..9 |
| Solver.FillAll | src/sudoku/solver/SudokuSolver.java:129-133 | every grid cell gets the given set, and the store holds nothing else |
| Solver.SetValueStore | src/sudoku/solver/SudokuSolver.java:156-177 | the candidate updates of setValue compute exactly `Assign` |

## Left out

- Console output: the tracing `println` calls in `solve` and `slings` are left out (I/O).
- `main` and its sample puzzles are left out (I/O); its build-then-solve use of the solver is `Solver.SolveGrid`.
- `toString` of all three classes is left out (string presentation only).
- Timing: `System.nanoTime` and `getTimeNeeded` are left out (a clock and floating-point division).
- Java collection mechanics are not modelled:
  - The candidate store is a `map` value with no iteration order. The `TreeMap` is only ever read and written by key, so its order is never observed. The order itself is modelled and proved in `Coordinates`.
  - Unit views are nine-element sequences indexed by position.
  - `HashMap`/`HashSet` iteration over small integer keys is taken to be ascending.
- Aliasing: the `Function` argument of `attemptOnAllGroups` is replaced by the `Technique` datatype and `Solver.ApplyTechnique`.
- Aliasing: the candidate sets that `slings` changes in place, and that the unit views share with `fieldPossible`, are modelled as values. Every changed set is written back by the caller, and no two cells ever share one set object.
- Grids.Sudoku.Blank: models the no-argument constructor with fresh storage. The source reuses the static `emptySudoku` array; that behaviour is modelled separately and reported under Findings.
- Grids.Sudoku.Empty: models `empty` with fresh storage. The source reuses the static `emptySudoku` array; that behaviour is modelled separately by `Grids.Sudoku.EmptyOnto` and reported under Findings.
- Grids.Sudoku.Clone: the `super.clone()` call with its empty catch has no effect on the result and is left out.
- Grids.Sudoku.Equals: requires a `Sudoku` argument to be a well-formed 9x9 grid. The source's constructor documents this as a requirement on every grid.
- Solver.SudokuSolver.Solve: requires that `solved` matches the grid and that candidates are stored only for grid cells. Both hold from the constructors on and are kept by every public operation.
- `short` arithmetic: values 0..9 and indices 0..8 never approach the 16-bit limits, so widths are not modelled.
- `short[][]` storage: `Sudoku` keeps a rectangular `array2`, which cannot express ragged rows or rows shared between grids; every grid the source builds is 9x9 with rows of its own.
- Full end-to-end correctness is not claimed: no proof that a filled grid is the puzzle's unique solution, or that rounds reach a fixpoint. What is proved is soundness: givens are kept, no conflict is introduced into a conflict-free grid, and candidates stay consistent with the grid.

## Findings

| source | as written | input that shows it | evidently intended | confidence | as-written member | corrected member |
|---|---|---|---|---|---|---|
| src/sudoku/Sudoku.java:36-38 | the no-argument constructor stores the static `emptySudoku` array itself, so every blank grid shares one array | `a = new Sudoku(); a.setVal(0, 0, 5); b = new Sudoku();` then `b.getVal(0, 0)` is 5 | every new blank grid reads 0 everywhere | high, not executed | Grids.SharedBlankLeaks | Grids.Sudoku.Blank |
| src/sudoku/Sudoku.java:59-61 | `empty` points the grid at the same static array, which earlier writes through a blank grid may have changed | `a = new Sudoku(); a.setVal(0, 0, 5); c.empty();` then `c.getVal(0, 0)` is 5 | an emptied grid reads 0 everywhere | high, not executed | Grids.SharedBlankLeaks | Grids.Sudoku.Empty |
