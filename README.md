# SudokuSolver in Dafny

A model of the order-3 Sudoku grid and its solver. The solver propagates naked singles, hidden singles and naked pairs to a fixed point and then searches depth first over copies of the grid. The model keeps the program's own form:

- The set algebra of `SetOperations.h` becomes functions and small methods on Dafny sets (module `SetOperations`, `set_operations.dfy`).
- The grid `SudokuGrid` becomes a class `Grid` (module `SudokuGrid`, `sudoku_grid.dfy`).
  - Its fields are flat row-major arrays for `cell_`, `candidates_`, `rowSet_`, `columnSet_` and `blockSet_`.
  - Every method is specified by a value-level function of module `GridModel` (`grid_model.dfy`), applied to the grid's `Snapshot()`.
- The solver `SudokuSolver` becomes a class `Solver` with the source's counters and solution list (module `SudokuSolver`, `sudoku_solver.dfy`).
  - Its techniques work in place on a `Grid` through nested loops with their invariants.
  - Their contracts are stated against the value-level definitions of module `SolverModel` (`solver_model.dfy`).

The pointer views `pRow`, `pColumn` and `pBlock` become the index map `GridModel.ViewCell`. `add` throws two exceptions; the model returns them as the statuses `ValueOutOfRange` and `InvalidAssignment`.

What is proved, besides each operation doing what its code does:

- **The grid invariant.** `GridModel.Consistent` holds on a fresh grid. It is kept by loading, by `add` into an empty cell, by recomputing candidates and by every technique. It says:
  - placed values are in U and gone from their row, column and block sets;
  - no unit holds a value twice;
  - candidates are sound;
  - the counter equals the number of filled cells.
- **Solved grids.** A solved consistent grid has every value of U exactly once in every row, column and block.
- **Propagation.** Every technique only refines the grid, and keeps every solution the grid still admits (naked single, hidden single, naked pair). The propagation loop ends:
  - every turn that goes on either fills a cell or removes a candidate;
  - when it stops, no technique applies.
- **The band pass.** The band pass of `solveHiddenSingle` can never place anything.
- **The search.** Every solution returned is solved and refines the grid the search started from. The number of solutions respects the cap. The children of a branch are searched with the cell's candidates in ascending order, so their solutions hold those values at the branch cell in non-decreasing order.

## Model

| member | source | states |
|---|---|---|
| SetOperations.Union | src/SetOperations.h:19-33 | an element is in the result exactly when it is in either set |
| SetOperations.Difference | src/SetOperations.h:35-49 | an element is in the result exactly when it is in the first set and not the second |
| SetOperations.Intersection | src/SetOperations.h:51-66 | an element is in the result exactly when it is in both sets |
| SetOperations.SymmetricDifferenceIsExclusiveOr | src/SetOperations.h:68-72 | (A + B) - (A * B) holds exactly the elements lying in one set but not both |
| SetOperations.NotPartitionsUniverse | src/SetOperations.h:74-78 | the complement within a universe is disjoint from the set, together they make the universe, and complementing twice gives the set back |
| SetOperations.IsASubsetOf | src/SetOperations.h:80-95 | the answer is true exactly when the second argument is a subset of the first, the same-object shortcut included |
| SetOperations.RemoveElements | src/SetOperations.h:103-109 | the set becomes set - tobeRemoved; the answer is true exactly when the set changed, i.e. when it met tobeRemoved |
| SetOperations.SizeOf | src/SetOperations.h:111-114 | the size is never negative and is zero exactly for the empty set |
| SetOperations.SizeOfSubset | src/SetOperations.h:111-114 | a subset is no larger, a proper subset strictly smaller |
| SetOperations.MakeRange | src/SetOperations.h:116-124 | the result holds exactly the integers of [b, e), and has e - b elements, or none when b >= e |
| GridModel.OrderConstants | src/SudokuGrid.h:41-43 | ORDER2 = ORDER * ORDER and ORDER4 = ORDER2 * ORDER2; U is exactly 1 .. ORDER2, with 9 elements |
| GridModel.ViewCellInUnit | src/SudokuGrid.cpp:322-341 | position k of row, column or block g names a cell of the grid that lies in unit g at position k |
| GridModel.CellInExactlyOnePosition | src/SudokuGrid.cpp:322-341 | every cell lies at exactly one position of exactly one unit of each family |
| GridModel.EmptyBoardIsConsistent | src/SudokuGrid.cpp:168-194 | the grid a fresh SudokuGrid holds satisfies the invariant, every candidate set being U |
| GridModel.Recompute | src/SudokuGrid.cpp:302-314 | the candidate pass changes nothing but the candidate sets and the solvable flag |
| GridModel.RecomputeEffect | src/SudokuGrid.cpp:302-320 | the pass leaves each candidate set alone or replaces an unsolved cell's set by the intersection of its column, row and block sets; it ends solvable exactly when it started solvable and no such intersection is empty, and then every unsolved cell holds its intersection |
| GridModel.RecomputeStopsAtFirstEmpty | src/SudokuGrid.cpp:302-314 | the pass stops at the first unsolved cell with an empty intersection: the grid becomes unsolvable, that cell's set is empty, the cells after it are untouched, and the unsolved cells before it hold their intersections |
| GridModel.RecomputeRefines | src/SudokuGrid.cpp:302-320 | recomputing the candidates of a consistent grid keeps the invariant and only refines the grid |
| GridModel.Add | src/SudokuGrid.cpp:243-285 | add never makes an unsolvable grid solvable and keeps the grid's id |
| GridModel.AddLegalEffect | src/SudokuGrid.cpp:249-259 | a legal value leaves exactly its cell's column, row and block sets; the cell holds it with no candidates and the counter grows by exactly one |
| GridModel.AddZeroEffect | src/SudokuGrid.cpp:270-279 | the value 0 is accepted, writes 0 into the cell, and leaves the three families of sets and the counter as they were |
| GridModel.UnsafeAdd | src/SudokuGrid.cpp:287-298 | the cell takes the value unchecked; the value leaves the cell's column, row and block sets whatever it is; the counter grows only for a nonzero value, and solvability is never regained |
| GridModel.UnsafeAddAgreesWithLegalAdd | src/SudokuGrid.cpp:287-298 | on a legal value of U, unsafeAdd has exactly the outcome of add |
| GridModel.SolvedCellsFull | src/SudokuGrid.h:53-55 | the count of filled cells is full exactly when every cell is filled |
| GridModel.PlaceKeepsNoRepeats | src/SudokuGrid.cpp:249-259 | a legal value written into an empty cell repeats no value of its row, column or block |
| GridModel.PlaceIntoEmptyCell | src/SudokuGrid.cpp:249-259 | the bookkeeping of a legal add keeps every part of the invariant except candidate soundness, and refines the grid |
| GridModel.AddIntoEmptyCell | src/SudokuGrid.cpp:243-285 | an accepted add into an empty cell keeps the invariant and refines the grid |
| GridModel.AddCandidate | src/SudokuGrid.cpp:243-285 | adding one of a cell's candidates on a solvable consistent grid is accepted; the cell was empty and takes the value, the counter grows by one, and the invariant and refinement hold |
| GridModel.RecomputeCompletes | src/SudokuGrid.cpp:302-320 | recomputing the candidates keeps every solution whose values still fit the cells' column, row and block sets |
| GridModel.PlaceCompletes | src/SudokuGrid.cpp:249-259 | placing a solution's own value into an empty cell keeps that solution, and its other values still fit the shrunken sets |
| GridModel.AddCandidateCompletes | src/SudokuSolver.cpp:44-48 | add of the value a solution has in that cell, followed by a full recomputation, is accepted and keeps the solution |
| GridModel.AddCandidateRecomputed | src/SudokuSolver.cpp:44-48 | add of a candidate followed by a full recomputation fills that cell alone, grows the counter by one, keeps the invariant and refines the grid |
| GridModel.ShrinkCandidates | src/SudokuSolver.cpp:204-217 | shrinking candidate sets without emptying any keeps the invariant and refines the grid |
| GridModel.Tokens | src/SudokuGrid.cpp:52 | extraction with skipws yields no whitespace characters and no more characters than the text has |
| GridModel.TokensOfChar | src/SudokuGrid.cpp:52 | a whitespace character is skipped and any other character is extracted as itself |
| GridModel.TokensAppend | src/SudokuGrid.cpp:49-56 | extraction reads the text in order: the characters of a + b are those of a followed by those of b |
| GridModel.CharValue | src/SudokuGrid.cpp:51-56 | '.' and '0' give 0, a digit 1 .. 9 gives a value of U, and any other character gives a nonzero value outside U, which add rejects as out of range |
| GridModel.CellValues | src/SudokuGrid.cpp:49-56 | one value per cell, 81 in all: cell k gets the value of the k-th extracted character, and every cell past the end of the text gets 0 - '0', a nonzero value outside U |
| GridModel.LoadStep | src/SudokuGrid.cpp:56 | an accepted add into empty cell k keeps the invariant, refines the grid, and writes the value read into cell k alone while the grid is solvable |
| GridModel.LoadIntoEmptyCells | src/SudokuGrid.cpp:47-61 | loading into empty cells keeps the invariant and refines the grid; while it stays solvable every cell holds the value read for it |
| GridModel.SolvedGridIsFilled | src/SudokuGrid.h:53-55 | a consistent grid whose counter reached 81 has a value of U in every cell and no value twice in any row, column or block |
| GridModel.SolvedUnitIsUniverse | src/SudokuGrid.h:53-55 | every row, column and block of a solved consistent grid holds exactly the values of U |
| SudokuGrid.Grid.constructor | src/SudokuGrid.cpp:168-194 | a fresh grid: every set U, no cell solved, solvable, independent arrays |
| SudokuGrid.Grid.Copy | src/SudokuGrid.cpp:196-218 | the copy has equal state and arrays of its own |
| SudokuGrid.Grid.Assign | src/SudokuGrid.cpp:220-234 | after assignment the state equals the other grid's state as it was, self-assignment included |
| SudokuGrid.Grid.SetID | src/SudokuGrid.h:51 | only the id changes |
| SudokuGrid.Grid.IsSolved | src/SudokuGrid.h:53-55 | true exactly when the counter is 81, which on a consistent grid is exactly when every cell holds a value |
| SudokuGrid.Grid.CellIsSolved | src/SudokuGrid.h:56-60 | true exactly when the cell is nonzero; on a consistent grid, when it holds a value of U, and then it has no candidates |
| SudokuGrid.Grid.GetNumberOfCellsSolved | src/SudokuGrid.h:61-62 | the stored counter, which on a consistent grid is the number of filled cells |
| SudokuGrid.Grid.IsSolvable | src/SudokuGrid.h:63-64 | the stored flag; on a consistent grid, while it holds, every unsolved cell has a candidate |
| SudokuGrid.Grid.GetCellCandidates | src/SudokuGrid.h:96-100 | the stored set, unchanged; on a consistent solvable grid an unsolved cell's set is nonempty and within the intersection of its three sets |
| SudokuGrid.Grid.CalculateCellCandidates | src/SudokuGrid.cpp:316-320 | a value is a candidate exactly when it is in the cell's column, row and block sets |
| SudokuGrid.Grid.RemoveCandidates | src/SudokuGrid.cpp:236-241 | the cell's set becomes set - rem and nothing else changes; the answer is true exactly when the set met rem |
| SudokuGrid.Grid.CalculateAllCellCandidates | src/SudokuGrid.cpp:302-314 | the new state is the row-major candidate pass applied to the old one |
| SudokuGrid.Grid.Add | src/SudokuGrid.cpp:243-285 | a rejected value leaves every field as it was and reports its error; an accepted one gives the state of the value-level add |
| SudokuGrid.Grid.UnsafeAdd | src/SudokuGrid.cpp:287-298 | the new state is the unchecked placement followed by the candidate pass |
| SudokuGrid.Grid.Load | src/SudokuGrid.cpp:47-61 | the load ends with the state of the value-level load, or with the error of the first rejected value |
| SolverModel.CandidateTotalDecreases | src/SudokuSolver.cpp:231-235 | shrinking candidate sets, at least one strictly, lowers the total number of candidates, which bounds the propagation loop |
| SolverModel.TallyZero | src/SudokuSolver.cpp:71-80 | a value's count over some cells is zero exactly when none of them holds it |
| SolverModel.TallyTwoHolders | src/SudokuSolver.cpp:71-80 | two different holders of a value make its count at least two |
| SolverModel.TallyExtends | src/SudokuSolver.cpp:71-80 | counting one more cell of a stack is bumping the counters by its candidates |
| SolverModel.StackCellAt | src/SudokuSolver.cpp:71-74 | the stack loops, columns outer and rows inner, visit cell (row, 3s + t) as the (9t + row)-th cell of stack s |
| SolverModel.StackPlacement | src/SudokuSolver.cpp:81-107 | a stack whose counts show a value of count 1 yields the smallest such value, placed in the first cell of the stack holding it, which is the stack's only holder |
| SolverModel.StackCellColumn | src/SudokuSolver.cpp:71-72 | every cell of stack s lies in one of its three columns |
| SolverModel.StackTallyMonotone | src/SudokuSolver.cpp:66-110 | the counters are never reset, so a value's count only grows from stack to stack |
| SolverModel.FirstOne | src/SudokuSolver.cpp:81-82 | the index found holds a count of 1, and no earlier index does; the end when there is none |
| SolverModel.FirstHolding | src/SudokuSolver.cpp:93-107 | the position found holds the value as a candidate, and no earlier position does |
| SolverModel.HiddenSingle | src/SudokuSolver.cpp:69-110 | a placement found by the stack pass names a cell of the grid in a stack at or after the starting one |
| SolverModel.StackFindsItsCell | src/SudokuSolver.cpp:69-92 | a value whose count becomes 1 while a stack is tallied occurs in that stack alone |
| SolverModel.HiddenSingleAlwaysPlaces | src/SudokuSolver.cpp:83-107 | a stack pass that finds a value of count 1 always finds a cell for it, the only cell of its stack holding it |
| SolverModel.HiddenSingleKeeps | src/SudokuSolver.cpp:61-110 | the hidden single's add with recomputation is accepted and keeps every solution the grid admits |
| SolverModel.NakedSingleKeeps | src/SudokuSolver.cpp:42-48 | a naked single's add with recomputation is accepted and keeps every solution the grid admits |
| SolverModel.HiddenSingleForced | src/SudokuSolver.cpp:61-110 | every solution the grid admits has the hidden single's value in the chosen cell |
| SolverModel.BandPassFindsNothing | src/SudokuSolver.cpp:111-153 | once the three stacks found nothing, the band counts, laid on the accumulated stack counts, never show a count of 1 |
| SolverModel.SearchFound | src/SudokuSolver.cpp:69-110 | the pass stopping at stack s places the smallest value of count 1 in the first cell of the stack holding it |
| SolverModel.SearchExhausted | src/SudokuSolver.cpp:69-110 | a pass through all three stacks without a count of 1 places nothing |
| SolverModel.FirstOfSize | src/SudokuSolver.cpp:191-194 | the position found has a set of two elements, and no earlier one does |
| SolverModel.FirstEqual | src/SudokuSolver.cpp:198-201 | the position found has a set equal to the pair, and no earlier one after the pair does |
| SolverModel.FindPair | src/SudokuSolver.cpp:189-203 | a pair found is the first two-element set and a later equal set; no pair found means the first two-element set has no later equal set |
| SolverModel.EliminateStep | src/SudokuSolver.cpp:205-217 | one turn of the removal loop changes only the cell at that position, and the loop has changed something exactly when it had before or changes that cell now |
| SolverModel.EliminateShrinks | src/SudokuSolver.cpp:205-217 | the removal loop only shrinks sets, empties none, and touches nothing outside the unit |
| SolverModel.PairValuesTaken | src/SudokuSolver.cpp:198-204 | in every solution the grid admits, no cell of the unit other than the pair holds a value of the pair |
| SolverModel.EliminateSound | src/SudokuSolver.cpp:204-217 | removing the pair from the other cells of its unit keeps every solution the grid admits |
| SolverModel.FirstChangeIsOne | src/SudokuSolver.cpp:187-188 | the unit loop ends with no change, or with the outcome of one unit that changed something |
| SolverModel.PairUnitShrinks | src/SudokuSolver.cpp:189-219 | the pair search of one unit shrinks sets, empties none, and reports a change exactly when some set changed |
| SolverModel.NakedPairFromShrinks | src/SudokuSolver.cpp:182-222 | the pair search of one family shrinks sets, empties none, and reports a change exactly when some set changed |
| SolverModel.NakedPairFromSound | src/SudokuSolver.cpp:182-222 | the pair search of one family keeps every solution the grid admits |
| SolverModel.NakedPairEffect | src/SudokuSolver.cpp:158-180 | the grid-level pair search keeps the invariant and refines the grid; it reports a change exactly when a candidate set changed, and a change lowers the candidate total |
| SolverModel.NakedPairSound | src/SudokuSolver.cpp:158-222 | the grid-level pair search keeps every solution the grid admits |
| SudokuSolver.NatToString | src/SudokuSolver.cpp:297-298 | std::to_string of a child number is a nonempty string of decimal digits without a leading zero that denotes the number, so different numbers give different strings |
| SudokuSolver.AddAndRecompute | src/SudokuSolver.cpp:47-48 | add of a candidate followed by recomputation is accepted, fills exactly that empty cell, grows the counter by one, keeps the invariant and refines the grid |
| SudokuSolver.NakedSingleAt | src/SudokuSolver.cpp:42-54 | a placement happens exactly when the cell was unsolved with one candidate; that candidate is what the cell receives, through add followed by recomputation, and every solution the grid admitted is kept; otherwise nothing changes |
| SudokuSolver.CountCandidates | src/SudokuSolver.cpp:75-78 | the counter of every candidate of the cell goes up by one, the others are unchanged |
| SudokuSolver.TallyStack | src/SudokuSolver.cpp:71-80 | the counters grow by the counts of the 27 cells of the stack |
| SudokuSolver.TallyBand | src/SudokuSolver.cpp:114-123 | the transposed reads of band b count exactly the cells of stack b |
| SudokuSolver.CountStack | src/SudokuSolver.cpp:71-82 | the counters hold the counts of stacks 0 .. s, and the index found is the first count equal to 1 |
| SudokuSolver.StackSearch | src/SudokuSolver.cpp:66-110 | the search finds a value exactly when the stack pass places one, and reports its stack and value; otherwise no count is 1 |
| SudokuSolver.PlaceInStack | src/SudokuSolver.cpp:93-107 | the value goes through add into the first cell of the stack holding it, then all candidates are recomputed |
| SudokuSolver.PlaceInStackColumns | src/SudokuSolver.cpp:94-107 | the column loop places the value in the first holder of the stack |
| SudokuSolver.PlaceInStackColumn | src/SudokuSolver.cpp:96-106 | the row loop places the value when the first holder lies in this column, and changes nothing otherwise |
| SudokuSolver.PlaceAtStackCell | src/SudokuSolver.cpp:97-105 | a cell holding the value is the first holder and receives it; any other cell is left alone |
| SudokuSolver.BandPass | src/SudokuSolver.cpp:111-153 | the band loop changes only the counters, never places a value, and ends at twice the grid totals |
| SudokuSolver.FindSizeTwo | src/SudokuSolver.cpp:191-194 | the first position of the unit with a two-element set |
| SudokuSolver.FindEqual | src/SudokuSolver.cpp:195-202 | the first later position of the unit whose set equals the pair |
| SudokuSolver.FindPairIn | src/SudokuSolver.cpp:189-203 | the two searches find exactly the pair of the value-level search |
| SudokuSolver.EliminateAt | src/SudokuSolver.cpp:206-216 | one position loses the pair's values when it is neither pair cell and has more than two candidates; the answer says whether it changed |
| SudokuSolver.EliminatePair | src/SudokuSolver.cpp:204-217 | the removal loop leaves the sets of the value-level loop and reports a change exactly when one happened |
| SudokuSolver.NakedPairInUnit | src/SudokuSolver.cpp:189-219 | one unit's pair search has the value-level outcome; without a change nothing changes |
| SudokuSolver.SolveNakedPairIn | src/SudokuSolver.cpp:182-222 | the family's pair search leaves the sets of the value-level search and reports its change |
| SudokuSolver.SizeT | src/SudokuSolver.cpp:295 | size_t(n) keeps a cap in range and wraps a negative cap round 2^64 |
| SudokuSolver.RenamedRefines | src/SudokuSolver.cpp:289 | renaming a grid keeps the invariant and the refinement |
| SudokuSolver.FirstUnsolvedCell | src/SudokuSolver.cpp:260-275 | a cell is found exactly when some cell is unsolved, and it is the first unsolved cell in row-major order |
| SudokuSolver.Enumerate | src/SudokuSolver.cpp:288-300 | walking a std::set visits each element once, in ascending order |
| SudokuSolver.MakeClones | src/SudokuSolver.cpp:283-287 | nCandidates - 1 new grids, pairwise independent, each with the state of the grid |
| SudokuSolver.Solver.constructor | src/SudokuSolver.cpp:12-22 | the solver holds an independent copy of the grid and the cap, no solutions, and zero counters |
| SudokuSolver.Solver.Solve | src/SudokuSolver.cpp:24-30 | every solution returned is solved and refines the stored grid; with a cap between 1 and the largest size_t at most that many are returned, with a cap of 0 at most one |
| SudokuSolver.Solver.SolveNakedSingles | src/SudokuSolver.cpp:32-59 | the scan keeps the invariant and refines the grid; it reports a placement exactly when cells were solved, counting each one; when it ends on a solvable unsolved grid no unsolved cell has one candidate, except cell (0, 0) after a restart; every solution the grid admitted is kept |
| SudokuSolver.Solver.ScanRow | src/SudokuSolver.cpp:39-56 | one row of the scan, restart included: the same invariant, count, solution-keeping and no-single guarantee up to the row it ends in |
| SudokuSolver.Solver.SolveHiddenSingle | src/SudokuSolver.cpp:61-156 | a value is placed exactly when the grid is solvable and the stack pass finds one; it goes into the pass's cell through add with recomputation, grows both counters by one, keeps the invariant, refines the grid and keeps every solution the grid admitted |
| SudokuSolver.Solver.SolveNakedPair | src/SudokuSolver.cpp:158-180 | only candidate sets change, to those of the value-level pair search; the answer is true exactly when a set changed, which lowers the candidate total and adds one to the counter; every solution the grid admitted is kept |
| SudokuSolver.Solver.PropagateOnce | src/SudokuSolver.cpp:231-234 | a turn that reports a change solved a cell or removed a candidate; one that does not leaves the grid unchanged, with no technique applicable; every solution the grid admitted is kept |
| SudokuSolver.Solver.Propagate | src/SudokuSolver.cpp:231-235 | the do-while loop ends, keeps the invariant, refines the grid, keeps every solution the grid admitted, and leaves no naked single, no hidden single and no naked pair that changes anything |
| SudokuSolver.Solver.SolveByRecursion | src/SudokuSolver.cpp:224-306 | the solution list is only appended to, with solved grids refining the start; it ends at most at the cap when it began below it, otherwise at most one longer; the depth record reaches the level |
| SudokuSolver.Solver.Conclude | src/SudokuSolver.cpp:237-258 | an unsolvable grid only adds one to its counter; a solved one is appended as it is; any other is branched on |
| SudokuSolver.Solver.Branch | src/SudokuSolver.cpp:259-305 | branching on the first unsolved cell extends the list with solutions refining the grid, within the cap bound |
| SudokuSolver.Solver.Split | src/SudokuSolver.cpp:282-302 | the copies and the ascending walk of the candidates extend the list within the cap bound; every new solution holds one of the cell's candidates at the branch cell, in non-decreasing order along the list, and the depth record reaches level + 1 |
| SudokuSolver.Solver.Children | src/SudokuSolver.cpp:288-302 | the first child and then its siblings extend the list with solutions refining the grid; the new solutions hold values of vals at the branch cell in non-decreasing order, those of the first child holding vals[0], and the depth record reaches level + 1 |
| SudokuSolver.Solver.Siblings | src/SudokuSolver.cpp:294-302 | siblings start only while the list is below the cap, so a list below the cap ends at most at it and one at the cap is left alone; sibling n takes vals[n + 1], so the new solutions hold values of vals[1..] at the branch cell in non-decreasing order |
| SudokuSolver.Solver.FirstChild | src/SudokuSolver.cpp:288-291 | the grid itself takes the value v and is searched one level deeper: every solution it contributes refines the grid and holds v at (row, col), and the depth record reaches level + 1 |
| SudokuSolver.Solver.NextChild | src/SudokuSolver.cpp:296-299 | a copy takes the value v and is searched one level deeper: every solution it contributes refines the grid it was copied from and holds v at (row, col), and the depth record reaches level + 1 |

## Left out

- Text output is not modelled: `operator<<` for sets and grids, `writeCandidates`, `writeLatex`, the solution report of `solveByRecursion` and the message of `add` on an unsolvable grid. It is formatting only.
- The stream of `operator>>` is not modelled; its input is a string. Only the row-major load loop is modelled: whitespace skipped, '.' read as 0, other characters c as c - '0', each handed to `add`, then one recomputation.
- `src/Sudoku.cpp` (command line, files, timing, catching exceptions) is not part of this model.
- Exceptions are not thrown. `add` returns the error status instead, and the load loop stops at the first one.
- `operator==` is declared but not defined in the source, so it is not modelled.
- `getID` is the field `id` and needs no member. `EMPTY` is the empty set `{}`.
- `mapPointerArraysToCandidates` and the pointer arrays are replaced by the index map `ViewCell`. Aliasing between the views and `candidates_` is therefore not modelled.
- The placement branch of the band loop of `solveHiddenSingle` has no code in the model. `BandPass` proves it unreachable, because the band counts are laid on top of counts that were never reset.
- The two placement loops of the stack pass run after the search loop instead of inside it (`StackSearch` and then `PlaceInStack`). The source's loop does no further work once a value is found, so the order of effects is unchanged.
- The loops of the solver are split into helper methods. These are `ScanRow`, `StackSearch`, `CountStack`, `PlaceInStackColumns`, `PlaceInStackColumn`, `PlaceAtStackCell`, `EliminateAt`, `NakedPairInUnit`, `Propagate`, `PropagateOnce`, `Conclude`, `Branch`, `Split`, `Children`, `Siblings`, `FirstChild` and `NextChild`. `solveNakedPair(group)` is the module-level method `SolveNakedPairIn` on a family of units.
- Walking a `std::set` with an iterator is modelled by `Enumerate`, which lists the set in ascending order.
- All counters are unbounded integers. Wrap-around of the `int` counters and of the `size_t` candidate counts is not modelled. A candidate count stays at most 2 × 81 × 9 in one call, and the other counters are diagnostic.
- SudokuSolver.SizeT: assumes a 64-bit `size_t`.
- SudokuSolver.Solver.Solve: requires the stored grid to be consistent. That holds for every grid built by the constructor and the load loop (`EmptyBoardIsConsistent`, `LoadIntoEmptyCells`), but not for grids damaged by `unsafeAdd`. The solver's other methods require the same.
- SudokuSolver.Solver.Solve: does not state completeness, that every solution of the puzzle is found when the cap allows. It states the order of the solutions only per branch, through `Children`: the order of the whole list is not stated.
- SudokuSolver.Solver.SolveByRecursion: states the depth record only as at least the level, and the not-solvable counter only as non-decreasing. It does not state the recursion profile ids (".1", ".n") the children receive.
- SudokuSolver.Solver.PropagateOnce: does not state how the three technique counters change.
- SudokuSolver.Solver.Propagate: does not state how the three technique counters change.
- SudokuSolver.Solver.SolveNakedSingles: states the effect of the scan through the invariant, the refinement and the counts, not the exact sequence of cells it fills.
- SudokuGrid.Grid.Load: on a rejected value only the error is stated, not the partially loaded state that the exception leaves behind.
- GridModel.Add: a rejected `add` is stated for the class method (`SudokuGrid.Grid.Add`). The function's own contract states only what every accepted outcome keeps.
