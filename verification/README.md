# Sudoku solver core, modelled in Dafny

This project models the solving core of a Sudoku solver written in TypeScript:

- the 9×9 field of cells, each with either a committed value or a list of candidate numbers;
- the history of field snapshots and the change log;
- the ten strategies the solver applies cell by cell:
  - Update Notes;
  - Obvious Singles, Pairs and Triples;
  - Hidden Singles, Pairs and Triples;
  - Pointing Numbers;
  - X-Wing;
  - Y-Wing;
- the driver, which runs one strategy over the field (`useMethod`), runs the strategies in turn until one makes progress (`executeMethodsSequentially`), undoes the last step (`backToLastState`) and builds the field from puzzle data (`initSudokuSolver`).

The original mutates shared `Cell` objects in place. The model is functional:

- A `Cell` is an immutable datatype.
- A field is a `seq<seq<Cell>>`.
- A strategy maps a `Board` to a new `Board`. A board is a field together with the change log that the cells' `saveToHistory` callback appends to.
- The strategies' lists of cell references become lists of positions, read live from the field. A cell's in-place update is therefore visible to later reads, as in the original.
- The driver is written as methods over a `Solver` value: the field, the `History` and the solved flag.

The modules:

- `Wrappers`: `Option` and the early-exit search loops (`FirstIndex`, `FirstPairIndex`) that the detectors and Y-Wing are written as.
- `Arrays`: `src/utils/arrays.ts`.
- `Cells`: `src/models/Cell.ts`.
- `History`: `src/models/History.ts` and the change-log line.
- `HiddenNs`: the detectors of `src/models/HiddenNs.ts`.
- `Grid`: the field, positions, units and the shared helpers of `src/composables/sudokuSolver.ts`.
- `Axes`: rows and columns as one notion.
- `Notes`, `Units`, `Pointing`, `XWing`, `YWing`: the strategies.
- `Solver`: the driver.

Four places where the code does something other than the evident intent are reproduced as written. Each is stated in a contract:

- `isAtTheSameRow` and `isAtTheSameColumn` always return `true`. So the Y-Wing row/block and column/block searches never fire (`YWing.OnlyColumnRow`).
- Pointing skips line indices from the block's first index up to first + 3 inclusive. So the first cell of the next block is never swept (`Pointing.PointingLeavesAlone`).
- The X-Wing column pass compares a row index with the cell's column index (`XWing.CheckWithXWing`).
- The Y-Wing row/column search prunes `field[rowPincer.columnIdx][columnPincer.rowIdx]`, the transpose of the cell both pincers see (`YWing.CheckWithYWing`).

One more place is modelled both ways. After an undo, the live change log is the very array stored in the top snapshot, so later lines leak into that snapshot. The `...Shared` members of `History` model this as written, and the driver uses the copying log. The difference is shown under "## Findings".

## Model

| member | source | states |
|---|---|---|
| Wrappers.FirstPairIndex | src/models/HiddenNs.ts:122-138 | two nested early-exit loops stop at the first pair in loop order that passes the test, and find nothing exactly when no pair in range passes |
| Arrays.Intersection | src/utils/arrays.ts:1-3 | the result holds exactly the elements of the first list that the second also holds, and is no longer than the first |
| Arrays.IntersectionKeepsOrder | src/utils/arrays.ts:1-3 | intersecting a concatenation is concatenating the intersections, so elements come out in the first list's order |
| Arrays.IntersectionOfContained | src/utils/arrays.ts:1-3 | a list whose elements all occur in the other is its own intersection with it |
| Arrays.SymmetricDifference | src/utils/arrays.ts:5-10 | the result holds exactly the elements in one list and not the other; it is empty exactly when the two lists hold the same elements |
| Arrays.SymmetricDifferenceOrderInsensitive | src/utils/arrays.ts:5-10 | whether the difference is empty depends neither on the order of the arguments nor on order or repetition inside them |
| Arrays.Unique | src/utils/arrays.ts:12-14 | the result has no repeated element, holds the same elements as the input and is no longer |
| Arrays.UniqueOfNoDups | src/utils/arrays.ts:12-14 | a list without repetitions is left unchanged |
| Arrays.UniqueIdempotent | src/utils/arrays.ts:12-14 | deduplicating twice is deduplicating once |
| Arrays.UniquePrefix | src/utils/arrays.ts:12-14 | deduplicating a prefix gives a prefix of the deduplicated list: first occurrences are kept, in order |
| Arrays.Equal | src/utils/arrays.ts:16-20 | true exactly when the two lists are identical |
| Arrays.GetAllCommonElements | src/utils/arrays.ts:22-26 | the result holds exactly the elements common to both lists and is no longer than the second |
| Arrays.CommonElementsMatchIntersection | src/utils/arrays.ts:22-26 | on lists without repetitions it has the same elements and the same length as the intersection |
| Cells.NewCell | src/models/Cell.ts:16-34 | a given value makes a preset cell with no candidates; the empty string makes an unset cell with candidates 1..maxVal in order |
| Cells.NewCellWellFormed | src/models/Cell.ts:16-34 | a cell built from a digit or from the empty string with 9 candidates is well formed |
| Cells.IsEqual | src/models/Cell.ts:48-56 | true exactly when the cells agree on position, value and candidate sequence, whatever their preset flags |
| Cells.IsEqualReflexive | src/models/Cell.ts:48-56 | every cell is equal to itself |
| Cells.RemoveOccupiedValues | src/models/Cell.ts:58-67 | a cell without a (truthy) value loses exactly the given numbers; a set cell is untouched; a log line is written exactly when a candidate was removed, and it lists the removed numbers |
| Cells.RemoveOccupiedValuesIdempotent | src/models/Cell.ts:58-67 | a second removal of the same numbers changes nothing and writes no log line |
| Cells.PrunedTwice | src/models/Cell.ts:58-67 | removing one list and then another is removing their concatenation |
| Cells.PrunedAbsent | src/models/Cell.ts:58-67 | removing numbers the cell does not hold leaves it as it is |
| Cells.PrunedNarrows | src/models/Cell.ts:58-67 | removal keeps a well-formed cell well formed and only narrows its candidates |
| Cells.SetPossibleValues | src/models/Cell.ts:69-76 | the candidates become the given values unless they already hold the same elements; a log line is written exactly in that case, listing the numbers in one list but not the other |
| Cells.SetPossibleValuesReorder | src/models/Cell.ts:69-76 | values that are a reordering of the current candidates change nothing and write no log line |
| Cells.SetPossibleValuesIdempotent | src/models/Cell.ts:69-76 | setting the same values a second time changes nothing |
| Cells.UpdateValue | src/models/Cell.ts:78-83 | a ready cell commits its only candidate and keeps no candidates, and the log line records the new value under "obvious singles" |
| Cells.UpdateValueEvolves | src/models/Cell.ts:78-83 | committing a ready, well-formed cell gives a well-formed cell holding its former sole candidate |
| History.SaveToChangeLog | src/models/History.ts:33-36 | the line is appended to the live log; the snapshots are untouched (the copying log of the finding below) |
| History.AddNewState | src/models/History.ts:38-43 | one snapshot is pushed, holding the field and the current log; earlier snapshots and the live log are untouched |
| History.BackToLastState | src/models/History.ts:45-50 | the top snapshot is dropped unless it is the only one, and the live log becomes the new top snapshot's log |
| History.AddThenBack | src/models/History.ts:38-50 | pushing a snapshot and going back restores the stack and the log of the former top |
| History.BackAtBottom | src/models/History.ts:45-50 | with a single snapshot, going back keeps it and only resets the live log |
| History.UndoForgetsLines | src/models/History.ts:33-50 | with the copying log, lines logged after going back are gone again once their step is undone |
| History.SaveToChangeLogShared | src/models/History.ts:33-36 | as written: the line lands in the live log and in the snapshot whose stored array the live log is |
| History.AddNewStateShared | src/models/History.ts:38-43 | as written: the pushed snapshot holds a copy of the live log, and the sharing is unchanged |
| History.BackToLastStateShared | src/models/History.ts:45-50 | as written: after the pop the live log is the new top snapshot's own array |
| History.SharedAgreesUnlessShared | src/models/History.ts:33-50 | pushing and going back agree with the copying history; logging agrees while nothing is shared and differs once the live log is a snapshot's array |
| History.UndoKeepsLinesShared | src/models/History.ts:33-50 | as written, a line logged after going back is written into the top snapshot and comes back when its step is undone |
| History.UndoAfterUndoShared | src/models/History.ts:33-50 | as written, build, step, undo, step, undo leaves the second step's line in the live log |
| History.UndoAfterUndo | src/models/History.ts:33-50 | with the copying log, the same run leaves the live log empty |
| HiddenNs.GetAllUniqueNumbers | src/models/HiddenNs.ts:9-15 | the result has no repetitions and holds exactly the numbers some given cell has as a candidate |
| HiddenNs.PairsOfCount | src/models/HiddenNs.ts:17-25 | there are n(n-1)/2 pairs of n candidates |
| HiddenNs.PairsOfMembers | src/models/HiddenNs.ts:17-25 | a pair is listed exactly when it is two candidates taken in increasing index order |
| HiddenNs.TriplesOfCount | src/models/HiddenNs.ts:27-37 | there are n(n-1)(n-2)/6 triples of n candidates |
| HiddenNs.TriplesOfSound | src/models/HiddenNs.ts:27-37 | every listed triple is three candidates in increasing index order |
| HiddenNs.TriplesOfComplete | src/models/HiddenNs.ts:27-37 | every three candidates in increasing index order are listed |
| HiddenNs.IsArrayExistsInSet | src/models/HiddenNs.ts:39-46 | true exactly when the group lists the same sequence |
| HiddenNs.GetAllCommonPairs | src/models/HiddenNs.ts:48-61 | a pair is listed exactly when it is a pair of both cells |
| HiddenNs.GetAllCommonTriples | src/models/HiddenNs.ts:63-77 | a triple is listed exactly when it is a triple of all three cells |
| HiddenNs.IsNumbersInOtherCellsMeaning | src/models/HiddenNs.ts:79-88 | true exactly when some listed number is a candidate of some cell |
| HiddenNs.GetCellHiddenSingle | src/models/HiddenNs.ts:94-104 | finds the first candidate no checked cell holds, and finds nothing exactly when every candidate is held elsewhere |
| HiddenNs.GetCellHiddenPair | src/models/HiddenNs.ts:106-120 | reports the first checked cell for which a hidden pair exists, the pair being common to both cells; nothing exactly when no checked cell has one |
| HiddenNs.HiddenPairAtMeaning | src/models/HiddenNs.ts:106-120 | what the loop body finds is a pair of both cells held by no other checked cell, and it finds nothing exactly when no such pair exists |
| HiddenNs.GetCellHiddenTriple | src/models/HiddenNs.ts:122-138 | reports the first two checked cells i < j in loop order for which the loop body finds a triple, with that triple; nothing exactly when no two checked cells have one |
| HiddenNs.HiddenTripleAtMeaning | src/models/HiddenNs.ts:122-138 | what the loop body finds is a triple of all three cells held by no remaining checked cell, and it finds nothing exactly when no such triple exists |
| HiddenNs.GetCellObviousPair | src/models/HiddenNs.ts:140-152 | found exactly when the cell has two candidates and some checked cell has the identical sequence; the first such cell is reported |
| HiddenNs.GetCellObviousTriple | src/models/HiddenNs.ts:154-168 | found exactly when some two checked cells share three distinct candidates in all with the cell; the cells reported are the first such pair in loop order, and the numbers are their union |
| HiddenNs.ObviousTripleNumbers | src/models/HiddenNs.ts:154-168 | an obvious triple's numbers are three distinct values, each a candidate of one of the three cells |
| HiddenNs.GetCellHiddenNs | src/models/HiddenNs.ts:171-187 | nothing for n other than 1, 2, 3; a result has n cells, the given cell first and the others checked cells, all holding every reported number |
| HiddenNs.GetCellObviousNs | src/models/HiddenNs.ts:189-202 | nothing for n other than 2, 3; a result lists the given cell first and then checked cells |
| HiddenNs.IsNumberInSquareJustAtTheSameRow | src/models/HiddenNs.ts:204-213 | true exactly when no checked cell off the cell's row holds the number |
| HiddenNs.IsNumberInSquareJustAtTheSameColumn | src/models/HiddenNs.ts:215-224 | true exactly when no checked cell off the cell's column holds the number |
| HiddenNs.IsNumberInOtherCells | src/models/HiddenNs.ts:226-233 | true exactly when some cell holds the number |
| HiddenNs.NumberInOtherCellsIsSingleton | src/models/HiddenNs.ts:226-233 | the one-number test agrees with the many-number test on a one-element list |
| Grid.IsSolved | src/composables/sudokuSolver.ts:83-92 | true exactly when every cell holds a truthy value |
| Grid.SquareFirst | src/composables/sudokuSolver.ts:94-100 | the block's first index is a multiple of 3 at most 2 below the index |
| Grid.IsAtTheSameRow | src/composables/sudokuSolver.ts:102-109 | as written, the answer is true for every list of cells |
| Grid.IsAtTheSameColumn | src/composables/sudokuSolver.ts:111-118 | as written, the answer is true for every list of cells |
| Grid.GetSquareEmptyCells | src/composables/sudokuSolver.ts:120-135 | the result is exactly the unset cells of the cell's block, without the cell itself when asked |
| Grid.GetLastUpdatedCells | src/composables/sudokuSolver.ts:141-153 | every reported cell is the live cell at its position and differs from the snapshot's; every cell that differs is reported; the cells come in row-major order; none is reported exactly when every cell equals the snapshot's |
| Grid.ChangedIffUpdatedCells | src/composables/sudokuSolver.ts:137-153 | when the preset flags agree, the field differs from the snapshot exactly when some updated cell is reported |
| Notes.OccupiedNumbers | src/composables/sudokuSolver.ts:158-185 | a number is collected exactly when some cell in the cell's row, column or block holds it as its value |
| Notes.CheckCellSurroundings | src/composables/sudokuSolver.ts:157-188 | only the given cell changes; if it has no value it keeps exactly the candidates not set around it |
| Notes.SettledMeaning | src/composables/sudokuSolver.ts:157-188 | an unset cell that the step leaves alone has no candidate set around it, and conversely |
| Notes.CheckAllCellsSurroundings | src/composables/sudokuSolver.ts:190-198 | values are untouched, every cell ends settled, and a well-formed field is only narrowed |
| Notes.SettledUnchanged | src/composables/sudokuSolver.ts:190-198 | on a field where every cell is settled the sweep changes nothing |
| Notes.UpdateNotesIdempotent | src/composables/sudokuSolver.ts:190-198 | running the sweep twice is running it once |
| Units.CheckForHiddenNs | src/composables/sudokuSolver.ts:200-256 | in the first of row, column and block where the detector finds a hidden N, each reported cell becomes Replaced(old cell, hidden numbers) and no other cell changes; none found or n outside 1..3 changes nothing; a well-formed field is only narrowed |
| Units.WriteHidden | src/composables/sudokuSolver.ts:220-224 | each reported cell becomes Replaced(old cell, hidden numbers), that is, it keeps its list when that has the same elements and otherwise takes the hidden numbers as its list; no other cell changes, and a well-formed field is only narrowed |
| Units.ObviousSingle | src/composables/sudokuSolver.ts:259-264 | a ready cell commits its sole candidate; otherwise, and for every other cell, nothing changes |
| Units.EliminateObvious | src/composables/sudokuSolver.ts:283-289 | every unset cell of the unit outside the found cells loses the found numbers; the found cells, the set cells of the unit and cells outside the unit are kept |
| Units.CheckForObviousNs | src/composables/sudokuSolver.ts:258-324 | n = 1 commits a ready cell's sole candidate; for n > 1, in the first of row, column and block where the detector finds an obvious N, the found cells and the unit's set cells are kept, every other unset cell of that unit loses exactly the found numbers, and nothing outside it changes; none found or n outside 1..3 changes nothing |
| Pointing.SquareCellsToCheck | src/composables/sudokuSolver.ts:329-340 | exactly the unset cells of the cell's block other than the cell |
| Pointing.CheckForPointingNumbers | src/composables/sudokuSolver.ts:328-365 | an unset cell of the row (column) beyond the block loses the candidates that occur in the block only on that row (column); every other cell is kept |
| Pointing.PointingLeavesAlone | src/composables/sudokuSolver.ts:341-365 | the block, cells off the row and column, and, as written, the first cell of the next block along the row and the column are never changed |
| Pointing.PointingRemoves | src/composables/sudokuSolver.ts:328-365 | a candidate leaves a cell exactly when the cell is unset, lies beyond the block on the row (column) and the candidate points along that line |
| Pointing.PointingNarrows | src/composables/sudokuSolver.ts:328-365 | a well-formed field is only narrowed |
| XWing.CellsToCheck | src/composables/sudokuSolver.ts:370-379 | lists exactly the unset cells of the cell's line, other than the cell, whose index along the line is above the cell's column index |
| XWing.Eliminate | src/composables/sudokuSolver.ts:417-428 | every unset cell of the two crossing lines, other than the four corners, loses the number; no other cell changes |
| XWing.FiringEliminates | src/composables/sudokuSolver.ts:399-428 | once the X-Wing condition holds for a partner, the number leaves every unset non-corner cell of both crossing lines, and later steps never give it back |
| XWing.XWingPass | src/composables/sudokuSolver.ts:367-503 | the cell's own line is never changed, a cell only loses candidates of the given cell, and no cell gains one |
| XWing.CheckWithXWing | src/composables/sudokuSolver.ts:507-510 | the cell is kept; a changed cell is off its row at or right of its column, or, as written for the column pass, off its column and on its row or below row index p.col; cells lose only the cell's candidates |
| XWing.XWingCompose | src/composables/sudokuSolver.ts:436-510 | the row pass followed by the column pass keeps the cell and confines the changes as stated for CheckWithXWing |
| YWing.RowPincers | src/composables/sudokuSolver.ts:523-530 | exactly the pincers on the pivot's row right of it, listed left to right |
| YWing.ColumnPincers | src/composables/sudokuSolver.ts:532-537 | exactly the pincers in the pivot's column below it, listed top to bottom |
| YWing.SquarePincers | src/composables/sudokuSolver.ts:516-521 | exactly the pincers in the pivot's block other than the pivot |
| YWing.LinksMeaning | src/composables/sudokuSolver.ts:544-546 | linked pincers share exactly one number, and the pivot does not hold it |
| YWing.FirstPair | src/composables/sudokuSolver.ts:542-552 | the nested loops return a matching pair, and no pair they reach earlier (an earlier entry of the outer list, or the same one with an earlier entry of the inner list) matches; nothing exactly when no pair matches |
| YWing.Search | src/composables/sudokuSolver.ts:541-553 | a found pair matches, names the cells to prune and the shared number; over lists in position order, no pair before it in that order matches; no pair exactly when none matches |
| YWing.FindWing | src/composables/sudokuSolver.ts:512-594 | the searches run in the source's order; a later one is reported only when every earlier one found nothing; no wing unless the pivot has two candidates; for the row/column search, no row pincer further left, and no column pincer higher up with the same row pincer, is linked |
| YWing.YWing | src/composables/sudokuSolver.ts:512-594 | the cells the winning search names lose the shared number, and nothing else changes |
| YWing.OnlyColumnRow | src/composables/sudokuSolver.ts:556-593 | with the solver's always-true collinearity tests, only the row/column search can fire |
| YWing.CheckWithYWing | src/composables/sudokuSolver.ts:541-553 | the cell the winning search names loses the number both pincers share, and nothing else changes; nothing changes unless the pivot has two candidates; at most one cell changes, and it is the transposed intersection, right of and below the pivot's indices swapped |
| YWing.YWingRemoves | src/composables/sudokuSolver.ts:541-553 | a number leaves a cell only when a row pincer right of the pivot and a column pincer below it both hold it and the pivot does not |
| YWing.YWingNarrows | src/composables/sudokuSolver.ts:512-594 | a well-formed field is only narrowed, whatever the collinearity tests |
| Solver.Strategy | src/composables/sudokuSolver.ts:603-623 | the strategy each key runs on one cell (Obvious Ns with n = 1, 2, 3, Hidden Ns with n = 1, 2, 3, Pointing Numbers, X-Wing, Y-Wing); the field stays valid, the change log only grows, and Update Notes has no branch there |
| Solver.StrategyEvolves | src/composables/sudokuSolver.ts:603-623 | that strategy step evolves a well-formed field and keeps it well formed; all but Obvious Singles only narrow it |
| Solver.StrategyKeeps | src/composables/sudokuSolver.ts:603-623 | every key's step, applied anywhere, is one the sweep can rely on (StepKeeps), narrowing unless it is Obvious Singles |
| Solver.SweepWith | src/composables/sudokuSolver.ts:601-626 | the nested loops equal RowMajorSweep: the step runs, in row-major order, on each cell unset when reached, on the field the earlier cells left; the step's guarantees hold for the whole field |
| Solver.SweepVisit | src/composables/sudokuSolver.ts:601-604 | visiting one cell (stepping it only if it is unset) and sweeping on from the next cell is the sweep from that cell |
| Solver.Sweep | src/composables/sudokuSolver.ts:601-626 | the loops for key m give RowMajorSweep of m's strategy from the first cell; a well-formed field evolves, and only narrows unless m is Obvious Singles |
| Solver.RunMethod | src/composables/sudokuSolver.ts:596-627 | the result is MethodResult: Update Notes prunes every cell's notes, any other key is swept in row-major order; Update Notes leaves every cell settled, and changes nothing on a settled field |
| Solver.CommitIfChanged | src/composables/sudokuSolver.ts:629-634 | a snapshot is pushed and the solved flag recomputed exactly when the field changed; the reported cells are exactly the changed ones, in row-major order |
| Solver.UseMethod | src/composables/sudokuSolver.ts:596-635 | the new field and change log are MethodResult of the key on the live ones; the solver invariant is kept; the reported cells are exactly the changed ones, in row-major order, so none exactly when the field is unchanged; on a change exactly one snapshot of the new field is pushed; a solved field is never changed |
| Solver.SolvedUnchanged | src/composables/sudokuSolver.ts:601-627 | an evolution of a solved field is the same field |
| Solver.TryMethod | src/composables/sudokuSolver.ts:596-635 | one call of useMethod as the run sees it: cells are reported exactly when the field changed, and they are exactly the changed cells in row-major order; a snapshot is pushed only then; the new field and log are what the key's strategy (Run, which is MethodResult on a valid field) yields on the live ones |
| Solver.Attempt | src/composables/sudokuSolver.ts:642-649 | an attempt that reports no cells leaves field, stack and flag as they were and its strategy stalls (Stalls: for some log extending the live one, MethodResult leaves the field unchanged); one that reports cells reports exactly the changed ones, pushes one snapshot, and its field and log are the strategy's result (Advances) |
| Solver.StallsEarlier | src/composables/sudokuSolver.ts:637-651 | a strategy that stalls with a longer log also stalls with respect to any prefix of it, so stalls seen later in the run are stalls on the starting field and log |
| Solver.AdvancesEarlier | src/composables/sudokuSolver.ts:637-651 | likewise for progress: the last strategy's result, reached with a longer log, is reached from the starting log |
| Solver.ExecuteFrom | src/composables/sudokuSolver.ts:641-649 | the run from the i-th key on satisfies Outcome: entries in key order, stop only after progress, stalls and progress tied to MethodResult on the starting field as stated for ExecuteMethodsSequentially |
| Solver.ExecuteStep | src/composables/sudokuSolver.ts:641-649 | an attempt that stalled, followed by the rest of the run, is a run from the earlier key with the same outcome |
| Solver.ExecuteMethodsSequentially | src/composables/sudokuSolver.ts:637-651 | the strategies are tried in order and the run stops early only after progress; every entry with no cells (all but possibly the last) names a strategy that, run on the starting field with some log extending the starting log, leaves the field unchanged; without progress field, stack and flag are unchanged; with progress the last key's MethodResult on the starting field, with some log extending the starting one, is exactly the final field and log, its entry holds exactly the cells that changed, in row-major order, and one snapshot was pushed |
| Solver.BackToLastState | src/composables/sudokuSolver.ts:657-666 | the field becomes the snapshot below the top (the only one if there is a single snapshot), the solved flag is cleared and the invariant is kept |
| Solver.RestoreExact | src/composables/sudokuSolver.ts:661-665 | copying value and candidates from a snapshot with the same preset flags gives exactly that snapshot |
| Solver.BackAfterPush | src/composables/sudokuSolver.ts:629-666 | going back after a step that pushed a snapshot restores the field and the stack from before the step |
| Solver.InitSudokuSolver | src/composables/sudokuSolver.ts:668-680 | every cell is built from its coordinates and datum with 9 candidates; the field is 9×9 exactly when the data is; one snapshot of it is pushed and the log is empty |
| Solver.InitConsistent | src/composables/sudokuSolver.ts:668-680 | a solver built from nine rows of nine empty-or-digit entries satisfies the invariant the driver relies on |

## Left out

- Vue plumbing: reactivity (`ref`, `reactive`, `toRefs`), the components, the `implementedMethods` links and `console.log` calls are not modelled.
- The texts of log descriptions are modelled only as far as the change-log line's action, values and strategy tag; `valuesToRemove.sort()` and the `join` formatting are not reproduced.
- `JSON.parse(JSON.stringify(...))` copies and the JSON comparison in `isFieldChanged` become value equality on immutable data. Object identity (`!==` on cells) becomes equality of positions.
- The aliasing of snapshot arrays that `backToLastState` hands back through `setValues` is not modelled. Snapshots are immutable values.
- History.SaveToChangeLog: the driver uses the copying log, whose snapshots a logged line never touches. In the source, after any `backToLastState` the live log is the top snapshot's stored array, so a logged line also lands in that snapshot. The as-written behaviour is `History.SaveToChangeLogShared`, and the difference is the finding below.
- History.BackToLastState: resets the live log to a copy of the new top snapshot's log, not to the stored array itself (see the finding below). On an empty stack the source throws a TypeError reading `changeLog` of `undefined`; the model requires a non-empty stack instead, which the solver always has after `initSudokuSolver`.
- `Number(value)` parsing of the puzzle strings is left out: the data is given as `Option<int>`, `None` for the empty string.
- src/types/Method.ts is not part of this model, so the order of `Object.values(Method)` is a parameter of `ExecuteMethodsSequentially`.
- `executedMethods` is a record keyed by method in the original and a list of (method, cells) pairs in order here. `HistoryLine` and `ExecutedMethodsData` are not modelled.
- Solver.InitSudokuSolver: models the first `initSudokuSolver` call in the module's lifetime. The field is module-level state shared by every composable, so any later call, from the same composable or a new one, appends nine more rows to the existing field and pushes a second snapshot; that is not modelled.
- Solver.UseMethod: requires the solver invariant (`Consistent`), which a solver built from puzzle data has (`InitConsistent`) and every step keeps; states that break it, such as cells edited behind the solver's back, are not covered.
- Solver.ExecuteMethodsSequentially: requires the solver invariant, as UseMethod does.
- Solver.ExecuteMethodsSequentially: ties each entry to MethodResult with some change log extending the starting one rather than naming that log; a strategy that changes no cell may still have grown the log, and the exact log each later strategy starts from is not stated.
- Solver.BackToLastState: requires the solver invariant, as UseMethod does.
- Solver.StrategyEvolves: states evolution and narrowing only for well-formed fields, that is, fields whose values and candidates are digits.
- Solver.Sweep: states evolution and narrowing only for well-formed fields, as StrategyEvolves does.
- Solver.RunMethod: states evolution and narrowing only for well-formed fields, as StrategyEvolves does.
- YWing.FindWing: states loop-order firstness only for the row/column search; for the block searches, which the solver's always-true collinearity tests never let fire, it states the match and that the earlier searches found nothing.
- XWing.XWingPass: states where changes may occur and that only candidates of the cell are removed, not exactly which cells lose them; XWing.FiringEliminates states the removal for one firing.
- XWing.CheckWithXWing: states where changes may occur and which numbers may be removed, not exactly which cells lose them, as for XWingPass.
- Notes.CheckAllCellsSurroundings: states that the sweep ends with every cell settled and values untouched, not the candidate list of each cell position by position.
- Strategy calls on a cell that is not part of a 9×9 field are not modelled: every strategy requires a valid 9×9 field and an in-grid position, as the solver only calls them that way.
- Euclidean versus truncating `%` plays no role: the only remainders are of non-negative indices.

## Findings

| source | as written | input that shows it | evidently intended | confidence | as-written member | corrected member |
|---|---|---|---|---|---|---|
| src/models/History.ts:45-50 | `backToLastState` sets the live log to the top snapshot's stored array itself, and `saveToChangeLog` (line 34) pushes into it in place, so the snapshot's log grows with later lines | build the solver, run a step that logs a line and changes the field, undo, run a step that logs line `b` and changes the field, undo: the live log is `[b]`, the lines of a step that was undone | undo restores the log as it was when the snapshot was taken, here `[]` | medium, not executed | History.UndoAfterUndoShared | History.UndoAfterUndo |
