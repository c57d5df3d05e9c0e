# Sudoku engine and batch planner, in Dafny

This project models the Sudoku engine of a puzzle-PDF generator together with
the worker that plans a batch of puzzles. It covers:

- `src/utils/sudokuLogic.js`:
  - `createEmptyGrid`;
  - the placement rule `isValid`;
  - the bounded solution enumerator `findAllSolutions` and its inner `find`;
  - `shuffle`;
  - the randomized filler `fillGrid`;
  - the puzzle generator `generateSudoku`;
  - the conflict reporter `validateGrid`.
- `src/sudoku.worker.js`: `numberToTime`, plus the count split, time estimate
  and generation/progress loop of its message handler.

The 9x9 board is a flat row-major sequence (or array) of 81 integers. Cell
(r, c) sits at index 9r + c, and 0 is a blank. Two cells are peers when they
share a row, a column or a 3x3 box.

The central notion is `Grid.SoundCompletion(g, s)`: a grid that backtracking
search can reach from `g`. It keeps every given of `g`, fills every blank with
1..9, and places no filled-in digit next to an equal peer. Clashes between two
givens are allowed, because the source never checks them. `Grid.UniqueCompletion(p, s)`
says `s` is the only such grid.

The modules follow the source:

| module | models |
|---|---|
| `Grid` | board, placement rule, completions, units |
| `Shuffle` | Fisher–Yates |
| `Solver` | `findAllSolutions` |
| `Filler` | `fillGrid` |
| `Generator` | `generateSudoku` |
| `Validator` | `validateGrid` |
| `Batch` | the worker |

Code that mutates in place is modelled as methods over arrays: the
enumerator, the filler, the shuffle and the generator's puzzle. The
validator's maps and result set are method-local `map`s and a `seq` without
repeats.

Beyond soundness, the model proves completeness of the enumerator: when fewer
than `limit` grids come back, they are all the sound completions there are.
Two results follow from it. First, a removal the generator keeps leaves the
solution as the puzzle's unique completion. Second, `fillGrid` returns false
only for a grid without completions. An explicit solved grid, with row r
shifted by 3(r mod 3) + r div 3, shows that filling an empty board always
succeeds.

## Model

| member | source | states |
|---|---|---|
| Grid.CreateEmptyGrid | src/utils/sudokuLogic.js:4 | returns a fresh board of 81 blanks (`EmptyGrid`, whose blank count is 81) |
| Grid.SolvedIsCompletionOfEmpty | src/utils/sudokuLogic.js:4 | a completion of the empty board is exactly a solved grid: every cell 1..9 and no two peers equal |
| Grid.IsValid | src/utils/sudokuLogic.js:6-23 | the three early-exit scans (row, column, box starting at row - row%3, col - col%3) return true exactly when no peer of the cell, the cell itself included, holds `num` |
| Grid.IsValidMeansAllowed | src/utils/sudokuLogic.js:6-23 | both directions: the row, column and box scans all pass iff `num` is absent from every peer cell |
| Grid.RowFree | src/utils/sudokuLogic.js:8-10 | the row scan from column x passes iff no cell of the row from x on holds `num` |
| Grid.ColFree | src/utils/sudokuLogic.js:12-14 | the column scan from row x passes iff no cell of the column from x on holds `num` |
| Grid.BoxFree | src/utils/sudokuLogic.js:16-21 | the nested box scan passes iff none of the remaining box cells holds `num` |
| Grid.ClearMeansAllowed | src/utils/sudokuLogic.js:6-23 | the cell's row, column and box being clear of `num` is equivalent to `num` being absent from all peers |
| Grid.PlaceStep | src/utils/sudokuLogic.js:36-39 | writing an allowed digit into a blank: the completions of the new grid are exactly the old grid's completions holding that digit there |
| Grid.CompletionDigitAllowed | src/utils/sudokuLogic.js:35-36 | every completion writes into a blank a digit 1..9 that passes isValid on the grid before |
| Grid.FullGridCompletesOnlyToItself | src/utils/sudokuLogic.js:46 | a grid without blanks has itself as its only completion, conflicts included |
| Grid.ZeroCountFill | src/utils/sudokuLogic.js:37 | filling a blank lowers the blank count by one, the measure on which the recursions terminate |
| Grid.WitnessSolved | src/utils/sudokuLogic.js:61-77 | the shifted-rows grid is solved, so the empty board has a completion |
| Grid.SolvedUnitsArePermutations | src/utils/sudokuLogic.js:61-77 | every row, column and box of a solved grid holds each digit 1..9 |
| Shuffle.Shuffle | src/utils/sudokuLogic.js:53-59 | reorders the array in place and returns the same array; the multiset of elements, and so the length, is unchanged |
| Solver.Find | src/utils/sudokuLogic.js:27-47 | restores the grid. Returns the entry list extended, never beyond `limit` and untouched once `limit` is reached. Each pushed grid is a completion. Below `limit` every completion was pushed. No grid is pushed twice. A grid without blanks pushes exactly itself |
| Solver.TryDigits | src/utils/sudokuLogic.js:34-42 | the digit loop at the first blank: the cell is reset afterwards, every push is a completion, no grid is pushed twice, and below `limit` every completion was pushed |
| Solver.PlacementKeepsDistinct | src/utils/sudokuLogic.js:35-39 | grids pushed below digit num hold num at the blank and earlier pushes a smaller digit, so the pushes stay pairwise distinct |
| Solver.PermutationKeepsDistinct | src/utils/sudokuLogic.js:50 | shuffling a list without repeats yields a list without repeats |
| Solver.PlacementKeepsCoverage | src/utils/sudokuLogic.js:35-41 | after digits 1..num, every completion with a digit up to num at the blank has been collected |
| Solver.RejectedDigitKeepsCoverage | src/utils/sudokuLogic.js:36 | a digit isValid rejects is held at that blank by no completion |
| Solver.FindAllSolutions | src/utils/sudokuLogic.js:25-51 | reads the caller's grid only, through a deep copy. Returns at most `limit` grids, each a completion of the input. Fewer than `limit` means all completions. No grid is returned twice. A grid without blanks comes back as exactly one copy of itself |
| Filler.FillGrid | src/utils/sudokuLogic.js:61-77 | true: no blanks left and the result completes the entry grid, so every given is kept. False: the grid is unchanged and has no completion at all |
| Filler.TryNumbers | src/utils/sudokuLogic.js:64-73 | the shuffled digit loop at the first blank, same promise as fillGrid; every failed placement is undone |
| Filler.ShuffledDigits | src/utils/sudokuLogic.js:65 | a shuffle of [1..9] lists nine digits 1..9 and contains each of them |
| Filler.RejectedDigit | src/utils/sudokuLogic.js:67 | a digit isValid rejects is the digit of no completion at that blank |
| Filler.DeadEndDigit | src/utils/sudokuLogic.js:68-70 | a placed digit whose recursive fill fails is the digit of no completion at that blank |
| Filler.NoDigitLeft | src/utils/sudokuLogic.js:73 | when all nine listed digits are ruled out at a blank, the grid has no completion |
| Filler.FilledEmptyGridUnits | src/utils/sudokuLogic.js:61-77 | a successful fill of createEmptyGrid() is solved, and each row, column and box holds every digit 1..9 |
| Filler.EmptyGridIsFillable | src/utils/sudokuLogic.js:87-88 | the empty board has a completion, so fillGrid on it returns true |
| Generator.Attempt | src/utils/sudokuLogic.js:87-118 | one attempt returns a well-formed pair. The solution is solved and the puzzle only blanks its cells. The solution is the puzzle's unique completion. The blank count equals removedCount and is at most the target. An attempt short of the target has visited every cell, so none of the puzzle's givens can be blanked with the solution staying unique |
| Generator.SettledStep | src/utils/sudokuLogic.js:97-118 | one loop visit leaves the visited cell and every earlier-visited cell blank or impossible to blank without a second completion |
| Generator.BlankKeepsSettled | src/utils/sudokuLogic.js:106-113 | blanking another cell keeps a cell that could not be blanked in that state |
| Generator.MoreBlanksKeepCompletion | src/utils/sudokuLogic.js:106-113 | a completion of a puzzle taken from a solved grid stays a completion when more cells are blanked |
| Generator.NewSolution | src/utils/sudokuLogic.js:87-90 | createEmptyGrid filled by fillGrid and copied is a solved grid |
| Generator.RemovalOrder | src/utils/sudokuLogic.js:93 | the shuffled removal order is a permutation of the cell indices 0..80, so every cell is listed |
| Generator.TryRemoval | src/utils/sudokuLogic.js:100-117 | the cell is kept blank iff it held a digit and blanking it leaves the solution as the only completion. A kept blank adds exactly one blank. Otherwise the puzzle is unchanged. Uniqueness and agreement are kept either way |
| Generator.UniqueMeansOneFound | src/utils/sudokuLogic.js:107-110 | when the solution is the blanked puzzle's only completion, findAllSolutions(puzzle, 2) returns exactly one grid |
| Generator.KeptRemoval | src/utils/sudokuLogic.js:106-117 | when findAllSolutions(puzzle, 2) returns one grid after a blank, the solution is still the unique completion |
| Generator.NoBlanksMeansSolution | src/utils/sudokuLogic.js:121-123 | a puzzle without blanks that agrees with the solution is the solution (the removals <= 0 case) |
| Generator.GenerateSudoku | src/utils/sudokuLogic.js:79-141 | always returns a pair, after 1..30 attempts, that is well formed for `removals`. The first attempt reaching the target returns with exactly `removals` blanks, and earlier attempts fell short. Otherwise, after 30 attempts, the attempt with the most blanks is returned, and none of its givens can be blanked with the solution staying unique. With removals <= 0, the puzzle equals its solution |
| Validator.ValidateGrid | src/utils/sudokuLogic.js:143-202 | reports a cell iff it holds a digit that another cell of its row, column or box also holds. Each cell is reported once, and blanks never |
| Validator.CheckRowsAndColumns | src/utils/sudokuLogic.js:149-173 | after the first loop, the set holds exactly the cells repeating a digit within their row or their column |
| Validator.ScanRowAndColumn | src/utils/sudokuLogic.js:150-172 | iteration i adds exactly the repeated cells of row i and of column i |
| Validator.CheckCell | src/utils/sudokuLogic.js:155-171 | one map step: a digit already in the map reports this cell and the recorded one, and the map then records this position |
| Validator.CheckBoxes | src/utils/sudokuLogic.js:175-195 | the second loop adds exactly the cells repeating a digit within their box |
| Validator.ScanBox | src/utils/sudokuLogic.js:178-193 | the scan of one box adds exactly that box's repeated cells |
| Validator.CheckBoxCell | src/utils/sudokuLogic.js:181-191 | one box map step keeps the map and the reported set in step with the cells scanned |
| Validator.AddInvalid | src/utils/sudokuLogic.js:147 | adding to the set: membership gains exactly the new cell, and no cell appears twice |
| Validator.ConflictIsUnitDup | src/utils/sudokuLogic.js:143-195 | a conflict with some peer is exactly a repeat within the row, the column or the box |
| Validator.RowUnitDups | src/utils/sudokuLogic.js:155-162 | the repeats found in row i are exactly row i's cells whose digit recurs in the row |
| Validator.ColUnitDups | src/utils/sudokuLogic.js:164-171 | the same for column i |
| Validator.BoxUnitDups | src/utils/sudokuLogic.js:179-193 | the repeats found in a box are exactly the box's cells whose digit recurs in the box |
| Validator.DupStep | src/utils/sudokuLogic.js:156-161 | reading one more cell adds to the repeats exactly this cell and the one recorded for its digit, and nothing for a new digit or a blank |
| Batch.NumberToTime | src/sudoku.worker.js:4-8 | minutes = floor(t / 60000), seconds = floor of the JavaScript remainder by 60000, over 1000. For t >= 0 this gives 0 <= seconds < 60 and minutes·60000 + seconds·1000 <= t < that + 1000. Negative t gives negative minutes and seconds in -60..0 |
| Batch.NumberToTimeUnique | src/sudoku.worker.js:4-8 | for t >= 0 the label is the only (minutes, seconds) pair bracketing t that way |
| Batch.JsDivision | src/sudoku.worker.js:18 | the JavaScript remainder and the truncated quotient rebuild the dividend |
| Batch.Counts | src/sudoku.worker.js:16-22 | one count per chosen difficulty; for a non-negative total each is floor(total/n) or one more |
| Batch.CountsShape | src/sudoku.worker.js:16-22 | each count is floor(total/n) or one more, and exactly the first total % n get one more |
| Batch.CountsSum | src/sudoku.worker.js:16-22 | the counts add up to totalSudokus |
| Batch.InitialEstimate | src/sudoku.worker.js:24-28 | the reduce's sum of counts[d] times difficulty d's estimate: non-negative when counts and estimates are, 0 when every count is 0 |
| Batch.EstimateCoversPlan | src/sudoku.worker.js:24-28 | the reduce's initial estimate equals the sum of the estimates of all planned generation calls |
| Batch.PlannedLength | src/sudoku.worker.js:30-34 | the plan makes Sum(counts) generation calls |
| Batch.RunBatch | src/sudoku.worker.js:10-61 | difficulties are taken in chosen order, with counts[d] calls each. There is one progress record per call: `generated` is the number of puzzles so far, `total` is totalSudokus, and the time shown is the estimate left. Then one result record lists every puzzle in generation order, each tagged with its level and well formed for its removals |
| Batch.GenerateLevel | src/sudoku.worker.js:31-53 | the inner loop makes counts[d] generation calls for one difficulty and keeps the log in step |
| Batch.GenerateOne | src/sudoku.worker.js:35-51 | one call: the entry appended with the level, the estimate lowered by the difficulty's estimate, one progress record emitted |
| Batch.LogStep | src/sudoku.worker.js:37-51 | appending an entry and its progress record keeps every earlier entry and record as they were |
| Batch.FinalProgress | src/sudoku.worker.js:16-53 | for a positive total there are exactly totalSudokus calls, and the last progress record reads totalSudokus generated with 0m 0s left |
| Batch.BatchAccounting | src/sudoku.worker.js:46-61 | RunBatch's output for a positive total has totalSudokus progress records plus the result. The last progress record is (totalSudokus, totalSudokus, 0m 0s) |

## Left out

- Randomness. `Math.random` in `shuffle` is a nondeterministic choice of swap
  index. Callers therefore rely only on "some permutation". Which solved grid
  `fillGrid` builds, and which cells the generator tries, are unconstrained.
- Text formatting. `numberToTime` returns its two numbers as a `TimeLabel`,
  not the `"<m>m <s>s"` string.
- `validateGrid`'s `"r-c"` keys. The keys and their parsing back into
  `{row, col}` are modelled directly as `CellRef` values.
- Validator.ValidateGrid: states which cells are reported and that each
  appears once, not the order in which they are reported.
- Solver.FindAllSolutions: the final `shuffle` of the solutions is modelled,
  but the contract does not fix their order.
- Messaging. The worker's `postMessage` calls become the returned sequence of
  `Message` values. `console.log`, `console.warn` and worker set-up are I/O and
  are left out.
- The caller's difficulty settings. `src/App.js` is not part of this model. The
  planner takes each difficulty's `removals`, `estimatedTime` and `level` as
  integer inputs.
- Batch.RunBatch: requires a non-empty difficulty list and a setting for every
  chosen key. The caller refuses an empty choice. An unknown key makes the
  source throw while it reads the estimate.
- Numbers are unbounded integers. The source's JavaScript numbers are
  doubles; totals and times far beyond 2^53 are not modelled.
- Layout. The grid is stored flat (81 cells) rather than as nine row arrays.
  Both are indexed the same way, and the JSON deep copies become fresh arrays
  or sequence values.
- Structure. The source's nested loops are split into helper methods, each
  proved against the same invariant:
  - `Find`/`TryDigits` and `FillGrid`/`TryNumbers` split first-blank search
    from the digit loop;
  - `Attempt`, `NewSolution`, `RemovalOrder` and `TryRemoval` split one
    generator attempt;
  - the validator's per-cell helpers `CheckCell` and `CheckBoxCell`;
  - `GenerateLevel` and `GenerateOne` split the worker's inner loop.
- The row/column maps. In `validateGrid` these store the position within the
  unit, which is the source's stored column (row map) or row (column map).
