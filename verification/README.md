# Sudoku checker engine

A Dafny model of the solving and validation engine of a 9x9 Sudoku
program. The engine exists in two variants, both named `SudokuChecker`:

- The class behind the graphical interface (`src/gui/backend/SudokuChecker.java`). It checks a single entry against its row, column and box (`checkValue`). It fills in the possible values of the empty cells (`getPossibleValues`). It runs a recursive solver (`getSolution`, `solve()`, `solve(row, col)`).
- The class of the command-line program (`src/SudokuChecker.java`). It solves the grid it is given as soon as it is constructed. To do so it sweeps over the empty cells with `getAvailableNumbers` until `isValidSolution` holds.

Both classes carry the same helpers:

- `intersection`.
- The row, column and box remaining-number queries.
- `arrayListToArray`.
- `isValidSet` and `isValidSolution`.
- `getAvailableNumbers`, and the cascade `updatePossibleValues` it starts when a cell has a single candidate.

The model has eight modules:

- `Cells` (cells.dfy): a cell is its value, 0 when empty, with its list of possible values. The grid is an `array2<Cell>` updated in place. `Snapshot` reads it as a `Board`, a 9x9 sequence of cells.
- `Rules` (rules.dfy): the rules as pure functions. These are the digits missing from a row, column or box, the intersection of two lists, the candidates of a cell, and the valid set and valid solution.
- `Queries` (queries.dfy): the helper methods as loops over the grid. Each is proved to compute the matching `Rules` function.
- `PropagationSpec` (propagation_spec.dfy): `getAvailableNumbers`, `updatePossibleValues`, one sweep of the command-line solver and its solve loop, as functions over boards. It also holds what is proved about them.
- `PropagationInPlace` (propagation_in_place.dfy): the same two operations as methods that update the grid in place and recurse through the cascade. Each is proved to leave exactly the board the `PropagationSpec` function describes.
- `Backtracking` (backtracking.dfy): `solve(row, col)` as written, and the backtracking search it evidently stands for. The search is proved sound and complete.
- `GuiBackend` (gui_checker.dfy): the GUI class, with fields `grid` and `origGrid`.
- `Cli` (cli_checker.dfy): the command-line class.

Both constructors keep the caller's grid itself (`src/gui/backend/SudokuChecker.java:31`, `src/SudokuChecker.java:46`), so every operation updates the caller's cells; only the GUI's `origGrid` is a copy. The model's classes likewise hold the caller's `array2` and update it in place.

Where a comment in the source promises more than the code does, the model follows the code:

- The comment at `src/gui/backend/SudokuChecker.java:251-252` says the cell is reset after a failed digit. No statement follows it: a failed digit loop leaves the last digit it tried in the cell (`Backtracking.FailedLeavesLast`).
- The comment at `src/SudokuChecker.java:148` says the loop continues until a valid solution is reached. The loop has no other exit, so on a grid that no sweep can finish it never ends (see Findings).
- The comment of `getAvailableNumbers` (`src/SudokuChecker.java:81`) says it returns the available numbers. The method returns nothing. With an empty intersection (`src/SudokuChecker.java:87-88`) it leaves the cell as it is, and nothing reports the grid as unsolvable.

## Model

| member | source | states |
|---|---|---|
| Cells.SetCell | src/gui/backend/SudokuChecker.java:170 | writing one cell of the grid changes that cell and no other |
| Cells.BoxValuesBySlot | src/gui/backend/SudokuChecker.java:341-348 | a digit is among a box's values iff one of its nine slots, taken row by row, holds it |
| Cells.BoxMembership | src/gui/backend/SudokuChecker.java:68-77 | a digit is among a box's values iff some cell of that box holds it |
| Cells.BoxSlotOf | src/gui/backend/SudokuChecker.java:416-423 | every cell of a box is at slot (i % 3) * 3 + j % 3 of the box's values |
| Rules.MissingUpTo | src/gui/backend/SudokuChecker.java:289-299 | after the digits 1..n are considered, the list holds exactly those not present, ascending |
| Rules.Missing | src/gui/backend/SudokuChecker.java:287-302 | the remaining numbers are exactly the digits 1..9 not present, each once, ascending |
| Rules.CommonElements | src/gui/backend/SudokuChecker.java:132-140 | the intersection holds exactly the elements present in both lists |
| Rules.CommonElementsIsSubsequence | src/gui/backend/SudokuChecker.java:134-137 | the intersection keeps the first list's order: it is a subsequence of it |
| Rules.CommonElementsAscending | src/gui/backend/SudokuChecker.java:132-140 | the intersection of an ascending list with any list is ascending |
| Rules.Candidates | src/gui/backend/SudokuChecker.java:152-154 | the intersection of the three remaining lists holds exactly the digits absent from the cell's row, column and box, ascending |
| Rules.AllRemaining | src/gui/backend/SudokuChecker.java:267-279 | getAllRemainingNumbers lists exactly the digits present in the row AND the column AND the box, ascending |
| Rules.UnitMembership | src/gui/backend/SudokuChecker.java:54-80 | a value occurs in the row, column or box of a cell iff some cell of those units holds it |
| Rules.CandidatesArePlaceable | src/gui/backend/SudokuChecker.java:96-99 | on an empty cell, a digit is a candidate iff placing it clashes with no peer |
| Rules.DigitsMembership | src/gui/backend/SudokuChecker.java:273-277 | the list 1..9 has nine entries, and they are the digits |
| Rules.DistinctDigitsAreAllDigits | src/gui/backend/SudokuChecker.java:442-456 | nine distinct digits are all nine digits (pigeonhole) |
| Rules.ValidSetCounts | src/gui/backend/SudokuChecker.java:442-456 | a set isValidSet accepts holds every digit exactly once |
| Rules.PermutationIsValidSet | src/gui/backend/SudokuChecker.java:442-456 | every arrangement of the digits 1..9 is accepted by isValidSet |
| Rules.ValidSetIsPermutation | src/gui/backend/SudokuChecker.java:442-456 | isValidSet accepts exactly the permutations of 1..9 |
| Rules.DistinctCardinality | src/gui/backend/SudokuChecker.java:443-453 | a list without repeats has as many distinct elements as entries |
| Queries.Intersection | src/gui/backend/SudokuChecker.java:132-140 | intersection returns the elements of a that b contains, in a's order |
| Queries.RowRemainingNumbers | src/gui/backend/SudokuChecker.java:287-302 | returns the digits no cell of the row holds, ascending |
| Queries.ColRemainingNumbers | src/gui/backend/SudokuChecker.java:310-325 | returns the digits no cell of the column holds, ascending |
| Queries.BoxRemainingNumbers | src/gui/backend/SudokuChecker.java:335-354 | returns the digits no cell of the box holds, ascending |
| Queries.BoxHolds | src/gui/backend/SudokuChecker.java:340-348 | the nested search sets found iff some cell of the box holds the digit, although a match leaves only the inner loop |
| Queries.BoxRowHolds | src/gui/backend/SudokuChecker.java:342-347 | the inner search finds the digit iff one of the three cells of that box row holds it |
| Queries.CopyList | src/gui/backend/SudokuChecker.java:102-105 | the element-by-element copy equals the intersection |
| Queries.ArrayListToArray | src/gui/backend/SudokuChecker.java:366-372 | a fresh array with the list's elements in order |
| Queries.IsValidSet | src/gui/backend/SudokuChecker.java:442-456 | true iff the nine values are digits with no repeat, that is, a permutation of 1..9 |
| Queries.IsValidSolution | src/gui/backend/SudokuChecker.java:383-432 | true iff every cell holds 1..9 and every row, column and box passes isValidSet |
| Queries.AllCellsAreDigits | src/gui/backend/SudokuChecker.java:385-390 | true iff every cell holds a value from 1 to 9 |
| Queries.RowsAreValidSets | src/gui/backend/SudokuChecker.java:393-402 | true iff every row is a valid set |
| Queries.ColumnsAreValidSets | src/gui/backend/SudokuChecker.java:405-414 | true iff every column is a valid set |
| Queries.BoxesAreValidSets | src/gui/backend/SudokuChecker.java:417-429 | true iff each of the nine boxes is a valid set |
| Queries.BoxRowIsValid | src/gui/backend/SudokuChecker.java:418-428 | true iff the three boxes of one band are valid sets |
| Queries.BoxIsValidSet | src/gui/backend/SudokuChecker.java:419-427 | true iff the box copied into the array is a valid set |
| Queries.CopyBox | src/gui/backend/SudokuChecker.java:419-423 | the fresh array holds the box's nine values, row by row |
| Queries.BoxFromCells | src/gui/backend/SudokuChecker.java:420-423 | the value written at k * 3 + l is slot k * 3 + l of the box, so the array is the box |
| PropagationSpec.Remove | src/SudokuChecker.java:118 | removing v leaves exactly the other possible values and never lengthens the list |
| PropagationSpec.NarrowsTransitive | src/SudokuChecker.java:113-142 | propagation steps compose: two narrowings are one narrowing |
| PropagationSpec.NarrowsEmptyCells | src/SudokuChecker.java:113-142 | propagation never empties a cell |
| PropagationSpec.FillShrinks | src/SudokuChecker.java:119-121 | filling an empty cell removes exactly that cell from the empty ones, which bounds the cascade |
| PropagationSpec.Touch | src/SudokuChecker.java:117-123 | one peer step only narrows the grid, keeps possible values digits and never adds an empty cell; what it does to the peer itself is `TouchFills` |
| PropagationSpec.UpdateLines | src/SudokuChecker.java:116-131 | the row and column loop only narrows the grid and never adds an empty cell; each peer it visits is filled when one possible value is left (`TouchFills`) |
| PropagationSpec.ClearBox | src/SudokuChecker.java:133-141 | each empty cell of the box loses v; no value and no other cell changes |
| PropagationSpec.Update | src/SudokuChecker.java:113-142 | updatePossibleValues only narrows the grid and terminates, since every cascade call fills a cell; a row or column peer left with one possible value is filled with it and cascades (`TouchFills`) |
| PropagationSpec.TouchFills | src/SudokuChecker.java:117-129 | an empty peer left with exactly one possible value after losing v holds that value afterwards, the cascade from it never changing it; otherwise it stays empty with the shortened list |
| PropagationSpec.TouchSettles | src/SudokuChecker.java:117-123 | after a peer step the peer is filled or no longer lists v |
| PropagationSpec.UpdateLinesSettles | src/SudokuChecker.java:116-131 | after the line loop every row and column peer is filled or no longer lists v |
| PropagationSpec.UpdateClears | src/SudokuChecker.java:106-113 | afterwards no empty cell of the row, column or box still lists the placed value, as the comment promises |
| PropagationSpec.CandidatesAreDigits | src/SudokuChecker.java:84-85 | the candidates are digits 1..9 |
| PropagationSpec.SetWellFormed | src/SudokuChecker.java:102 | writing possible values that are digits keeps every possible value a digit |
| PropagationSpec.NarrowsFillsOnly | src/SudokuChecker.java:113-142 | on a grid whose possible values are digits, propagation only puts digits into empty cells |
| PropagationSpec.FillsOnlyTransitive | src/SudokuChecker.java:150-156 | filling steps compose |
| PropagationSpec.FillsOnlySameEmpty | src/SudokuChecker.java:149-157 | a step that fills no cell changes no value |
| PropagationSpec.GetAvailable | src/SudokuChecker.java:83-104 | getAvailableNumbers never adds an empty cell and on an empty cell only fills with digits |
| PropagationSpec.Place | src/SudokuChecker.java:89-94 | the cell gets the single candidate and the cascade never adds an empty cell |
| PropagationSpec.Note | src/SudokuChecker.java:95-103 | the candidates become the cell's possible values; no value and no other cell changes |
| PropagationSpec.GetAvailableCases | src/SudokuChecker.java:87-103 | no candidate changes nothing; one candidate is placed and clashes with no peer; two or more become the possible values and nothing else changes |
| PropagationSpec.CandidatesByValues | src/SudokuChecker.java:84-85 | candidates depend on the values of the grid only |
| PropagationSpec.ValidSolutionByValues | src/SudokuChecker.java:263-315 | isValidSolution depends on the values of the grid only |
| PropagationSpec.Visit | src/SudokuChecker.java:152-154 | visiting a cell only fills empty cells with digits |
| PropagationSpec.PassRow | src/SudokuChecker.java:151-155 | the inner sweep loop only fills empty cells with digits |
| PropagationSpec.PassFrom | src/SudokuChecker.java:150-156 | the outer sweep loop only fills empty cells with digits |
| PropagationSpec.Pass | src/SudokuChecker.java:150-156 | one sweep only fills empty cells with digits |
| PropagationSpec.Propagate | src/SudokuChecker.java:147-158 | the solve loop with fuel only fills cells, and reports success iff the grid it leaves is a valid solution |
| PropagationSpec.StuckByValues | src/SudokuChecker.java:152-154 | whether a grid is stuck depends on its values only |
| PropagationSpec.StuckVisit | src/SudokuChecker.java:152-154 | on a stuck grid visiting a cell changes no value |
| PropagationSpec.StuckPassRow | src/SudokuChecker.java:151-155 | on a stuck grid a row sweep changes no value |
| PropagationSpec.StuckPassFrom | src/SudokuChecker.java:150-156 | on a stuck grid the sweep changes no value |
| PropagationSpec.StuckPass | src/SudokuChecker.java:150-156 | a sweep over a stuck unsolved grid leaves it stuck, unsolved and with the same values |
| PropagationSpec.StuckSweep | src/SudokuChecker.java:149-157 | one iteration of the loop on a stalled grid leads to a stalled grid |
| PropagationSpec.StuckNeverSolved | src/SudokuChecker.java:149 | on a stuck unsolved grid no number of sweeps reaches a solution |
| PropagationSpec.EmptyGridStuck | src/SudokuChecker.java:147-158 | the empty grid is stuck and unsolved |
| PropagationSpec.EmptyCellCandidates | src/SudokuChecker.java:84-85 | on the empty grid 1 and 2 are candidates of every cell |
| PropagationSpec.ZeroUnits | src/SudokuChecker.java:168-238 | on the empty grid no row, column or box holds a digit |
| PropagationSpec.EmptyGridNeverSolved | src/SudokuChecker.java:147-158 | on the empty grid the loop never reaches a solution, however many sweeps it makes |
| PropagationSpec.UnchangedPassRowStuck | src/SudokuChecker.java:151-155 | a row sweep that fills nothing met no empty cell with a single candidate |
| PropagationSpec.UnchangedVisit | src/SudokuChecker.java:152-154 | the first step of a row sweep that fills nothing changes no value |
| PropagationSpec.UnchangedRowStep | src/SudokuChecker.java:151-155 | when a row sweep fills nothing, neither does its first step nor its rest |
| PropagationSpec.SingleCandidateFills | src/SudokuChecker.java:89-94 | an empty cell with a single candidate is filled by its visit |
| PropagationSpec.UnchangedPassFromStuck | src/SudokuChecker.java:150-156 | a sweep that fills nothing met no empty cell with a single candidate |
| PropagationSpec.UnchangedRow | src/SudokuChecker.java:150-156 | the first row of a sweep that fills nothing has no single candidate and changes no value |
| PropagationSpec.Settle | src/SudokuChecker.java:147-158 | the loop with a stall check terminates and reports success iff the grid it leaves is a valid solution |
| PropagationSpec.SettleOutcome | src/SudokuChecker.java:147-158 | settling only fills cells with digits, and when it stops without a solution the grid is stuck |
| PropagationInPlace.UpdatePossibleValues | src/SudokuChecker.java:113-142 | the in-place cascade leaves exactly the board of Update |
| PropagationInPlace.RemoveFromLines | src/SudokuChecker.java:116-131 | the in-place line loop leaves exactly the board of UpdateLines |
| PropagationInPlace.RemoveFromLinePeers | src/SudokuChecker.java:117-130 | one iteration of the line loop advances UpdateLines by one index |
| PropagationInPlace.RemoveFromBox | src/SudokuChecker.java:133-141 | the in-place box loop leaves exactly the board of ClearBox |
| PropagationInPlace.RemoveFromPeer | src/SudokuChecker.java:117-123 | the in-place peer step leaves exactly the board of Touch |
| PropagationInPlace.GetAvailableNumbers | src/SudokuChecker.java:83-104 | getAvailableNumbers in place leaves exactly the board of GetAvailable |
| Backtracking.NextCol | src/gui/backend/SudokuChecker.java:229 | the next column is again a column of the grid, 0 after 8 |
| Backtracking.NextRow | src/gui/backend/SudokuChecker.java:230 | the row stays the same except after column 8, where it moves down by one |
| Backtracking.SetValue | src/gui/backend/SudokuChecker.java:246 | setting a value changes only that cell's value, keeping its possible values and every other cell |
| Backtracking.NextPos | src/gui/backend/SudokuChecker.java:229-230 | the next cell is the next row-major index, and solve reaches row 9 only from (8, 8) |
| Backtracking.SolveFrom | src/gui/backend/SudokuChecker.java:228-256 | solve(row, col) only writes digits into empty cells from (row, col) on, and succeeds only if every cell from there on was empty |
| Backtracking.TryDigits | src/gui/backend/SudokuChecker.java:245-253 | the digit loop only writes digits into the trial cell and later empty cells, and succeeds only if every later cell was empty |
| Backtracking.TriedStep | src/gui/backend/SudokuChecker.java:246-250 | a successful attempt wrote the digit and later cells only |
| Backtracking.ClearedStep | src/gui/backend/SudokuChecker.java:246-252 | a failed attempt, with the trial cell emptied, wrote only later cells |
| Backtracking.FailedLeavesLast | src/gui/backend/SudokuChecker.java:245-253 | when the digit loop fails, the cell under trial holds the last digit tried: it is never reset |
| Backtracking.FailedSolveLeavesLast | src/gui/backend/SudokuChecker.java:240-253 | a failing solve(row, col) at an empty cell with digits to try leaves the last of them in the cell |
| Backtracking.Solve | src/gui/backend/SudokuChecker.java:217-219 | solve() only writes digits into empty cells and never reports success |
| Backtracking.SolveNeverSucceeds | src/gui/backend/SudokuChecker.java:228-256 | solve(0, 0) reports failure on every grid |
| Backtracking.NoDigitRemains | src/gui/backend/SudokuChecker.java:267-279 | when the first row is empty, getAllRemainingNumbers(0, 0) is empty |
| Backtracking.Search | src/gui/backend/SudokuChecker.java:228-256 | corrected solve: writes only empty cells; on failure leaves the grid as it was; on success fills every cell and keeps it consistent |
| Backtracking.SearchAll | src/gui/backend/SudokuChecker.java:217-219 | corrected solve(): writes only empty cells; on failure leaves the grid as it was; on success every cell is filled |
| Backtracking.SearchDigits | src/gui/backend/SudokuChecker.java:245-253 | corrected digit loop, with the same guarantees, resetting the cell after a failed candidate |
| Backtracking.SkipStep | src/gui/backend/SudokuChecker.java:237-238 | passing over a filled cell extends the guarantees of the search from the next cell |
| Backtracking.PlaceStep | src/gui/backend/SudokuChecker.java:246-250 | placing a digit extends the guarantees of the search from the next cell |
| Backtracking.PlaceKeepsConsistent | src/gui/backend/SudokuChecker.java:246 | placing a candidate into an empty cell of a consistent grid keeps it consistent |
| Backtracking.SearchSound | src/gui/backend/SudokuChecker.java:228-256 | on a consistent grid, success yields a valid solution that keeps every given |
| Backtracking.SearchComplete | src/gui/backend/SudokuChecker.java:228-256 | if some valid solution keeps every given, the search succeeds |
| Backtracking.SearchFinds | src/gui/backend/SudokuChecker.java:237-253 | the search from any cell succeeds when a solution agrees with the grid's givens |
| Backtracking.SearchDigitsFinds | src/gui/backend/SudokuChecker.java:245-253 | the candidate loop succeeds when the solution's digit is still to be tried |
| Backtracking.SolutionDigitIsCandidate | src/gui/backend/SudokuChecker.java:241 | the digit a solution puts into an empty cell is a candidate of that cell |
| Backtracking.SolutionIsFilledAndConsistent | src/gui/backend/SudokuChecker.java:383-432 | isValidSolution holds iff the grid is full and no two peers share a value |
| Backtracking.BoxSlotsDiffer | src/gui/backend/SudokuChecker.java:416-429 | in a valid solution two different cells of one box hold different values |
| Backtracking.BoxIsDistinct | src/gui/backend/SudokuChecker.java:416-429 | in a full consistent grid every box is a valid set |
| Backtracking.PeersDiffer | src/gui/backend/SudokuChecker.java:68-77 | in a consistent grid two filled cells of one box differ |
| GuiBackend.PossibleValues | src/gui/backend/SudokuChecker.java:89-113 | filled cells are kept; each empty cell gets the candidates computed from the checker's grid |
| GuiBackend.PossibleValuesArePlaceable | src/gui/backend/SudokuChecker.java:82-113 | each empty cell lists, ascending, exactly the digits checkValue would accept there |
| GuiBackend.NotedAll | src/gui/backend/SudokuChecker.java:90-109 | after all 81 cells the partial result is the whole result |
| GuiBackend.SudokuChecker.constructor | src/gui/backend/SudokuChecker.java:30-41 | keeps the caller's grid itself, and origGrid gets a copy of its values |
| GuiBackend.SudokuChecker.CheckValue | src/gui/backend/SudokuChecker.java:54-80 | true iff no other cell of the row, column or box holds the value |
| GuiBackend.SudokuChecker.GetPossibleValues | src/gui/backend/SudokuChecker.java:89-113 | the given grid gets the possible values of PossibleValues and becomes the checker's grid |
| GuiBackend.SudokuChecker.NoteRow | src/gui/backend/SudokuChecker.java:91-108 | one row of the loop advances the partial result by one row |
| GuiBackend.SudokuChecker.NoteCandidates | src/gui/backend/SudokuChecker.java:96-107 | the cell's possible values become its candidates; nothing else changes |
| GuiBackend.SudokuChecker.CandidatesOf | src/gui/backend/SudokuChecker.java:96-107 | a fresh array holding the cell's candidates, ascending |
| GuiBackend.SudokuChecker.GetSolution | src/gui/backend/SudokuChecker.java:120-123 | runs solve() and returns the checker's grid |
| GuiBackend.SudokuChecker.SolveAll | src/gui/backend/SudokuChecker.java:217-219 | solve() leaves the board SolveFrom(0, 0) describes and reports failure |
| GuiBackend.SudokuChecker.SolveAt | src/gui/backend/SudokuChecker.java:228-256 | the in-place recursion leaves exactly the result of SolveFrom |
| GuiBackend.SudokuChecker.TryDigitsAt | src/gui/backend/SudokuChecker.java:245-253 | the in-place digit loop leaves exactly the result of TryDigits |
| GuiBackend.SudokuChecker.GetAllRemainingNumbers | src/gui/backend/SudokuChecker.java:267-279 | returns the digits present in the row, the column and the box, ascending |
| Cli.VisitFillsCell | src/SudokuChecker.java:152-154 | visiting an empty cell changes the empty cells iff it fills that cell, and otherwise changes no value |
| Cli.SudokuChecker.constructor | src/SudokuChecker.java:45-55 | keeps the grid and solves it in place, here with at most fuel sweeps |
| Cli.SudokuChecker.Solve | src/SudokuChecker.java:147-158 | the in-place loop leaves exactly the outcome of Propagate |
| Cli.SudokuChecker.SolveUntilStuck | src/SudokuChecker.java:147-158 | the loop with a stall check terminates with exactly the outcome of Settle |
| Cli.SudokuChecker.Sweep | src/SudokuChecker.java:150-156 | one in-place sweep leaves exactly Pass of the grid, and reports whether it filled a cell |
| Cli.SudokuChecker.SweepRow | src/SudokuChecker.java:151-155 | one in-place row sweep leaves exactly PassRow, and reports whether it filled a cell |

## Left out

- `Cell.java` is not part of this model. A cell is its value and its list of possible values. `setValue` assigns the value. `removePossibleValue` deletes every occurrence. `setPossibleValues` replaces the list. The flag the GUI passes to `setValue`, and the cell's row and column fields, are not modelled.
- Printing is not modelled: the command-line constructor printing the grid, and `isValidSolution` printing which row, column or box failed.
- PropagationSpec.Update: the cascade is proved to terminate only on grids whose possible values are all digits 1..9 (`WellFormed`). Every operation that propagates requires this. On a grid whose possible values include something else, such as 0, a cascade can fill a cell with a non-digit, and its termination is not established.
- PropagationSpec.Propagate: the command-line loop runs until the grid is a valid solution. The model bounds it by a number of sweeps (`fuel`). For every fuel the loop does not end on a stuck grid (see Findings). How the source behaves after any number of sweeps is covered; the non-termination itself is not a value Dafny can return.
- Cli.SudokuChecker.constructor: for the same reason, it solves with a fuel bound.
- GuiBackend.SudokuChecker.constructor: `origGrid` holds the values of the grid, not new `Cell` objects, because the `Cell` constructor is not part of this model. Nothing in the core reads `origGrid` again.
- The GUI class's `getAvailableNumbers` and `updatePossibleValues` are never called in that class. They equal the command-line copies except for the `setValue` flag. They are modelled once, in `PropagationSpec` and `PropagationInPlace`.
- Loop bodies and inner loops are separate methods (`SweepRow`, `RemoveFromLinePeers`, `BoxRowHolds`, `BoxRowIsValid`, `NoteRow`, `NoteCandidates`, `CopyBox`). Each one is proved against the step of the loop it replaces.
- The worked example in the comment at the head of `src/SudokuChecker.java` (lines 18-40) is not modelled as a concrete grid. Showing that its 81-cell answer is a valid solution means unfolding every row, column and box check on concrete sequences, which costs the verifier far more than the general lemmas do, and those lemmas already cover every grid.
- The user interface, file reading and the other classes of the program are not part of this model.

## Findings

| source | as written | input that shows it | evidently intended | confidence | as-written member | corrected member |
|---|---|---|---|---|---|---|
| src/gui/backend/SudokuChecker.java:228-256 | at a filled cell `solve(row, col)` ignores the recursive call's answer and returns false; at an empty cell it tries only the digits `getAllRemainingNumbers` lists, which are those already present in the row, column and box; a failed digit is left in the cell | any grid, e.g. the puzzle in the comment of `src/SudokuChecker.java`: `solve()` returns false | backtracking that returns the recursive answer at filled cells, tries the digits absent from the row, column and box, and empties the cell after a failed digit | not executed | Backtracking.SolveNeverSucceeds | Backtracking.SearchSound, Backtracking.SearchComplete |
| src/SudokuChecker.java:147-158 | the loop sweeps until `isValidSolution` holds and has no exit when a sweep fills no cell | the grid with all 81 cells empty: every cell has nine candidates, no sweep changes a value, and the loop never ends | stop when a sweep fills no cell, reporting whether the grid is solved | not executed | PropagationSpec.EmptyGridNeverSolved | PropagationSpec.SettleOutcome, Cli.SudokuChecker.SolveUntilStuck |
