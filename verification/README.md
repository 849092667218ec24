# Sudoku backtracking solver — a Dafny model

This project models the core of `sudoku.py`, a small Sudoku solver. A board
is a 9x9 list of integer rows, and `0` (`EMPTY`) marks a cell without a
digit. The solver does a depth-first search:

- `select_unassigned_var` picks the first empty cell in row-major order.
- `result` copies the board and writes a digit into that cell.
- `consistent` rejects the board if any row, column or 3x3 box repeats a
  non-zero value.
- `backtrack` tries the digits of `VARIABLES` (1..9) in order and returns
  the first full board it reaches, or `None`.

The board helpers `initial_state`, `is_valid`, `actions` and `solved` are
modelled too.

Files and modules:

- `wrappers.dfy` (`Wrappers`): the `Option` type, standing for Python's
  `None` or a value.
- `groups.dfy` (`Groups`): one group of nine cells and `is_valid_group`.
  It is tied to its meaning: no non-empty value occurs twice.
- `grid.dfy` (`Grid`): the constants, the board, `initial_state`,
  `is_valid`, `consistent`, `solved`, `result`, `select_unassigned_var` and
  `actions`. Each is
  related to a declarative reading of the Sudoku rules. The ghost predicate
  `NoConflicts` says that no two distinct cells that share a row, column or
  box hold the same non-empty value.
- `solver.dfy` (`Solver`): `backtrack`, with soundness, completeness,
  ordering and idempotence lemmas.

Modelling choices:

- Boards are values (`seq<seq<int>>`). The row-by-row copy in `result` is
  therefore the Dafny sequence update, and the caller's board cannot change.
- Cells hold unbounded integers, as Python's do. Only the 9x9 shape
  (`IsGrid`) is required.
- `backtrack`'s `for val in VARIABLES` loop with early `return` is the
  generic `FirstSome`. It is applied to `Attempts(b, cell)`, the loop body
  as a function of the digit. `Attempt` is one iteration: `result`, then
  `consistent`, then the recursive call.
- The recursion is well founded. Every call fills one empty cell
  (`EmptyCount` drops by one), and a board has at most 81 empty cells.

The comment on the base case of `backtrack` (sudoku.py:145, "If solved,
return the solution") and the docstring of `solved` (sudoku.py:140, "fully
solved") promise a solution. But `solved` only checks that no cell holds
`EMPTY` (sudoku.py:141), so `backtrack` returns any full board unchanged,
whether or not it breaks the rules. The model follows the code:
`Solver.BacktrackSound` only promises consistency when the input was not
already full. `Solver.FullInconsistentBoardReturned` exhibits such a board.
Soundness in the usual sense therefore needs a consistent input
(`Solver.BacktrackSolves`).

## Model

| member | source | states |
|---|---|---|
| Grid.VariablesAreDigits | sudoku.py:5-10 | the candidates are exactly the digits 1..9 (`GRID_SIZE` many), tried in strictly ascending order |
| Grid.Box | sudoku.py:131-133 | the 3x3 sub-grid in box-row `br` and box-column `bc` has nine positions; each cell (r, c) with r / 3 == br and c / 3 == bc sits at its offset (r % 3) * 3 + c % 3, and each of the nine positions holds the value of the cell of the box at that offset |
| Grid.InBox | sudoku.py:26-31 | a value occurs in a box exactly when some cell of that box holds it, which is what the nested scan of the box tests |
| Grid.InColumn | sudoku.py:22-24 | a value occurs in a column exactly when some cell of that column holds it |
| Grid.ScansCoverSeen | sudoku.py:16-33 | the row scan, the column scan and the box scan together find `num` exactly when some cell that (row, col) sees holds it |
| Grid.IsValid | sudoku.py:16-33 | placing `num` at (row, col) is valid iff no cell sharing the row, the column or the 3x3 box of (row, col), the cell itself included, already holds `num` |
| Grid.Actions | sudoku.py:89-96 | returns exactly the empty cells, each once, in strictly ascending row-major order; the list is empty iff the board is solved, and its head is the cell `select_unassigned_var` picks |
| Grid.Result | sudoku.py:98-104 | the new board is 9x9, holds `val` at the chosen cell, and equals the old board at every other cell |
| Grid.ResultFillsOneCell | sudoku.py:98-104 | writing a non-empty value into an empty cell removes exactly one empty cell; a board has at most 81 empty cells, and none exactly when it is solved (the termination measure of the search) |
| Grid.SelectUnassignedVar | sudoku.py:107-113 | returns None iff the board has no empty cell; otherwise an empty cell such that every cell before it in row-major order is filled |
| Groups.SetOfSize | sudoku.py:121 | a sequence has as many elements as its set iff it has no duplicates, which is what `len(nums) == len(set(nums))` tests |
| Groups.NonEmptyDistinct | sudoku.py:120 | the list with `EMPTY` filtered out has no duplicates iff no two positions of the group hold the same non-empty value |
| Groups.IsValidGroupMeaning | sudoku.py:118-121 | a group is valid iff no non-empty value occurs at two different positions |
| Groups.IsValidGroup | sudoku.py:118-121 | no ensures of its own; its meaning is stated by Groups.IsValidGroupMeaning |
| Grid.Consistent | sudoku.py:115-137 | no ensures of its own; its meaning is stated by Grid.ConsistentMeaning |
| Grid.ConsistentMeaning | sudoku.py:115-137 | `consistent` holds iff no two different cells that share a row, a column or a box hold the same non-empty value |
| Grid.ValidPlacement | sudoku.py:16-33 | on a consistent board, writing a non-empty value into an empty cell yields a consistent board iff `is_valid` allows the placement |
| Grid.InitialState | sudoku.py:12-14 | with sizes defaulting to 9x9, the board has `rows` rows of `cols` cells each, a negative size giving no rows or empty rows as `range` does, and every cell is `EMPTY` |
| Grid.InitialStateBlank | sudoku.py:12-14 | the default 9x9 empty board breaks no rule, is not solved, and its first empty cell is (0, 0) |
| Grid.Solved | sudoku.py:139-141 | the board is solved iff no cell holds `EMPTY` |
| Solver.FirstSome | sudoku.py:153-160 | the loop over the candidates returns None iff every attempt fails; otherwise it returns the result of the first attempt that succeeds, and every earlier attempt failed |
| Solver.Backtrack | sudoku.py:143-160 | no ensures of its own; what it returns is stated by Solver.BacktrackSound, Solver.BacktrackSolves and Solver.BacktrackFirstSuccess |
| Solver.Attempt | sudoku.py:154-159 | no ensures of its own; what one iteration returns is stated by Solver.AttemptSound |
| Solver.BacktrackNoneIff | sudoku.py:143-160 | on a board that is not full, `backtrack` returns None iff trying every digit of `VARIABLES` on the first empty cell fails |
| Solver.BacktrackFirstSuccess | sudoku.py:148-160 | on a board that is not full, a returned board comes from some digit `VARIABLES[k]` on the first empty cell, and every smaller digit failed (digits are tried in ascending order and the first success wins) |
| Solver.BacktrackSound | sudoku.py:143-160 | a full input is returned as it is; any returned board is full, keeps every given of the input, holds a digit wherever the input was empty, and is consistent unless the input was already full |
| Solver.AttemptSound | sudoku.py:154-159 | one iteration of the loop returns only a full, consistent board that keeps the givens and has a digit in every empty cell |
| Solver.CompletesStep | sudoku.py:154-156 | a completion of the board after one placement is a completion of the board before it |
| Solver.SubBoardConsistent | sudoku.py:115-137 | clearing cells of a consistent board keeps it consistent |
| Solver.SolutionStep | sudoku.py:153-156 | a puzzle with a solution still has one, and stays consistent, after its empty cell receives the solution's digit |
| Solver.BacktrackFromAttempt | sudoku.py:153-159 | one successful attempt on the first empty cell makes `backtrack` return a board |
| Solver.BacktrackComplete | sudoku.py:143-160 | if the puzzle has a solution, `backtrack` does not return None |
| Solver.BacktrackSolves | sudoku.py:143-160 | on a consistent puzzle, `backtrack` returns a board iff a solution exists, and any board it returns is a solution |
| Solver.BacktrackIdempotent | sudoku.py:143-146 | running `backtrack` on its own output returns the same board |
| Solver.FullInconsistentBoardReturned | sudoku.py:139-146 | a full board that breaks the rules (1 in every cell) has no solution, yet `backtrack` returns it unchanged |

## Left out

- `runner.py`: a pygame window that draws the board returned by `generate_sudoku` (runner.py:36) and lets the user set or clear cells (runner.py:94, 117). Its call to `backtrack` (runner.py:76) is commented out. It is graphical I/O.
- `util.py`: two unrelated demonstrations, a continuous hill-climbing on floating-point numbers (util.py:4-34) and a hill-climber that swaps cities in a travelling-salesman tour (util.py:36-85).
- `fill_sudoku` (sudoku.py:35-45): it draws random cells and digits. Its loop only ends when `num_attempts` random placements succeed, which a full board never allows.
- `generate_sudoku` (sudoku.py:47-61): it returns a literal board, kept as `Grid.Example`. No property of that board is proved; the verifier does not evaluate `Consistent` on a literal board in reasonable time. Its calls to `initial_state` and `fill_sudoku` are commented out. `initial_state` (sudoku.py:12-14) is not a literal: it builds its board with a comprehension, and it is modelled as `Grid.InitialState`, default sizes and negative sizes included.
- The commented-out version of `solved` (sudoku.py:63-87) is not live code.
- Grid.IsValid: requires 0 <= row, col < 9. Python would also accept negative indices, reading from the end of the list, and no caller in the program passes them.
- Grid.Result: requires the cell to be on the board. Python raises `IndexError` beyond the edge and wraps negative indices, and no caller in the program does either.
- Every board operation requires a 9x9 board (`IsGrid`), which is the only shape the program builds. On other shapes the Python functions differ in what they read:
  - `solved` (sudoku.py:141) scans every element of every row.
  - The row checks of `is_valid` (sudoku.py:19) and `consistent` (sudoku.py:125) read whole rows.
  - `result` copies whole rows (sudoku.py:102), so on a 9x10 board it returns a 9x10 board.
  - `select_unassigned_var`, `actions` and the column and box reads stop at index 8.
  - So a 9x10 board whose 9x9 part is full and whose tenth column holds a 0 is not `solved`, yet `select_unassigned_var` finds no empty cell, and `backtrack` returns `None` at sudoku.py:149-150. A 10x9 board whose top-left 9x9 part is full and whose tenth row holds a 0 does the same. The boards that reach that branch are exactly those whose top-left 9x9 part is full but that hold a 0 in an extra column or an extra row.
  - `backtrack([])` returns `[]`, because `solved` holds vacuously.
  - In the model, `IsGrid` makes the `pos.None?` branch of `Solver.Backtrack` unreachable: `Grid.SelectUnassignedVar` returns None only on a solved board.
- Aliasing: boards are values here, so the in-place updates of `fill_sudoku` and the shared row lists of Python have no counterpart.
- The code raises no errors and has no time-out; the only failure value is `backtrack` returning `None`.
- The module-level run at the end of `sudoku.py` (sudoku.py:162-175) only calls `backtrack` on the example board; its printing is commented out.
