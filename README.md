# Sudoku solving engine of `visual_sudoku_solver.py`

This project models the solving engine of a Sudoku solver written for Project
Euler problem 96, and proves properties of it in Dafny. In the original, a
`Board` owns 81 `Cell` objects and 27 `Line` objects (9 rows, 9 columns and
9 3x3 squares). Each cell holds a value (`0` while empty), a list of nine
candidate flags `can_be` and their number `count`. Each line records in
`has` the digits already placed in it.

Placing a digit with `Cell.assign` is a cascade:

- every line of the cell strikes the digit from its empty members (`Line.cant_be`);
- every member left with one candidate is then assigned it (`check_possibilities`), recursively.

`Board.solve` works in three steps:

1. It repeats the hidden-single rule `Line.update`: a digit that only one member of a line can take goes there.
2. When that fills nothing, it picks the cell with the fewest candidates (`find_best_cell_to_guess`).
3. It tries each candidate of that cell on a copy of the board, recursively.

## Structure

- `grid.dfy` (module `Grid`) covers the geometry:
  - cell `c = y * 9 + x`;
  - line numbers: rows 0-8, columns 9-17, squares 18-26;
  - `Member(g, j)`, the `j`-th cell of line `g` in the order the board builds it;
  - `LineOf(c, k)`, the row, column and square of a cell;
  - the scan order of `find_best_cell_to_guess` (x outer, y inner);
  - the methods that build the line and group tables.
- `cells.dfy` (module `Cells`) holds the `Cell` record, its candidate list `Candidates` and `get_pos`.
- `state.dfy` (module `State`) holds the invariants of a board and the lemmas about the cascade. A board is a snapshot `seq<Cell>` plus the line flags `seq<seq<bool>>`. The main invariant, `Sound`, has four parts:
  - every placed digit is recorded in its three lines;
  - an empty cell never lists a digit recorded in one of its lines;
  - a struck candidate is always justified by such a record;
  - every recorded digit is held by a member of the line.

  The module also defines what it is for a grid to be a solution (`IsSolution`) and for a board to be extended by one (`Extends`).
- `solving.dfy` (module `Solving`) has three parts:
  - the lemmas behind `update` and `solve`: hidden singles, seeding, guessing;
  - the specification function `Scan` of `find_best_cell_to_guess`;
  - the lemmas for the findings below.
- `board.dfy` (module `Sudoku`) is the imperative model. `class Board` has:
  - `cells: array<Cell>` (81 cells);
  - `has: array<seq<bool>>` (the 27 lines' flags);
  - the tables `lines` and `groups`.

  Each Python method becomes a method that updates these arrays in place, and the cascade's recursion is kept as mutual recursion.
- `wrappers.dfy` holds `Option`.

The ghost parameter `sol` threads through the methods a solution of the
board, if there is one. The contracts use it to say that no step loses that
solution (`Completes(sol, board)` is kept). This is what makes `Solve`
complete: it returns a grid whenever the board has a solution. The recursion
of the cascade and of `solve` is proved to terminate on the number of empty
cells.

## Model

| member | source | states |
|---|---|---|
| Cells.CantBe | visual_sudoku_solver.py:302-308 | an empty cell loses exactly candidate `i` and a filled one keeps all its flags; the value is kept and `count` stays the number of true flags |
| Sudoku.Board.CellCantBe | visual_sudoku_solver.py:302-308 | only cell `e` changes, and it becomes `CantBe` of its old state |
| Sudoku.Board.LineCantBe | visual_sudoku_solver.py:219-223 | line `g` records `i`, its empty members lose candidate `i`, nothing else changes, and the soundness invariants of the board are preserved |
| Sudoku.Board.Assign | visual_sudoku_solver.py:279-300 | an empty cell with `i != 0` ends as value `i` with no candidates; otherwise the board is unchanged. The result is always true. The board only grows, stays sound, keeps a consistent board consistent when `i` was a candidate, and keeps every solution that puts `i` there |
| Sudoku.Board.AssignEmpty | visual_sudoku_solver.py:285-297 | the empty-cell branch of `assign`: all of the above, plus no member of the cell's three lines is left with one candidate afterwards |
| Sudoku.Board.Place | visual_sudoku_solver.py:286-289 | the cell takes `i` and its three lines record and strike it; the number of empty cells drops, and a solution that puts `i` there stays a solution |
| State.PlaceDone | visual_sudoku_solver.py:286-289 | after the value is set and the three lines strike `i`, the board is sound and has grown, and consistency and the solution are kept |
| Sudoku.Board.Clear | visual_sudoku_solver.py:296-297 | only the placed cell's candidates and count are cleared, and soundness, consistency and every solution are kept |
| Sudoku.Board.GroupsCantBe | visual_sudoku_solver.py:288-289 | each of the cell's row, column and square has recorded `i` |
| Sudoku.Board.GroupsCheck | visual_sudoku_solver.py:290-295 | after checking the three lines, none of their members is left with one candidate; the result is always true |
| Sudoku.Board.LineCheck | visual_sudoku_solver.py:225-231 | after the pass, no member of line `g` has a single candidate left; the result is always true |
| Sudoku.Board.CellCheck | visual_sudoku_solver.py:310-318 | a cell with one candidate ends holding that digit; any other cell leaves the board unchanged |
| Sudoku.Board.CellCheckSlot | visual_sudoku_solver.py:314-317 | a pass before the single true slot changes nothing, and a pass at or after it leaves the cell assigned |
| Sudoku.Board.CountHolders | visual_sudoku_solver.py:202-210 | the count is 0 exactly when no member can take `i`, and 2 exactly when two can; at 1 the holder is the only member that can |
| Sudoku.Board.LineUpdate | visual_sudoku_solver.py:195-217 | false only when some digit ends blocked in the line (neither recorded nor possible in any member), which rules out every solution, and always false when a digit was blocked at the start. When true, every hidden single the line had at the start (a digit it lacks that only one member can take) is placed in that member. With no hidden single the board is unchanged |
| Solving.DigitKept | visual_sudoku_solver.py:200-216 | along a cascade from a sound board, a blocked digit stays blocked, and a hidden single is placed, or is still a hidden single, or has become blocked |
| Sudoku.Board.LineUpdateDigit | visual_sudoku_solver.py:200-216 | for digit `i`: false exactly when `i` is blocked in the line, which rules out every solution; when one member alone can take `i`, that member ends holding `i` |
| Solving.HiddenSingle | visual_sudoku_solver.py:213-214 | a digit the line lacks that only one member can take is the digit every solution puts in that member |
| State.Unsolvable | visual_sudoku_solver.py:211-212 | a blocked digit (count 0) means no solution extends the board |
| State.SolutionCandidates | visual_sudoku_solver.py:302-308 | on a sound board, striking never removes the digit a solution puts in an empty cell |
| Sudoku.Board.Update | visual_sudoku_solver.py:107-116 | false only when some line ends with a blocked digit, and always false when a digit was blocked at the start; never false while a solution exists. When true, every hidden single of every line at the start is placed. With no hidden single anywhere the board is unchanged |
| Solving.LineStep | visual_sudoku_solver.py:112-114 | after line `g` is updated, every hidden single of lines 0..`g` at the start of the pass is placed |
| Sudoku.Board.Solved | visual_sudoku_solver.py:132-138 | the result is 81 minus the number of empty cells, and it is 81 exactly when every cell is filled |
| Sudoku.Board.GetGrid | visual_sudoku_solver.py:175-183 | a 9x9 grid whose entry at row `y` and column `x` is the value of cell (x, y) |
| Sudoku.Board.SetBoard | visual_sudoku_solver.py:170-173 | afterwards, every cell with a non-zero seed is filled. When a solution agrees with the seeds, it stays a solution and every seed's cell holds exactly its seed |
| Solving.FilledSeeded | visual_sudoku_solver.py:170-173 | a filled seed cell of a board that a seed-agreeing solution extends holds its seed |
| Sudoku.Board.SeedCell | visual_sudoku_solver.py:171-173 | each pass keeps every earlier seed filled, in the x-outer, y-inner order; an empty cell with a non-zero seed ends holding that seed |
| Sudoku.Board.SetBoardChecked | visual_sudoku_solver.py:170-173 | the corrected seeding: `ok` means every seed is in place, and it is always true when a solution agrees with the seeds |
| Sudoku.Board.SeedCellChecked | visual_sudoku_solver.py:171-173 | a refused seed leaves the board unchanged and rules out every solution that agrees with the seeds |
| Sudoku.Board.PlaceChecked | visual_sudoku_solver.py:92-94 | the corrected guess: accepted exactly when the digit is the cell's value or still one of its candidates, and then the cell holds it; a refusal changes nothing |
| Grid.BuildLines | visual_sudoku_solver.py:48-51 | line `g` lists its nine cells, member `j` being `Member(g, j)` |
| Grid.BuildSquares | visual_sudoku_solver.py:52-56 | square `s` collects its cells in row-major order, member `j` being `Member(18 + s, j)` |
| Grid.BuildGroups | visual_sudoku_solver.py:57-59 | each cell's groups are its row, column and square, in that order |
| Grid.ThreeGroups | visual_sudoku_solver.py:273-277 | a cell lies in exactly three lines (its row, column and square), and they are distinct |
| Sudoku.Board.NewArrays | visual_sudoku_solver.py:22-59 | the wired tables, 81 fresh cells with nine candidates each, and 27 lines with nothing recorded |
| Sudoku.Board.Blank | visual_sudoku_solver.py:22-59 | the blank board is sound, settled and consistent |
| Sudoku.Board.constructor | visual_sudoku_solver.py:22-65 | the seeded board is sound and every non-zero seed's cell is filled. When a solution agrees with the seeds, it is a solution of the board, every seed's cell holds exactly its seed, and the board is consistent |
| Solving.CompletesConsistent | visual_sudoku_solver.py:22-65 | a board that a solution extends holds no digit twice in a row, column or square |
| Cells.GetPos | visual_sudoku_solver.py:266-271 | the result is `Candidates` of the flags |
| Cells.CandidatesMembers | visual_sudoku_solver.py:266-271 | the list holds exactly the digits whose flag is true |
| Cells.CandidatesAscending | visual_sudoku_solver.py:266-271 | the list is strictly ascending |
| Cells.CandidatesCount | visual_sudoku_solver.py:266-271 | the list has as many entries as true flags |
| Grid.ScanInverse | visual_sudoku_solver.py:147-148 | the scan order (x outer, y inner) visits every cell exactly once |
| Solving.ScanChoice | visual_sudoku_solver.py:145-155 | from any starting bound, the scan finds nothing exactly when no count is non-zero and below the bound; otherwise its cell is the first of the smallest non-zero count, unless an earlier cell has two candidates |
| Sudoku.Board.ScanBest | visual_sudoku_solver.py:147-155 | the scanning loops compute `Scan` |
| Sudoku.Board.FindBestCellToGuess | visual_sudoku_solver.py:140-156 | the corrected choice: `None` exactly when no cell has candidates. Otherwise the chosen cell has candidates and either two of them or the fewest of any cell, and the candidates returned are its own |
| Solving.BestGuess | visual_sudoku_solver.py:140-156 | the corrected scan finds a cell whenever any has candidates, and it is the first cell of minimal count unless an earlier cell has two candidates |
| Sudoku.Board.FindBestCellToGuessAsWritten | visual_sudoku_solver.py:140-156 | the original: coordinates (9, 9) when no count is below nine, and the candidates of cell (8, 8) unless the chosen cell has two candidates |
| Solving.NothingToGuess | visual_sudoku_solver.py:85-105 | a board with an empty cell and no candidate anywhere has no solution, so returning no solution there is right |
| Solving.GuessCovers | visual_sudoku_solver.py:88 | the digit a solution puts in the guessed cell is among the candidates tried |
| Solving.Guessed | visual_sudoku_solver.py:90-95 | a guess board has fewer empty cells than the board, and each of its solutions is a solution of the board |
| Solving.Adopted | visual_sudoku_solver.py:101-103 | re-assigning a found solution onto the board leaves the board holding exactly that solution, and consistent |
| State.FullSolution | visual_sudoku_solver.py:76-78 | a full, consistent board's grid is a solution of it, and the only grid extending it |
| Sudoku.Board.Solve | visual_sudoku_solver.py:71-105 | a returned grid is full (every entry a digit 1..9), extends the board and the board ends holding it; from a consistent board it is a solution. A grid is returned whenever the board has a solution |
| Sudoku.Board.Finished | visual_sudoku_solver.py:76-78 | a full board's grid holds its values, all digits 1..9, and is a solution when the board is consistent |
| Sudoku.SolvePuzzle | visual_sudoku_solver.py:340-342 | one puzzle, built and then solved: a returned grid is full, and when a solution agrees with the puzzle's digits a grid is returned that is a solution and keeps every digit of the puzzle |
| Solving.SeededAgrees | visual_sudoku_solver.py:340-342 | a grid extending a board whose seed cells hold their seeds agrees with the seeds |
| Sudoku.Board.GuessBest | visual_sudoku_solver.py:83-87 | the same as `Solve`, for the guessing branch |
| Sudoku.Board.Guess | visual_sudoku_solver.py:84-105 | a returned grid is a solution of the board and is copied onto it; one is returned whenever the board has a solution; its digit in the guessed cell is a candidate, and no earlier candidate is the digit a solution of the board puts there |
| Sudoku.Board.Search | visual_sudoku_solver.py:88-96 | with the checked copy and checked guess: a returned grid is a solution of the board; one is returned whenever a solution puts one of the candidates in the cell. Candidates are tried in ascending order and the first success is kept: the returned grid's digit in the cell is some `pos[k]`, and a solution's digit is not among `pos[..k]` |
| Sudoku.Board.TryGuess | visual_sudoku_solver.py:89-95 | with the checked copy and checked guess: a returned grid is a solution of the board, and it puts the guessed digit in the cell; one is returned whenever a solution puts that digit there |
| Sudoku.Board.GuessBoard | visual_sudoku_solver.py:90-94 | the checked guess board: a new consistent board holding the guessed digit in the cell, with fewer empty cells, whose solutions are solutions of the old one; it is built whenever a solution puts the digit there |
| Sudoku.Board.CopyBoard | visual_sudoku_solver.py:90 | the checked copy: when seeding reports no clash, it holds every seed and is consistent; a solution of the board stays a solution of the copy |
| Solving.AssignClash | visual_sudoku_solver.py:285-286 | placing a digit a peer already holds leaves the board inconsistent |
| Solving.FallbackExhibit | visual_sudoku_solver.py:156 | on a sound, consistent board holding only a 1 at (0, 0), both scans choose (0, 1), which cannot take 1, but the candidates of the last cell scanned, (8, 8), start with 1 |
| Solving.OneSound | visual_sudoku_solver.py:22-65 | the board holding only a 1 at (0, 0), its peers without candidate 1, is sound and consistent |
| Solving.BlankGuessExhibit | visual_sudoku_solver.py:145-146 | on the blank board the as-written scan chooses nothing, while cell (8, 8) still offers nine candidates |
| Solving.BlankGuess | visual_sudoku_solver.py:145-146 | the corrected scan chooses cell (0, 0) of the blank board |

## Left out

- Drawing and recording are not modelled. This covers `draw_cell`, the matplotlib figure, axes and text artists, the video writer and `grab_frame`, and `plt.cla`. These only display the board. The canvas redraw on line 100 is different: `self.fig` is set only when the board is built without axes (lines 34-37), and every guess board is built with the parent's axes (line 90). So on a guess board the redraw raises `AttributeError` instead of returning the grid (see the `Sudoku.Board.Solve:` line below).
- The `print` calls in `assign` and `draw_cell` are left out. So is the string concatenation on line 292, which would raise a `TypeError` if that branch were ever reached. `assign` never returns false, so the branch is dead.
- Reading `CPC.txt`, the main script and the timing are not modelled. The boards reach the model as `grid` parameters.
- The `updated` flag is not modelled. It is written by `Line.update` and never read.
- `Cell.can_be(i)` is left out: the instance attribute of the same name hides it, so it cannot be called.
- The `to_string` methods and `get_val` are left out. The value is read as `cells[c].val`.
- Object identity is not modelled. `Cell.board`, `Cell.groups` and `Line.cells` are references in the original; here cells live in one array and are reached by index through the `lines` and `groups` tables. `set_group` becomes `BuildGroups`, and `get_cell(x, y)` becomes index `y * 9 + x`.
- Sudoku.Board.FindBestCellToGuess: returns the chosen cell's index, not its coordinates `(x, y)`. The coordinates are `X` and `Y` of the index.
- Sudoku.Board.Guess: the copy of the board is seeded with the checked `SetBoardChecked`, and the guess is placed with `PlaceChecked`, not with `assign` (see the third finding). The same holds for `Search`, `TryGuess`, `GuessBoard` and `CopyBoard`, which carry out this branch: an unchecked copy of a board with a dead cell can be inconsistent, and their contracts are stated for the checked copy. The constructor and the adoption of a found solution keep the unchecked `assign`.
- Sudoku.Board.Solve: the guessing branch uses the corrected `FindBestCellToGuess` of the first and second findings, not the original scan, so its completeness is stated for the corrected choice.
- Sudoku.Board.GuessBest: likewise chooses the cell with the corrected `FindBestCellToGuess` of the first and second findings.
- Sudoku.Board.SetBoard: when no solution agrees with the seeds, the value of a seed cell is not stated, only that it is filled. The cascade of an earlier seed may have filled it with another digit, and `assign` then leaves it alone.
- Sudoku.Board.constructor: for the same reason, states the seed values and consistency only when a solution agrees with the seeds.
- Sudoku.Board.Solve: leaves out the crash at line 100. In the original, a board built at line 90 whose own guess succeeds raises `AttributeError` at `self.fig.canvas.draw()`, and nothing catches it. Any puzzle whose solution needs a successful guess inside a guess board therefore ends in that exception. The model returns the grid there, as every other board does, so the completeness `Solve` states holds for the model, not for the program as written.
- Sudoku.SolvePuzzle: for the same reason, its completeness holds only for puzzles that the original solves with at most one level of guessing. Deeper puzzles raise at line 100 in the original.
- Sudoku.Board.Solve: does not state which solution is returned when there are several (the first one found in guess order). It states only that the grid returned is a solution, and that one is returned whenever a solution exists.
- Integer widths are not modelled: Python integers are unbounded, and every count stays between 0 and 9.

## Findings

| source | as written | input that shows it | evidently intended | confidence | as-written member | corrected member |
|---|---|---|---|---|---|---|
| visual_sudoku_solver.py:156 | the fallback returns `cell.get_pos()`, where `cell` is the loop variable left at the last cell scanned, (8, 8) | the grid whose only digit is a 1 at (0, 0): the peers of (0, 0) keep eight candidates and the rest nine, so (0, 1) is chosen, but the candidates of (8, 8), 1 to 9, are returned, and the first guess puts 1 at (0, 1), below the 1 at (0, 0) | return the candidates of the chosen cell, `min_cell.get_pos()` | not executed | Sudoku.Board.FindBestCellToGuessAsWritten, Solving.FallbackExhibit | Sudoku.Board.FindBestCellToGuess, Solving.BestGuess |
| visual_sudoku_solver.py:145-146 | the scan starts from a fresh cell's count of 9, so a cell with nine candidates is never chosen | the all-zero grid: nothing is chosen, (9, 9) is returned, and `new_board.get_cell(9, 9)` on line 92 is out of range | start above every possible count, so that any cell with candidates can be chosen | not executed | Sudoku.Board.FindBestCellToGuessAsWritten, Solving.BlankGuessExhibit | Sudoku.Board.FindBestCellToGuess, Solving.BlankGuess |
| visual_sudoku_solver.py:285-300 | `assign` places `i` in any empty cell, whether or not `i` is still a candidate, and it always returns true, so `valid` on line 92 is always true | a grid whose first row starts 5, 5: both cells receive 5, and the board is inconsistent without any report | refuse a digit the cell can no longer take, and report it | not executed | Sudoku.Board.Assign, Solving.AssignClash | Sudoku.Board.PlaceChecked, Sudoku.Board.SetBoardChecked |
