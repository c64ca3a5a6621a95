# Sudoku backtracking solver, modelled in Dafny

This project models the `Solution` class of `SudokuSolver.cpp`. The class solves one
9×9 Sudoku in place by depth-first backtracking. The board is a 9×9 grid of
characters. Each cell holds `'.'` (blank) or a digit `'1'`..`'9'`, and the board is
indexed `board[x][y]`.

- `getTakenOptions(board, x, y)` computes the exclusion set of a cell. It marks each
  digit seen in row `x`, in column `y` and in the 3×3 box of `(x, y)`. It enumerates
  the box as `[(x/3)*3 + i%3][(y/3)*3 + i/3]`.
- `solveFrom(board, x, y)` visits the 81 positions in the order `9*y + x`, so `x`
  moves fastest. It skips prefilled cells. At a blank cell it tries each digit that
  is not excluded, in ascending order: it writes the digit in place and recurses. It
  returns true on the first success. When every candidate fails, it resets the cell
  to `'.'` and returns false.
- `solveSudoku(board)` starts the search at `(0, 0)` and drops its result.

The project has three modules, one per file:

- `Board` (`board.dfy`): the board as a value (`Grid = seq<seq<char>>`). It holds
  the digits, the visiting order (`Index`, `Next`), the row/column/box predicates,
  the exclusion set (`Excluded`), the solver's box enumeration (`BoxRow`,
  `BoxColumn`) and the Sudoku rules (`Consistent`, `Solved`, `IsSolutionOf`).
- `Backtracking` (`backtracking.dfy`): `Search`, `TryCandidates` and `Attempt`.
  Together they are the search written as a function of the board it starts from,
  mirroring `solveFrom` branch for branch. The module also holds the lemmas on what
  that search achieves: soundness, completeness, frame, first success and
  idempotence.
- `Solution` (`solution.dfy`): the solver itself, as methods over an
  `array2<char>` that are changed in place. `SolveFrom` keeps the source's
  recursion, its `continue`-driven candidate loop, its in-place writes, its reset to
  `'.'` and the termination measure `81 - (9*y + x)`. `GetTakenOptions` fills a
  local `bool` array with three loops.
- `SolveFrom` and `GetTakenOptions` take the board at entry as a ghost value `g`.
  `Holds(board, g)` says that the array holds `g` cell for cell. Their postconditions
  tie the final array to `Search` of `g`.
- `SolveSudoku` reads the array as a value with `Snapshot`.

What is proved:

- The exclusion set is exactly the set of digits held by the cell's peers.
- The box enumeration stays in bounds and visits the nine cells of the box exactly
  once each.
- On success `solveFrom` leaves digits in exactly the blank cells at or after its
  position, and every other cell, every prefilled one in particular, as it was.
- On failure it leaves the entry board, restored cell for cell (the `'.'` it writes
  back undoes the last digit tried).
- On success no blank is left from the starting position on.
- The search never creates a clash: on success, any repeated digit among peers is
  between two cells that were prefilled, whatever the prefilled digits are. So a
  search that starts clash-free ends clash-free.
- Completeness: if the puzzle has any solution, the search succeeds.
- Soundness: with clash-free prefilled digits, the result is a solved Sudoku that
  extends the input. In a solved Sudoku every row, column and box holds every digit
  exactly once.

## Model

| member | source | states |
|---|---|---|
| `Board.Digit` | SudokuSolver.cpp:56 | candidate `i` is written as `i + '1'`, a digit (never `'.'`), from which `item - '1'` gives back `i` |
| `Board.DigitIndex` | SudokuSolver.cpp:75 | `item - '1'` maps a digit to a slot 0..8 of the exclusion set, and that slot's candidate is the same digit |
| `Board.Next` | SudokuSolver.cpp:37-43 | the next position has `0 <= x < 9` and linear position `9*y + x` one greater: `x` wraps to 0 and `y` advances exactly when `x + 1` reaches 9, otherwise `x` advances and `y` stays |
| `Board.IndexInjective` | SudokuSolver.cpp:33-43 | distinct cells have distinct positions in the visiting order, so each cell is visited once per path |
| `Board.Fill` | SudokuSolver.cpp:56 | writing a cell of a well-formed board sets that cell and leaves the other 80 unchanged |
| `Board.BoxEnumeration` | SudokuSolver.cpp:86-87 | for `i` in 0..8 the indices `(x/3)*3 + i%3`, `(y/3)*3 + i/3` stay in 0..8 and in the box of `(x, y)`, reach every cell of that box, and reach no cell twice |
| `Board.ExcludedIffPeer` | SudokuSolver.cpp:67-94 | for a blank cell, a digit is excluded if and only if some other cell in its row, column or box holds it |
| `Board.PlaceKeepsConsistent` | SudokuSolver.cpp:51-56 | writing a non-excluded digit into a blank cell of a clash-free board keeps it clash-free |
| `Board.SolutionDigitAdmissible` | SudokuSolver.cpp:51-54 | the digit any solution puts into a blank cell is not in that cell's exclusion set, and the solution still solves the board with that digit written in |
| `Board.SolvedUnitsHoldEveryDigit` | SudokuSolver.cpp:30-35 | in a solved board every row, column and box contains every digit 1..9, so with no clashes each exactly once |
| `Backtracking.Search` | SudokuSolver.cpp:31-64 | a successful search returns a 9×9 board whose cells are all blank or digits; what else it achieves is stated by the lemmas below |
| `Backtracking.TryCandidates` | SudokuSolver.cpp:52-63 | a successful candidate loop returns a 9×9 board of blanks and digits; `TryCandidatesFirstSuccess` states which board |
| `Backtracking.Attempt` | SudokuSolver.cpp:56-57 | a successful attempt (write candidate `i`, then search on from the next position) returns a 9×9 board of blanks and digits |
| `Backtracking.TryCandidatesFirstSuccess` | SudokuSolver.cpp:52-63 | the candidate loop fails if and only if every admissible candidate's attempt fails; on success its result is the attempt of the smallest admissible candidate whose attempt succeeds |
| `Backtracking.SearchFillsBlanks` | SudokuSolver.cpp:31-64 | on success, exactly the blank cells at or after the start position receive digits, every other cell (every prefilled one in particular) is unchanged, and no blank remains from the start position on |
| `Backtracking.SearchPlacementAdmissible` | SudokuSolver.cpp:51-58 | on success from a blank cell, the digit left there was outside that cell's exclusion set on the board as it was when the digit was written |
| `Backtracking.SearchCreatesNoClash` | SudokuSolver.cpp:51-58 | on success from any board, clash-free or not, two peers holding the same digit in the result were both prefilled at the start: every digit the search writes differs from every digit among its peers |
| `Backtracking.SearchKeepsConsistent` | SudokuSolver.cpp:51-58 | a search that starts from a clash-free board and succeeds leaves a clash-free board |
| `Backtracking.SearchSound` | SudokuSolver.cpp:25-35 | with clash-free prefilled digits, a successful search from `(0, 0)` yields a solved Sudoku that keeps every prefilled digit |
| `Backtracking.SearchComplete` | SudokuSolver.cpp:52-63 | if any solution extends the board, the search from any position succeeds |
| `Backtracking.FailureMeansUnsolvable` | SudokuSolver.cpp:61-63 | a failed search from `(0, 0)` means no solution extends the puzzle |
| `Backtracking.SearchDecides` | SudokuSolver.cpp:31-64 | for a clash-free puzzle, the search succeeds if and only if a solution exists |
| `Backtracking.SearchIdempotent` | SudokuSolver.cpp:33-48 | a board with no blank from `(x, y)` on is returned unchanged, with success |
| `Solution.GetTakenOptions` | SudokuSolver.cpp:67-95 | returns nine flags for the board the array holds; flag `d` is set exactly when digit `d + 1` stands in row `x`, column `y` or the box of `(x, y)`; the array is only read |
| `Solution.SolveFrom` | SudokuSolver.cpp:31-64 | changes the array in place; its result is whether `Search` of the entry board succeeds; on success the array holds the board `Search` returns, on failure it holds the entry board again, cell for cell; terminates on `81 - (9*y + x)` |
| `Solution.SolveSudoku` | SudokuSolver.cpp:25-27 | a solvable puzzle is left solved, with its prefilled digits kept; a clash-free puzzle with no solution is left unchanged |

## Left out

- The two stream-output `operator<<` overloads are not modelled. They only print.
- `main`, with its demonstration board and console output, is not modelled.
- The commentary at the end of the file describes a different, constraint-propagation
  algorithm that the code does not implement, so it is not modelled.
- The performance remarks are not modelled: the timing, the complexity estimate, and
  `std::array` being faster than `bitset`.
- Input with a character other than `'.'` or `'1'`..`'9'` is excluded by a
  precondition (`IsBoard`, `IsGrid`, `Holds`). Such a cell, once `getTakenOptions`
  scans it, may make `seen[item - '1']` index out of bounds, which is undefined
  behaviour. A board with no blank has a defined outcome even then, since it is
  never scanned, but the model excludes all such boards.
- The board shape (9×9) is a precondition too. The source assumes it and never checks it.
- Clashing prefilled digits are not rejected. The code does no validation, so the model
  does none either, and clash-freedom is a hypothesis of `SearchSound` and
  `SearchDecides`. So success does not by itself mean a valid solution: the code
  accepts a board without blanks whatever that board holds, as `SearchIdempotent`
  shows. The model follows the code here.
- The coordinates are C++ `int`. They never leave 0..9, so the model uses unbounded
  integers without wrap-around.
- The recursion depth of the C++ call stack is not modelled. It is at most 82 frames.
