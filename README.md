# Sudoku solver engine

This project models the engine of a 9x9 Sudoku solver. A puzzle is an 81-character string: `'0'` marks an empty cell and `'1'`..`'9'` a given digit.

The solver state (`SudokuPuzzle`) holds five fields:

- the grid;
- the set of unsolved cell indices;
- nine candidate sets per group kind (row, column and 3x3 square). Each set holds the digits not yet placed in its group.

The engine has these operations:

- **Construction** reads the string cell by cell and removes every given digit from its three sets.
- **`scan`** is constraint propagation. It fills every cell whose row, column and square sets have exactly one digit in common, and repeats passes until a pass fills nothing.
- **`solve`** propagates first. It then picks the unsolved cell with the fewest candidates, stopping early at a cell with two, and tries each candidate on a deep copy of the state, recursing into `solve`.
- **`copy_board`** and the module-level **`copy`** make the deep copies.

Files:

- `rules.dfy` (module `SudokuRules`) holds the value-level rules. It defines:
  - the group of a cell;
  - the digits placed in a group and the digits remaining;
  - a cell's candidates;
  - the no-duplicates rule and what a solution is;
  - forced traces: the assignments `scan` makes, each of which fills a cell with its only candidate.

  It also holds the lemmas that link the solver state to those rules.
- `sudoku.dfy` (module `Sudoku`) has the class `SudokuPuzzle`. Its methods update the fields in place, as the Python methods do.
- `deep_copy.dfy` (module `DeepCopy`) is the recursive `copy`. `CopyBoard` does not call it: the fields are Dafny sequences and sets, which are values, so the new object takes them as they are. That gives what `copy` proves, a copy equal to the original.
- `wrappers.dfy` holds `Option` and `Result`.

The main results:

- Construction succeeds exactly when the first 81 characters are blanks and digits with no clue repeated in a row, column or square. It then yields the solver invariant `Valid()`.
- `scan` keeps `Valid()`. Every value it writes is forced, so it keeps every solution of the grid it started from. When it stops, no unsolved cell has exactly one candidate.
- `solve` terminates. A result of `Some` is a solution that keeps every given digit. `None`, which stands for Python's `False`, is returned only when no solution keeps the digits of the grid `solve` was called on.

The code does not check the length or the characters of the puzzle string, and the model follows the code:

- A short string whose characters are all accepted fails on `puzzle[i]` with an `IndexError` at its length.
- Otherwise, at the first cell among the first 81 that reading rejects, `set.remove` fails with a `KeyError`: the character there is neither `'0'` nor a digit, or repeats a clue of its row, column or square.
- A longer string is accepted, and only its first 81 characters are read.

## Model

| member | source | states |
|---|---|---|
| SudokuRules.RowOf | sudoku.py:30 | the row `i // 9` of a cell on the board is one of the nine rows |
| SudokuRules.ColumnOf | sudoku.py:31 | the column `i % 9` is one of the nine columns |
| SudokuRules.SquareOf | sudoku.py:32 | the square `i // 27 * 3 + i % 9 // 3` of a cell on the board is one of the nine squares |
| SudokuRules.SquareOfBlock | sudoku.py:32 | the square index is the 3x3 block of the cell's row and column: `row / 3 * 3 + column / 3` |
| SudokuRules.CellOfCoordinates | sudoku.py:30-31 | the row and column maps invert `9 * r + c`, so each (row, column) pair names exactly one of the 81 cells |
| SudokuRules.PendingStep | sudoku.py:28-29 | reading a digit takes exactly its index out of the unsolved cells; reading a blank leaves them unchanged |
| SudokuRules.PendingComplete | sudoku.py:15-29 | once all 81 cells are read, the unsolved cells are exactly the blanks |
| SudokuRules.ReadCell | sudoku.py:25-35 | reading character c keeps the cells read so far consistent (only blanks and digits, and no digit repeated in a group) if and only if c is a blank or is present in all three of its sets; when it is consistent, the sets after the three removals track the longer grid and the unsolved cells match it |
| SudokuRules.DuplicateClue | sudoku.py:33-35 | a digit already placed in its own row, column or square makes the grid violate uniqueness |
| SudokuRules.Reject | sudoku.py:25-35 | a puzzle rejected at any cell among its first 81 has no consistent 81-cell prefix |
| SudokuRules.PlacedAppend | sudoku.py:27-35 | appending a cell adds its digit to the placed digits of its own groups and of no other group |
| SudokuRules.PlacedUpdate | sudoku.py:79-86 | filling a blank cell adds its digit to the placed digits of its own groups and of no other group |
| SudokuRules.TracksAppend | sudoku.py:33-35 | after a read digit is removed from its group's set, the sets still hold exactly the digits missing from each group |
| SudokuRules.TracksUpdate | sudoku.py:84-86 | after an assigned digit is removed from its group's set (in scan, and likewise in the branch of solve), the sets still hold exactly the digits missing from each group |
| SudokuRules.NoDuplicatesAppend | sudoku.py:33-35 | appending a digit that no group of the new cell holds keeps every group free of repeats |
| SudokuRules.NoDuplicatesUpdate | sudoku.py:79-86 | writing one of a blank cell's candidates keeps every group free of repeats |
| SudokuRules.CandidatesSize | sudoku.py:97-114 | a cell has at most nine candidates, all of them digits (so the initial `minLength = 10` exceeds every cell's count) |
| SudokuRules.IntersectionSize | sudoku.py:104-114 | the intersection of a row set of digits with any two other sets holds only digits, at most nine of them |
| SudokuRules.ForcedTraceAppend | sudoku.py:77-79 | filling a blank cell whose only candidate is d extends a forced trace by one step |
| SudokuRules.ForcedTraceExtends | sudoku.py:79 | forced assignments never overwrite a given or earlier digit |
| SudokuRules.SolutionRespectsCandidates | sudoku.py:73-75 | in every solution that keeps a grid's digits, each blank cell holds one of its candidates |
| SudokuRules.ForcedTraceSound | sudoku.py:60-87 | propagation is sound: every solution that keeps the start grid also keeps the grid after the forced steps |
| SudokuRules.BranchKeepsSolution | sudoku.py:125-131 | a solution that keeps a grid picks a candidate d at each blank cell and keeps the grid with that cell set to d |
| SudokuRules.ExtendsTransitive | sudoku.py:132-135 | keeping digits composes across the propagation and branching steps |
| SudokuRules.ExtendsByAssign | sudoku.py:127 | writing into a blank cell keeps every digit already placed |
| SudokuRules.DeadEndHasNoSolution | sudoku.py:109-110 | a blank cell with no candidate excludes every solution |
| SudokuRules.NoSolutionAtDeadEnd | sudoku.py:94-110 | after propagation, a cell without candidates means no solution keeps the grid solve was called on |
| SudokuRules.NoSolutionAfterBranches | sudoku.py:124-137 | after propagation, if no candidate of the branching cell leads to a solution, no solution keeps the grid solve was called on |
| SudokuRules.ExtendsComplete | sudoku.py:95-96 | a grid with no blanks is the only grid that keeps its digits, so a solved state is returned unchanged |
| SudokuRules.SingletonSet | sudoku.py:77-78 | a one-element set is the singleton of the element `next(iter(...))` picks |
| Sudoku.SudokuPuzzle.AllCells | sudoku.py:15-16 | the loop produces exactly the cell indices 0..80 |
| Sudoku.SudokuPuzzle.FullSets | sudoku.py:18-23 | the loop produces nine sets, each equal to {'1'..'9'} |
| Sudoku.SudokuPuzzle.Empty | sudoku.py:9-23 | the state before reading: an empty grid, every cell unsolved and every candidate set full, which is a reading state |
| Sudoku.SudokuPuzzle.ReadNext | sudoku.py:26-35 | appends the character to the grid; it raises a KeyError for exactly the characters that break consistency, and otherwise leaves a reading state |
| Sudoku.SudokuPuzzle.ReadingComplete | sudoku.py:25-36 | a reading state with all 81 cells read satisfies the solver invariant |
| Sudoku.SudokuPuzzle.Create | sudoku.py:8-36 | succeeds if and only if the first 81 characters are consistent, with a fresh valid state whose grid is those characters; otherwise it reports an IndexError at the length of a short consistent string, or a KeyError naming the character at the first rejected cell |
| Sudoku.SudokuPuzzle.ValidIsBounded | sudoku.py:97-106 | in a valid state every row set holds digits only and every unsolved index is on the board |
| Sudoku.SudokuPuzzle.PosValueIsCandidates | sudoku.py:73-75 | in a valid state, the intersection of a cell's three sets is exactly the digits no cell of its row, column or square holds |
| Sudoku.SudokuPuzzle.PosValueSize | sudoku.py:97-114 | in a valid state a cell's intersection never has more than nine digits |
| Sudoku.SudokuPuzzle.Assign | sudoku.py:79-86 | writes a candidate into an unsolved cell, drops the cell from the unsolved set and the digit from its three sets, and keeps the solver invariant; the branch of solve makes the same assignment on its copy |
| Sudoku.SudokuPuzzle.Scan | sudoku.py:60-87 | keeps the invariant; every value written is forced (a forced trace from the old grid), no digit is overwritten, the unsolved set only shrinks, and at the end no unsolved cell has exactly one candidate |
| Sudoku.SudokuPuzzle.ChooseCell | sudoku.py:97-122 | reports a dead end at an unsolved cell with no candidates, or an unsolved cell whose candidate count is the least among the cells visited, where either every cell was visited or the loop stopped at a count of two |
| Sudoku.SudokuPuzzle.CopyBoard | sudoku.py:142-149 | a fresh state equal to this one in all five fields, valid like it |
| Sudoku.SudokuPuzzle.TryCandidates | sudoku.py:125-137 | returns a fresh solved copy (the one it stops at) that keeps the grid; if none is found, no candidate of the cell leads to a solution |
| Sudoku.SudokuPuzzle.Solve | sudoku.py:92-137 | terminates; leaves this state as propagation reached it (a forced trace from the old grid) and keeps the invariant; returns this state exactly when propagation solves it; a result of `Some` is a valid solution that keeps the starting digits; `None` only when no solution keeps them |
| DeepCopy.Copy | sudoku.py:169-176 | lists and sets are rebuilt entry by entry and atoms returned as they are; the copy equals the original |

## Left out

- The batch driver (`sudoku.py:182-227`) and `display` (`sudoku.py:154-164`) are not modelled: they read puzzle files, print results and time each solve.
- `__str__` (`sudoku.py:41-54`) is not modelled: it only formats the grid for printing.
- Python's set iteration order is not modelled. Every `for` over a set in `scan`, in the choice of a branching cell and in the branching loop picks an arbitrary remaining element with `:|`. Every result is proved for all orders.
- Sudoku.SudokuPuzzle.Create: on an error, the Python object is left half-built and is never returned; the model returns only the error and does not describe that object.
- Sudoku.SudokuPuzzle.ChooseCell: the `lowRow`/`lowColumn`/`lowSquare` locals are not returned. The model recomputes the three indices from the chosen cell, which gives the same values.
- Sudoku.SudokuPuzzle.CopyBoard: Python copies each field with `copy`; here the fields are Dafny values, so the new object simply takes them. Independence of the copy from the original is what value semantics gives.
- DeepCopy.Copy: Python's object identity is not modelled. The result is stated as equal to the input, not as a new object sharing nothing with it. The unreachable final `return None` has no counterpart, because the three cases of `Value` are exhaustive.
- A puzzle that is not a string (for example a list of characters) is not modelled. The input is a sequence of characters.
