# Sudoku backtracking solver

This project models the solving core of a small pygame Sudoku solver. The
board is a 9×9 grid of cells. Each cell holds a digit (0 means unset), knows
its row, its column and its 3×3 block, and carries a "solved" flag. In this
model that flag is called *confirmed*: once a cell is confirmed, the search
never changes it again.

A `Puzzle` keeps the board and a cursor `index` into the row-major traversal
order. Each call of `solve` does one unit of work and returns, so the render
loop can redraw the board between steps. One step does exactly one of these:

- skip a confirmed cell;
- try the least candidate digit of an unset cell, and confirm it when it is
  the only candidate and every earlier cell is confirmed;
- move a previously guessed cell to the next larger candidate;
- backtrack: reset the cell and walk the cursor back to the nearest
  unconfirmed cell.

The project has three modules:

- `Grid` (`grid.dfy`): the `Cell` value, the block index, the traversal list,
  and Python's negative subscripting of that list.
- `Rules` (`rules.dfy`): the specifications on board values (`seq<Cell>`):
  - which digits are allowed in a cell;
  - the candidate list;
  - the next candidate;
  - the backtracking target;
  - the board invariants, and lemmas about all of these.
- `Solver` (`solver.dfy`): the class `Puzzle`. Its board is an
  `array<Cell>` of 81 cells that the methods update in place, and its cursor
  is a field. Each method is proved against the `Rules` functions.

Cell (r, c) is stored at position 9·r + c. The source's two-dimensional
numpy array of cell objects therefore becomes a flat array of cell values,
and writing a field of a cell becomes replacing that array element.

## Model

| member | source | states |
|---|---|---|
| Grid.NewCell | main.py:16-21 | a new cell holds the given digit, row and column, is not confirmed, and its block index is 0..8 on the board |
| Grid.SameBlockIndex | main.py:20 | `int(col/3) + int(row/3)*3` is equal for two board cells iff they share a band of rows and a stack of columns |
| Grid.GenListOfIndex | main.py:218-225 | the traversal list has 81 entries, and entry p is (p / 9, p % 9) |
| Grid.TraversalEntry | main.py:129-134 | for every cursor value -81..80, the list entry (negative subscripts counting from the end) is a board cell, namely position Wrap(k) |
| Rules.OtherBlockCellSpec | main.py:46-53 | every cell getGridVals visits is in the block of (row, col) and is not (row, col) itself |
| Rules.OtherBlockCellCovers | main.py:46-53 | every other cell of the block is one of the eight cells visited |
| Rules.OtherBlockCellsIncrease | main.py:46-53 | the block is visited in row-major order |
| Rules.AllowedIffNotGathered | main.py:63-77 | given the row, column and block values as gathered, a digit 1..9 is allowed (no peer holds it) iff it is missing from all three lists |
| Rules.GatheredOptions | main.py:69-77 | dropping 0 from the gathered values and taking what is left of 1..9 gives exactly the candidate list |
| Rules.DigitsNotInAreOptions | main.py:77 | the digits 1..n outside a set are the allowed digits 1..n, given that the set holds exactly the disallowed digits |
| Rules.OptionsSpec | main.py:57-80 | the candidate list is strictly increasing, holds exactly the allowed digits, and every entry is 1..9 |
| Rules.OptionsDependOnPeersOnly | main.py:57-80 | two boards that agree on the digits of a cell's peers give that cell the same candidates |
| Rules.NextCandidate | main.py:114-124 | returns a value iff some candidate exceeds the current digit, and that value is the least such candidate; None is the source's "no more options" |
| Rules.BacktrackVerdict | main.py:126-134 | the walk back from an unconfirmed cell stops on a non-negative cursor iff some earlier cell is unconfirmed (then on the nearest one), and goes negative iff every earlier cell is confirmed |
| Rules.BacktrackTargetUnique | main.py:126-134 | the stopping place of the walk is determined by the board and the starting cursor |
| Rules.WriteKeepsConsistency | main.py:102-124 | writing a cell that is confirmed only with an allowed digit keeps confirmed peers free of equal digits |
| Rules.ConfirmedBeforeWrite | main.py:104-107 | checkSolvedBefore's answer for a cell does not depend on that cell, so writing the guess first does not change it |
| Rules.FirstOptionAllowed | main.py:102-104 | the least candidate is an allowed digit 1..9 |
| Solver.Puzzle.constructor | main.py:26-41 | a fresh, well formed board of 81 unset, unconfirmed cells, with the cursor at 0 and `solved` false |
| Solver.Puzzle.GetGridVals | main.py:43-55 | returns eight digits: entry n is the digit of the n-th other block cell in row-major order (OtherBlockCellSpec/Covers say these are exactly the other cells of the block) |
| Solver.Puzzle.GetOptions | main.py:57-80 | returns exactly Options(board, row, col), the ascending allowed digits |
| Solver.Puzzle.CheckSolvedBefore | main.py:139-148 | true iff (row, col) is on the board and every earlier cell in row-major order is confirmed |
| Solver.Puzzle.IsSolved | main.py:161-167 | true iff no cell holds 0 |
| Solver.Puzzle.SetStartVals | main.py:150-159 | every cell takes the given digit and becomes confirmed if that digit is nonzero; confirmed cells stay confirmed; on a board with nothing confirmed, confirmed iff nonzero; the board stays well formed |
| Solver.Puzzle.GuessLowest | main.py:102-112 | the cell takes the least candidate and is confirmed iff that is the only candidate and every earlier cell is confirmed; the cursor advances; nothing else changes; both board invariants are kept |
| Solver.Puzzle.GuessNext | main.py:114-124 | reports "no options" iff no candidate exceeds the current digit, changing nothing in that case; otherwise the cell takes the least larger candidate and the cursor advances; both invariants are kept |
| Solver.Puzzle.Backtrack | main.py:126-134 | the current cell is reset to 0 and unconfirmed, no other cell changes, the cursor lands on the backtracking target, and both invariants are kept |
| Solver.Puzzle.StepBack | main.py:129-134 | the walk alone: changes only the cursor, which ends on the nearest unconfirmed cell before the start, read through negative subscripts |
| Solver.Puzzle.Solve | main.py:82-137 | one step is one of the cases listed above, each with its exact new board and cursor; only the current cell can change; confirmed cells never change; no step is taken with the cursor off the board; well-formedness, "confirmed cells are nonzero" and "confirmed peers differ" are preserved |

## Left out

- pygame drawing and input (`drawBoard`, `drawGrid`, `Button`) and the event loop are left out: they are user interface, not solving logic.
- `initStartVals` (initPuzzle.py) is not part of this model. `SetStartVals` takes the board it would return as a parameter.
- The "Did not find solution" print is I/O. The model keeps only its effect, which is that nothing changes.
- numpy arrays are modelled as sequences: `np.append` and `list.append` become sequence concatenation, and `np.unique` plus the removal of 0 become a set.
- GetOptions: numpy's `setxor1d(1..9, nonOptions)` is modelled as the set difference 1..9 \ nonOptions. The two agree because every digit on the board is 0..9. For that reason GetOptions requires that every cell's digit is 0..9; `Valid` implies this, and so does every call from `Solve`.
- Solver.Puzzle.SetStartVals: requires every clue to be 0..9, whereas the source stores whatever value the clue board holds. Clue values outside 0..9 are out of contract here, because they would break the 0..9 invariant that `GetOptions` relies on.
- GuessNext: the source builds `sort(set(possVals ∪ {num}))` and takes the entry after `num` (found with `np.where`). The model uses `NextCandidate`, the least candidate greater than `num`. The two are the same value, but the intermediate list is not modelled.
- `len(possVals > 0)` takes the length of an elementwise comparison. That length is `len(possVals)`, so it is modelled as `|possVals| > 0`.
- `Puzzle.solved` is set in the constructor and never used again. It is a field that no method touches.
- The outer `while self.index < SIZE**2` in `solve` always returns within its first pass, so `Solve` is one step. Claims about the whole search are not stated: eventual termination, and that a final board is a valid Sudoku completion.
- After the cursor passes 0, the backtracking walk reads `listToIndex` with negative subscripts, exactly as the source does. The walk does not stop at the first negative cursor. It stops on the first unconfirmed cell it reads, which at the latest is the reset cell itself, at cursor `index - 81`. `BacktrackVerdict` shows that the sign of the final cursor still says whether an earlier unconfirmed cell exists.
- numpy holds the block, row and column digits as float64 until `astype(int)` makes the candidates int64, and it holds the traversal pairs and the `np.where` index as int64; `int(col/3)` divides in floating point. Every value involved is at most 81, so each of these is exact, and Dafny's unbounded `int` loses nothing.
