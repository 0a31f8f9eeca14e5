# Sudoku board and backtracking solver

This project models the core of a small C Sudoku solver. The core has two parts:

- The 9×9 board of `CellPool` entries. Each entry is vacant or points to a heap cell that holds a value. The board has the primitives `InitBoard`, `CheckCellStatus`, `SetCell`, `GetCell`, `FreeCell` and `FreeBoard`.
- The solver that works on the board in place:
  - `GetCandidates` lists the values 1..9 that are still free for a cell.
  - `ValidBoard` is the success test.
  - `Search` is recursive depth-first backtracking. It places a candidate, recurses, and undoes the placement with `FreeCell` when the recursion fails.

It also models the growable array of text lines (`Grid`) that the board is loaded from, and the character-to-digit map `encode`.

Three modules:

- `SudokuSpec` (`sudoku_spec.dfy`): the board as a value (`BoardState`, nine rows of nine `Cell`s). It holds the predicates the solver's checks compute and the lemmas about them.
- `Sudoku` (`sudoku.dfy`): the C functions over an `array2<Cell>`. Every function in `src/sudoku.c` takes the board array. `InitBoard`, `SetCell`, `FreeCell`, `FreeBoard` and `Search` change it in place, and so do the methods of the same names here, which carry a `modifies board` clause. `CheckCellStatus`, `GetCell`, `ValidBoard` and `GetCandidates` only read it, and so do their counterparts here. `Snapshot(board)` gives the array's current contents as a `BoardState`, and each method's contract is stated against it.
- `LineGrid` (`grid.dfy`): the `Grid` class (`items`, `count`, `capacity`), the `Line` value, `Encode` and `Digit`.

How the model follows the code where it differs from the usual idea of Sudoku:

- `ValidBoard` does not check whole rows, columns and sub-grids. It rejects a board in three cases:
  - two horizontally adjacent cells hold the same value;
  - two vertically adjacent cells hold the same value;
  - some 3×3 window holds the same value twice, at any offset and not only at the nine sub-grids.

  Lemma `ValidIffNoNearbyRepeat` shows that this is the same as "no two occupied cells at most two rows and two columns apart hold the same value". So two equal values three columns apart in one row pass (`DistantRowRepeatPassesValidBoard`).
- `Search` returns true straight away on any board that `ValidBoard` accepts, even a partly filled one. It also returns true on any board with no vacant cell, even one that `ValidBoard` rejects (`UniformBoardIsFullButInvalid`). So a board `Search` accepts may still hold a row, column or sub-grid repeat, or vacant cells.
- `SetCell` checks no range, and `InitBoard` stores `ch - '0'` for any character that is not `'0'`. So cell values are unbounded integers.
- `InitBoard` reads each row's bytes from a zero-filled 256-byte buffer. A row shorter than nine characters therefore gives cells holding `'\0' - '0'` = −48 (`BufAt`).

## Model

| member | source | states |
|---|---|---|
| `Sudoku.InitBoard` | src/sudoku.c:4-17 | Succeeds exactly when the grid has 9 lines and its first line has 9 characters. On success, cell (r, c) is vacant iff character (r, c) minus '0' is 0, and otherwise holds that number. When the first nine characters of every line are decimal digits, every occupied cell holds a value in 1..9. On failure, the board is unchanged. |
| `Sudoku.CheckCellStatus` | src/sudoku.c:20-25 | True exactly when the cell holds a value. |
| `Sudoku.GetCell` | src/sudoku.c:39-41 | Returns the cell stored at (row, col). It is occupied exactly when `CheckCellStatus` is true, and `Empty` stands for the null pointer. |
| `Sudoku.SetCell` | src/sudoku.c:28-36 | (row, col) becomes occupied with the given value, and every other cell is unchanged. |
| `Sudoku.FreeCell` | src/sudoku.c:212-216 | (row, col) becomes vacant, and every other cell is unchanged. |
| `Sudoku.FreeBoard` | src/sudoku.c:219-227 | Afterwards every cell is vacant: the board equals `EmptyBoard()`. |
| `Sudoku.HorizontalScan` | src/sudoku.c:75-83 | Finds a repeat exactly when some occupied cell and its right-hand neighbour hold the same value. |
| `Sudoku.VerticalScan` | src/sudoku.c:86-94 | Finds a repeat exactly when some occupied cell and the cell below it hold the same value. |
| `Sudoku.CellScan` | src/sudoku.c:101-110 | Finds a repeat exactly when the occupied cell at offset (i, j) of window (m, n) has its value in another cell of that window. |
| `Sudoku.WindowScan` | src/sudoku.c:97-115 | Finds a repeat exactly when some 3×3 window with its top-left corner in 0..6 × 0..6 holds a value twice. |
| `Sudoku.ValidBoard` | src/sudoku.c:73-117 | Returns true exactly when none of the three scans finds a repeat (`IsValid`). |
| `Sudoku.Strike` | src/sudoku.c:129-133 | Zeroes exactly the slots that held the value, and leaves the others unchanged. |
| `Sudoku.ExcludeRowAndColumn` | src/sudoku.c:126-144 | Slot k ends as 0 if k+1 is held in the row or in the column, and as k+1 otherwise. |
| `Sudoku.ExcludeBox` | src/sudoku.c:146-161 | Slot k ends as 0 if k+1 is held in the row, the column, or the sub-grid with top-left corner ((row/3)·3, (col/3)·3), and as k+1 otherwise. |
| `Sudoku.GetCandidates` | src/sudoku.c:120-180 | v is in the result iff 1 ≤ v ≤ 9 and no occupied cell of the row, the column or the sub-grid holds v. The result is strictly ascending and has at most 9 entries. The board is not modified. |
| `Sudoku.Search` | src/sudoku.c:183-209 | On a board `ValidBoard` accepts, and on a full board, returns true and changes nothing. Returning false leaves the board as it was on entry. Returning true keeps every value occupied on entry, and leaves a board that `ValidBoard` accepts or that is full. A board with no row, column or sub-grid repeat keeps that property. Termination uses the number of vacant cells as the measure. |
| `SudokuSpec.PutThenClear` | src/sudoku.c:194-200 | Occupying a vacant cell and then vacating it gives back the original board. |
| `SudokuSpec.EmptyCountPut` | src/sudoku.c:190-196 | Occupying a vacant cell lowers the number of vacant cells by exactly one, so each recursive `Search` call has one fewer vacant cell. |
| `SudokuSpec.FullIffNoEmpties` | src/sudoku.c:188-208 | A board is full exactly when its number of vacant cells is 0. |
| `SudokuSpec.ValidIffNoNearbyRepeat` | src/sudoku.c:73-117 | `ValidBoard`'s test holds iff no two different occupied cells at most two rows and two columns apart hold the same value. |
| `SudokuSpec.EmptyBoardIsValid` | src/sudoku.c:73-117 | An all-vacant board passes `ValidBoard`. |
| `SudokuSpec.AdjacentGivensFailValidBoard` | src/sudoku.c:75-83 | Two 5s at (0,0) and (0,1) make `ValidBoard` false. |
| `SudokuSpec.DistantRowRepeatPassesValidBoard` | src/sudoku.c:73-117 | Two 5s at (0,0) and (0,3) pass `ValidBoard`, although they share a row. |
| `SudokuSpec.UniformBoardIsFullButInvalid` | src/sudoku.c:188-208 | A board with every cell holding the same value is full and fails `ValidBoard`, and so it is a board on which `Search` returns true without it being valid. |
| `SudokuSpec.PlaceCandidateKeepsConsistent` | src/sudoku.c:192-196 | Placing a value that `GetCandidates` offers for a vacant cell keeps a board free of row, column and sub-grid repeats. |
| `LineGrid.Grid.constructor` | helper/Grid/grid.c:3-9 | A new grid has count 0, capacity `INIT_CAPACITY` (256) and no lines. |
| `LineGrid.Grid.Append` | helper/Grid/grid.c:11-22 | Capacity doubles exactly when count == capacity before the call, and is otherwise unchanged. Count grows by one. The lines are the old lines followed by the new one, so earlier items are kept. count ≤ capacity is preserved. |
| `LineGrid.Encode` | helper/Grid/grid.c:76-88 | Returns a fresh array of `count` numbers, where number i is character i minus '0'. |
| `Sudoku.DigitCell` | src/sudoku.c:8-13 | The cell `InitBoard` makes of a decimal digit is vacant exactly for '0', and otherwise holds a value in 1..9. |

## Left out

- `ValidBoard`'s window loops run the top-left corner (m, n) over 0..8. For m or n above 6 they read outside the 9×9 array, which is undefined behaviour in C. The model checks only the in-bounds windows, with m and n in 0..6.
- Memory management is not modelled: `malloc`/`free` of cells, of the candidate buffers and of grid lines, `grid_dealloc`, and the leaks. These are the cell overwritten in `SetCell`, and the candidate list not freed when `Search` succeeds. A cell is modelled only as vacant or occupied.
- Allocation failure is not modelled. `SetCell` prints an error and returns, `GetCandidates` returns NULL, and `encode` exits. In the model allocation always succeeds.
- `sqrt(BOARD_ROWS)` is floating point in the source. The model uses the constant 3, which is what it evaluates to.
- `GetCandidates` returns the list through an out-pointer count. The model returns a sequence whose length is that count.
- `read_file` is file I/O and is not modelled. Its buffer-growing branch cannot run with 256-byte lines. The model takes the lines it would produce as `Line` values.
- `load_grid_into_matrix` calls matrix routines whose code is not part of this model.
- `PrintBoard` and `print_grid` are terminal output and are not modelled.
- `Sudoku.InitBoard`: the source aborts on a failed `assert` when the grid is not nine lines with a first line of nine characters. The model returns `ok == false` and leaves the board as it was.
- `Sudoku.InitBoard`: lines are modelled as sequences of characters rather than bytes, so a multi-byte UTF-8 character takes one position instead of several. The signedness of C `char` in `buf[j] - '0'` is not modelled either: a byte of 0x80 or above gives its unsigned code minus 48.
- `LineGrid.Encode`: the same applies. Lines are characters rather than bytes, and `char` signedness in `buf[i] - '0'` is not modelled.
- `LineGrid.Grid.Append`: `size_t` overflow of `capacity * 2` is not modelled, because integers are unbounded here.
- The animated solver in `src/animation.cpp` and the random-filling prototype in `main.c` are presentation and prototype code, not part of this model.
- `Search` is not proved to be complete, that is, to return true whenever the board can be completed. Nor is any particular puzzle proved to be solved by it.
