# Sudoku checker and backtracking search, modelled in Dafny

This project models the core of a solver for generalized Sudoku puzzles, class
`Puzzle` of `src/Puzzle.java`. The grid is `size` by `size`, and 0 marks an
empty cell. Boxes of `height` rows by `width` columns tile the grid, and
`size == width * height`. The core has three parts:

- **Checkers.** `checkRow`, `checkCol` and `checkBoxes` look for an
  out-of-range value or a repeated non-zero value. `checkAllRows`,
  `checkAllCols`, `isCorrect` and `isComplete` combine them over the grid.
- **Candidate generation.** `getNextCell` finds the first empty cell in
  row-major order. `getValues` lists the values that cell may take.
- **Search.** `backTrack` and `solvePuzzle` fill empty cells in place,
  re-check the grid after each placement, and reset a cell to 0 when a
  branch fails.

## Layout

- `grid_rules.dfy`, module `GridRules`: the reference meaning of the rules,
  on a plain value `Grid = seq<seq<int>>`. It defines:
  - the violations `RowBad`, `ColBad` and `RectBad`/`BoxBad` (one tile);
  - `Correct`, `Full` and `Complete`;
  - `FirstEmpty`, `Allowed` (a candidate value), `Extends` (keeps every clue)
    and `SolutionOf`;
  - the termination measure `ZeroCount`, which counts the empty cells;
  - the lemmas about these definitions.
- `puzzle.dfy`, module `Sudoku`: class `Puzzle`, with const fields `width`,
  `height`, `size` and a `grid: array2<int>`. The ghost function `Cells()` is
  the grid's current value. Every checker is a loop-based method whose
  `ensures` ties its result to a `GridRules` predicate of `Cells()`. The search
  methods have `modifies grid` and state the new grid in terms of
  `old(Cells())`.
- Module `SudokuExamples`, in `puzzle.dfy`: two worked examples whose outcome
  is proved, on a puzzle where the search as written breaks its promises.

Some loop bodies are separate methods in the model, so that each proof stays
small:
- `CheckBox` is the inner box scan of `checkBoxes`.
- `MarkRow`, `MarkCol`, `MarkBox` and `Unmarked` are the four passes of
  `getValues`.
- `Attempt` and `Guess` are one turn of the candidate loop of `backTrack` and
  of `solvePuzzle`: place the value, check, recurse, reset.

In the as-written members and the split-out loop bodies, the statements and
branches are the source's, in the source's order. The corrected `BackTrack`
adds one branch, and the corrected `SolvePuzzle` replaces the final
`return true` by `solved := IsCorrect()` (see Findings).

The Java `HashSet` becomes a `set<int>` local. The `ArrayList` of candidates
becomes a `seq<int>`, and `values.remove(0)` becomes `values[1..]`.

The search proofs terminate on the number of empty cells, which each
recursive call lowers by one. The as-written `backTrack` on a full grid also
needs a second component: whether the grid is correct.

On a grid with an empty cell that already breaks a rule, no candidate written
into that cell removes the violation (`GridRules.CorrectOfExtension`). The
`isCorrect()` test at src/Puzzle.java:372 rejects each one, and `backTrack`
returns false with the grid restored. On a full grid that breaks a rule, it
writes candidates over the clue at `(0, 0)` instead, and `isCorrect()` may
accept one (see Findings).

## Model

| member | source | states |
|---|---|---|
| Sudoku.Puzzle.constructor | src/Puzzle.java:82-91 | The loaded puzzle has `size == width * height`, a `size` by `size` grid, and exactly the given cell values. |
| Sudoku.Puzzle.CheckRow | src/Puzzle.java:110-123 | The result is true iff row `currentRow` holds a value outside `0..size`, or one non-zero value at two different columns. Zeros are ignored. |
| Sudoku.Puzzle.CheckCol | src/Puzzle.java:131-144 | The result is true iff column `currentCol` holds a value outside `0..size`, or one non-zero value at two different rows. |
| Sudoku.Puzzle.CheckBox | src/Puzzle.java:160-172 | The result is true iff the `height` by `width` tile at `(rowStart, colStart)` holds an out-of-range value or a repeated non-zero value. The value set starts empty for the tile. |
| Sudoku.Puzzle.CheckBoxes | src/Puzzle.java:152-191 | The result is true iff some tile `(k*height, m*width)`, with `k < width` and `m < height`, is bad. Tiles are scanned while a whole tile fits. A value repeated across two tiles is not a violation. |
| Sudoku.Puzzle.CheckAllRows | src/Puzzle.java:198-207 | The result is true iff some row is bad. Every row is checked, without stopping early. |
| Sudoku.Puzzle.CheckAllCols | src/Puzzle.java:214-223 | The result is true iff some column is bad. Every column is checked. |
| Sudoku.Puzzle.IsCorrect | src/Puzzle.java:230-237 | The result is true iff no row, no column and no box is bad. |
| Sudoku.Puzzle.IsComplete | src/Puzzle.java:244-257 | The result is true iff the grid is correct and no cell equals 0. |
| Sudoku.Puzzle.GetNextCell | src/Puzzle.java:264-279 | The result is in range. On a grid with an empty cell, it is the first empty cell in row-major order. On a full grid, it is `(0, 0)`. |
| Sudoku.Puzzle.GetValues | src/Puzzle.java:286-344 | The result is strictly ascending and lies in `1..size`. `v` is in it iff `1 <= v <= size` and `v` is absent from the cell's row, column and box. |
| Sudoku.Puzzle.MarkRow | src/Puzzle.java:296-300 | The row pass sets the flag of every value met in the row to -1 and leaves the other flags unchanged. |
| Sudoku.Puzzle.MarkCol | src/Puzzle.java:302-306 | The column pass does the same for the cell's column. |
| Sudoku.Puzzle.MarkBox | src/Puzzle.java:321-327 | The box pass does the same for the box of rows `startRow ..+height` and columns `startCol ..+width`. |
| Sudoku.Puzzle.Unmarked | src/Puzzle.java:333-339 | The collection loop returns, in ascending order, exactly the values `i+1` whose flag is still 1. |
| Sudoku.Puzzle.BackTrack | src/Puzzle.java:352-384 | This is the corrected `backTrack`. Every clue keeps its value. On success the grid is complete. On failure the grid equals its state on entry. If the puzzle has any solution, the search succeeds. |
| Sudoku.Puzzle.Attempt | src/Puzzle.java:369-377 | One candidate of the corrected search: on success the grid is complete and keeps every clue. On failure the cell is reset and the grid is as on entry. No solution with that value at the cell is missed. |
| Sudoku.Puzzle.BackTrackAsWritten | src/Puzzle.java:352-384 | This is `backTrack` exactly as written. On success the grid is complete. On every grid that has an empty cell or is correct, it keeps the guarantees of `BackTrack`. On a full grid with a violation and a candidate for `(0, 0)`, the clue at `(0, 0)` changes, and on failure it is left at 0. |
| Sudoku.Puzzle.AttemptAsWritten | src/Puzzle.java:369-377 | One candidate as written, whether or not the cell is empty. The value is written; on success the grid is complete and extends the placed grid; on failure the cell is left at 0. No solution of the placed grid is missed. |
| Sudoku.Puzzle.SolvePuzzle | src/Puzzle.java:394-412 | This is the corrected `solvePuzzle`. It has the same four guarantees as `BackTrack`. With no empty cell left, the answer is whether the grid is correct. |
| Sudoku.Puzzle.Guess | src/Puzzle.java:399-405 | One guess of the corrected `solvePuzzle`, with the same guarantees as `Attempt`. |
| Sudoku.Puzzle.SolvePuzzleAsWritten | src/Puzzle.java:394-412 | This is `solvePuzzle` exactly as written. Clues are kept. On failure the grid is restored, and no solution is missed. On a grid with an empty cell, success means complete. A full grid is reported solved and left unchanged, whether or not it is correct. |
| Sudoku.Puzzle.GuessAsWritten | src/Puzzle.java:399-405 | One guess of the as-written `solvePuzzle`, with the guarantees of `Guess`. |
| SudokuExamples.BackTrackOverwritesClue | src/Puzzle.java:352-384 | The puzzle is width 2, height 1, grid `[[1,1],[1,2]]`. After `backTrack` as written, cell `(0, 0)` no longer holds its clue 1. |
| SudokuExamples.SolvePuzzleAcceptsBrokenGrid | src/Puzzle.java:394-412 | On the same puzzle, `solvePuzzle` as written returns true although the grid is not correct. |
| GridRules.AllowedByScans | src/Puzzle.java:296-327 | A value `v` in `1..size` is a candidate iff it is not met by the full row scan, the full column scan or the scan of the box `((r/h)*h, (c/w)*w)`. |
| GridRules.SolutionValueAllowed | src/Puzzle.java:286-344 | The value that any solution puts in an empty cell is among that cell's candidates, so candidate generation never prunes a solution. |
| GridRules.CorrectOfExtension | src/Puzzle.java:372 | Filling cells never repairs a violation: if a grid extended by placements is correct, so was the grid. So pruning with `isCorrect` after a placement loses no solution. |
| GridRules.SolvableIsCorrect | src/Puzzle.java:372 | A puzzle with a solution is correct. |
| GridRules.FullSolution | src/Puzzle.java:352-353 | A stand-alone fact about the definitions, not used by the search proofs: a full puzzle's only solution is itself, and then it is complete. So on a grid with no empty cell, success of the corrected `backTrack` and of the corrected `solvePuzzle` means exactly that the grid is correct. |
| GridRules.ZeroCountUpdate | src/Puzzle.java:370-376 | Writing one cell changes the number of empty cells by exactly the change at that cell. So a placement lowers the search's termination measure by one, and a reset raises it back. |
| GridRules.FullIffNoZeros | src/Puzzle.java:248-254 | A stand-alone fact about the definitions, not used by the termination proofs: the number of empty cells is 0 exactly on grids with no empty cell, the grids `isComplete` accepts once they are correct. |
| GridRules.BoxOf | src/Puzzle.java:308-319 | Integer division gives the box of the cell: `r / height` is a box index below `width`, and the box rows `(r/height)*height ..+height` contain `r`. |

## Left out

- `populatePuzzle` (file reading, parsing, `System.exit`): the constructor
  takes the width, height and cell values it would have loaded. It demands
  positive sides and a `size` by `size` grid. The loader rejects only negative
  sides (src/Puzzle.java:48, 64), so a width or height of 0 gets through, and
  `checkBoxes` then throws at `grid[0]` (line 159); the model does not admit
  that case.
- Out-of-range indices: `checkRow`, `checkCol` and `getValues` throw on them,
  and the model's `requires` exclude them. No caller in the core passes one.
- `printRow`, `displayPuzzle`, `SudokuDriver` (timing, printing) and
  `ParseCmdLine` (argument checks): console and command-line plumbing.
- The getters and setters: the fields are `const`. `setSize` and `setGrid`
  could break `size == width * height`, which every method relies on.
- Java `int` overflow: values are unbounded integers. Grid cells are only
  compared and used as `v - 1` after a range test, so wrap-around cannot arise
  for grids that fit in memory. `width * height` is assumed not to overflow.
- That on a grid with one empty cell the search writes the only value
  consistent with that cell's row, column and box. This needs a counting
  argument, and the model does not prove it. The model does prove that the
  search finds a solution whenever one exists.

## Findings

| source | as written | input that shows it | evidently intended | confidence | as-written member | corrected member |
|---|---|---|---|---|---|---|
| src/Puzzle.java:352-384 | On a full grid that breaks a rule, `getNextCell` returns its fallback `(0, 0)`. That cell is a clue, and `backTrack` overwrites it with each candidate. When `(0, 0)` has a candidate, it then either reports success on a grid that no longer keeps the clue, or returns false with the clue erased to 0. When it has none, the loop at line 365 never runs and `backTrack` returns false with the grid unchanged. | width 2, height 1, grid `[[1,1],[1,2]]`: candidate 2 goes to `(0, 0)`, and by hand trace `backTrack` returns true with `[[2,1],[1,2]]`; the model proves only that the clue at `(0, 0)` changes | An unsolvable full grid returns false and keeps every clue. The corrected search returns false when the cell it is given is not empty. | not executed | Sudoku.Puzzle.BackTrackAsWritten, SudokuExamples.BackTrackOverwritesClue | Sudoku.Puzzle.BackTrack |
| src/Puzzle.java:411 | `solvePuzzle` returns true as soon as no cell is empty, without checking the grid. | width 2, height 1, grid `[[1,1],[1,2]]`: returns true although row 0 holds 1 twice | True only if the puzzle is solved ("True if puzzle can be solved"). The corrected search answers `isCorrect()` once the grid is full. | not executed | Sudoku.Puzzle.SolvePuzzleAsWritten, SudokuExamples.SolvePuzzleAcceptsBrokenGrid | Sudoku.Puzzle.SolvePuzzle |
