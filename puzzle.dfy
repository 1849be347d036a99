/** The puzzle object: box geometry and the grid it solves in place.

    The checkers, the candidate generator and the search are methods over the
    array `grid`; each is specified against the reference definitions of
    module GridRules applied to `Cells()`, the grid's current value. */
module Sudoku {
  import opened GridRules

  class Puzzle {
    /** Box width (columns per box). */
    const width: int
    /** Box height (rows per box). */
    const height: int
    /** Grid side, `width * height`. */
    const size: int
    /** The cells, row by row; 0 marks an empty cell. */
    const grid: array2<int>

    /** The geometry invariant the loaded puzzle satisfies. */
    ghost predicate Valid() {
      Geometry(size, width, height) && grid.Length0 == size && grid.Length1 == size
    }

    /** The current value of the grid. */
    ghost function Cells(): (g: Grid)
      requires Valid()
      reads grid
      ensures Shaped(g, size)
      ensures forall i, j :: 0 <= i < size && 0 <= j < size ==> g[i][j] == grid[i, j]
    {
      seq(size, i requires 0 <= i < size reads grid =>
        seq(size, j requires 0 <= j < size reads grid => grid[i, j]))
    }

    /** A puzzle as the loader leaves it: geometry and a fully populated
        `size` by `size` grid. */
    constructor (width: int, height: int, rows: Grid)
      requires width > 0 && height > 0 && Shaped(rows, width * height)
      ensures Valid() && fresh(grid)
      ensures this.width == width && this.height == height && size == width * height
      ensures Cells() == rows
    {
      this.width := width;
      this.height := height;
      size := width * height;
      var n := width * height;
      grid := new int[n, n]((i, j) requires 0 <= i < n && 0 <= j < n => rows[i][j]);
      new;
      GridExt(Cells(), rows, n);
    }

    // -------------------------------------------------------------------
    // Constraint checker
    // -------------------------------------------------------------------

    /** Whether row `currentRow` holds an out-of-range or a repeated
        non-zero value. */
    method CheckRow(currentRow: int) returns (bad: bool)
      requires Valid() && 0 <= currentRow < size
      ensures bad == RowBad(Cells(), size, currentRow)
    {
      ghost var g := Cells();
      var rowSet: set<int> := {};
      var colPosition := 0;
      while colPosition < size
        invariant 0 <= colPosition <= size
        invariant forall j :: 0 <= j < colPosition ==> InRange(g[currentRow][j], size)
        invariant forall j1, j2 :: 0 <= j1 < colPosition && 0 <= j2 < colPosition && j1 != j2 && g[currentRow][j1] != 0
                    ==> g[currentRow][j1] != g[currentRow][j2]
        invariant forall v :: v in rowSet ==> exists j :: 0 <= j < colPosition && g[currentRow][j] == v
        invariant forall j :: 0 <= j < colPosition && g[currentRow][j] != 0 ==> g[currentRow][j] in rowSet
      {
        var v := grid[currentRow, colPosition];
        if v > size || v < 0 {
          return true;
        }
        if v != 0 {
          if v in rowSet {
            return true;
          }
          rowSet := rowSet + {v};
        }
        colPosition := colPosition + 1;
      }
      return false;
    }

    /** Whether column `currentCol` holds an out-of-range or a repeated
        non-zero value. */
    method CheckCol(currentCol: int) returns (bad: bool)
      requires Valid() && 0 <= currentCol < size
      ensures bad == ColBad(Cells(), size, currentCol)
    {
      ghost var g := Cells();
      var colSet: set<int> := {};
      var rowPosition := 0;
      while rowPosition < size
        invariant 0 <= rowPosition <= size
        invariant forall i :: 0 <= i < rowPosition ==> InRange(g[i][currentCol], size)
        invariant forall i1, i2 :: 0 <= i1 < rowPosition && 0 <= i2 < rowPosition && i1 != i2 && g[i1][currentCol] != 0
                    ==> g[i1][currentCol] != g[i2][currentCol]
        invariant forall v :: v in colSet ==> exists i :: 0 <= i < rowPosition && g[i][currentCol] == v
        invariant forall i :: 0 <= i < rowPosition && g[i][currentCol] != 0 ==> g[i][currentCol] in colSet
      {
        var v := grid[rowPosition, currentCol];
        if v > size || v < 0 {
          return true;
        }
        if v != 0 {
          if v in colSet {
            return true;
          }
          colSet := colSet + {v};
        }
        rowPosition := rowPosition + 1;
      }
      return false;
    }

    /** Whether the box whose top-left cell is `(rowStart, colStart)` holds an out-of-range or a repeated non-zero value.  Each box is
        scanned with an empty value set. */
    method CheckBox(rowStart: int, colStart: int) returns (bad: bool)
      requires Valid()
      requires 0 <= rowStart && rowStart + height <= size && 0 <= colStart && colStart + width <= size
      ensures bad == RectBad(Cells(), size, rowStart, colStart, height, width)
    {
      ghost var g := Cells();
      var rowEnd, colEnd := rowStart + height, colStart + width;
      var boxSet: set<int> := {};
      ScanBegin(g, size, rowStart, colStart, height, width);
      var r := rowStart;
      while r < rowEnd
        invariant rowStart <= r <= rowEnd
        invariant ScanClean(g, size, rowStart, colStart, height, width, boxSet, r, colStart)
      {
        var c := colStart;
        while c < colEnd
          invariant colStart <= c <= colEnd
          invariant ScanClean(g, size, rowStart, colStart, height, width, boxSet, r, c)
        {
          var v := grid[r, c];
          assert v == g[r][c];
          if v > size || v < 0 {
            ScanHit(g, size, rowStart, colStart, height, width, boxSet, r, c);
            return true;
          }
          if v != 0 {
            if v in boxSet {
              ScanHit(g, size, rowStart, colStart, height, width, boxSet, r, c);
              return true;
            }
          }
          ghost var before := boxSet;
          if v != 0 {
            boxSet := boxSet + {v};
          }
          ScanStep(g, size, rowStart, colStart, height, width, before, boxSet, r, c);
          c := c + 1;
        }
        ScanNextRow(g, size, rowStart, colStart, height, width, boxSet, r);
        r := r + 1;
      }
      ScanEnd(g, size, rowStart, colStart, height, width, boxSet);
      return false;
    }

    /** Whether some box of the tiling holds an out-of-range or a repeated
        non-zero value.  Boxes are visited top to bottom, then left to
        right, while a whole box still fits in the grid. */
    method CheckBoxes() returns (bad: bool)
      requires Valid()
      ensures bad == AnyBoxBad(Cells(), size, width, height)
    {
      ghost var g := Cells();
      var rowStart, colStart := 0, 0;
      var rowEnd, colEnd := height, width;
      ghost var k, m := 0, 0;
      while rowEnd <= grid.Length1 && colEnd <= grid.Length0
        invariant 0 <= k < width && 0 <= m <= height
        invariant rowStart == k * height && rowEnd == rowStart + height
        invariant colStart == m * width && colEnd == colStart + width
        invariant BoxesClean(g, k, m)
        decreases height - m, width - k
      {
        TileIndexBound(m, colEnd, height, width);
        bad := CheckBox(rowStart, colStart);
        if bad {
          assert BoxBad(g, size, width, height, k, m);
          return true;
        }
        NextTileClean(g, k, m);
        NextMultiple(k, height);
        rowStart := rowEnd;
        rowEnd := rowEnd + height;
        k := k + 1;
        TileIndexBound(k, rowEnd, width, height);
        if rowEnd > grid.Length1 {
          NextMultiple(m, width);
          rowStart := 0;
          rowEnd := height;
          colStart := colEnd;
          colEnd := colEnd + width;
          k, m := 0, m + 1;
        }
      }
      TileIndexBound(k, rowEnd, width, height);
      TileIndexBound(m, colEnd, height, width);
      return false;
    }

    /** The boxes before `(k, m)` in the scan order (box rows within a box
        column, box columns left to right) are all clean. */
    ghost predicate BoxesClean(g: Grid, k: int, m: int)
      requires Valid() && Shaped(g, size)
    {
      forall k', m' :: 0 <= k' < width && 0 <= m' < height && (m' < m || (m' == m && k' < k))
        ==> !BoxBad(g, size, width, height, k', m')
    }

    /** A clean box extends the clean prefix, wrapping to the next box column
        after the last box row. */
    lemma NextTileClean(g: Grid, k: int, m: int)
      requires Valid() && Shaped(g, size) && 0 <= k < width && 0 <= m < height
      requires BoxesClean(g, k, m) && !BoxBad(g, size, width, height, k, m)
      ensures k + 1 < width ==> BoxesClean(g, k + 1, m)
      ensures k + 1 == width ==> BoxesClean(g, 0, m + 1)
    {
    }

    /** With `end == (t + 1) * side`, the box index `t` is below `count`
        exactly when the box ends inside the grid. */
    lemma TileIndexBound(t: int, end: int, count: int, side: int)
      requires Valid() && side > 0 && count > 0 && count * side == size
      requires 0 <= t && end == t * side + side
      ensures t < count <==> end <= size
      ensures 0 <= t * side
    {
      assert end == (t + 1) * side;
      ScaleLe(t + 1, count, side);
      ScaleLe(0, t, side);
    }

    /** Whether some row is bad; every row is checked. */
    method CheckAllRows() returns (check: bool)
      requires Valid()
      ensures check == AnyRowBad(Cells(), size)
    {
      check := false;
      var currentRow := 0;
      while currentRow < grid.Length0
        invariant 0 <= currentRow <= size
        invariant check == exists r :: 0 <= r < currentRow && RowBad(Cells(), size, r)
      {
        var rowBad := CheckRow(currentRow);
        if rowBad {
          check := true;
        }
        currentRow := currentRow + 1;
      }
    }

    /** Whether some column is bad; every column is checked. */
    method CheckAllCols() returns (check: bool)
      requires Valid()
      ensures check == AnyColBad(Cells(), size)
    {
      check := false;
      var currentCol := 0;
      while currentCol < grid.Length0
        invariant 0 <= currentCol <= size
        invariant check == exists c :: 0 <= c < currentCol && ColBad(Cells(), size, c)
      {
        var colBad := CheckCol(currentCol);
        if colBad {
          check := true;
        }
        currentCol := currentCol + 1;
      }
    }

    /** Whether no row, column or box is bad; the grid may have empty
        cells. */
    method IsCorrect() returns (check: bool)
      requires Valid()
      ensures check == Correct(Cells(), size, width, height)
    {
      check := false;
      var rowsBad := CheckAllRows();
      if !rowsBad {
        var colsBad := CheckAllCols();
        if !colsBad {
          var boxesBad := CheckBoxes();
          if !boxesBad {
            check := true;
          }
        }
      }
    }

    /** Whether the grid is correct and has no empty cell. */
    method IsComplete() returns (complete: bool)
      requires Valid()
      ensures complete == (Correct(Cells(), size, width, height) && Full(Cells(), size))
    {
      var correct := IsCorrect();
      if !correct {
        return false;
      }
      ghost var g := Cells();
      var r := 0;
      while r < width * height
        invariant 0 <= r <= size
        invariant forall i, j :: 0 <= i < r && 0 <= j < size ==> g[i][j] != 0
      {
        var c := 0;
        while c < width * height
          invariant 0 <= c <= size
          invariant forall j :: 0 <= j < c ==> g[r][j] != 0
        {
          if grid[r, c] == 0 {
            return false;
          }
          c := c + 1;
        }
        r := r + 1;
      }
      return true;
    }

    // -------------------------------------------------------------------
    // Candidate generator
    // -------------------------------------------------------------------

    /** The first empty cell in row-major order, or `(0, 0)` when no cell
        is empty. */
    method GetNextCell() returns (r: int, c: int)
      requires Valid()
      ensures 0 <= r < size && 0 <= c < size
      ensures !Full(Cells(), size) ==> FirstEmpty(Cells(), size, r, c)
      ensures Full(Cells(), size) ==> r == 0 && c == 0
    {
      ghost var g := Cells();
      var i := 0;
      while i < grid.Length0
        invariant 0 <= i <= size
        invariant forall a, b :: 0 <= a < i && 0 <= b < size ==> g[a][b] != 0
      {
        var j := 0;
        while j < grid.Length1
          invariant 0 <= j <= size
          invariant forall a, b :: 0 <= a < size && 0 <= b < size && Before(a, b, i, j) ==> g[a][b] != 0
        {
          if grid[i, j] == 0 {
            return i, j;
          }
          j := j + 1;
        }
        i := i + 1;
      }
      return 0, 0;
    }

    /** The candidates for cell `(row, col)` in ascending order: the values
        of `1..size` found neither in its row, nor in its column, nor in its
        box. */
    method GetValues(row: int, col: int) returns (values: seq<int>)
      requires Valid() && 0 <= row < size && 0 <= col < size
      ensures forall k :: 0 <= k < |values| ==> 1 <= values[k] <= size
      ensures forall a, b :: 0 <= a < b < |values| ==> values[a] < values[b]
      ensures forall v :: v in values <==> Allowed(Cells(), size, width, height, row, col, v)
    {
      ghost var g := Cells();
      var flagList := new int[height * width];
      var i := 0;
      while i < flagList.Length
        invariant 0 <= i <= size
        invariant forall t :: 0 <= t < i ==> flagList[t] == 1
      {
        flagList[i] := 1;
        i := i + 1;
      }
      // a flag stays 1 while its value has not been met; it becomes -1 once met
      MarkRow(flagList, row);
      MarkCol(flagList, col);
      var boxRowStart := row / height;
      var boxColStart := col / width;
      BoxOf(row, width, height);
      BoxOf(col, height, width);
      BoxFits(boxRowStart, width, height);
      BoxFits(boxColStart, height, width);
      var startRow := boxRowStart * height;
      var startCol := boxColStart * width;
      MarkBox(flagList, startRow, startCol);
      AllowedByScans(g, size, width, height, row, col);
      values := Unmarked(flagList);
    }

    /** The box pass of `GetValues`: sets to -1 the flag of every value met in
        the box whose top-left cell is `(startRow, startCol)`, and leaves the
        other flags as they were. */
    method MarkBox(flagList: array<int>, startRow: int, startCol: int)
      requires Valid() && flagList.Length == size && RectFits(size, startRow, startCol, height, width)
      modifies flagList
      ensures forall t :: 0 <= t < size ==>
                flagList[t] == if InRectPrefix(Cells(), size, startRow, startCol, height, width, startRow + height, startCol, t + 1)
                               then -1 else old(flagList[t])
    {
      ghost var g := Cells();
      ghost var lined := flagList[..];
      var limit := height * width;
      assert limit == size;
      var endRow := startRow + height - 1;
      var endCol := startCol + width - 1;
      var rowPosition := startRow;
      while rowPosition <= endRow
        invariant startRow <= rowPosition <= endRow + 1
        invariant forall t :: 0 <= t < size ==>
                    flagList[t] == if InRectPrefix(g, size, startRow, startCol, height, width, rowPosition, startCol, t + 1)
                                   then -1 else lined[t]
      {
        var colPosition := startCol;
        while colPosition <= endCol
          invariant startCol <= colPosition <= endCol + 1
          invariant forall t :: 0 <= t < size ==>
                      flagList[t] == if InRectPrefix(g, size, startRow, startCol, height, width, rowPosition, colPosition, t + 1)
                                     then -1 else lined[t]
        {
          RectPrefixStep(g, size, startRow, startCol, height, width, rowPosition, colPosition);
          var v := grid[rowPosition, colPosition];
          assert v == g[rowPosition][colPosition];
          if v > 0 && v <= limit {
            flagList[v - 1] := -1;
          }
          colPosition := colPosition + 1;
        }
        RectPrefixNextRow(g, size, startRow, startCol, height, width, rowPosition, colPosition, rowPosition + 1);
        rowPosition := rowPosition + 1;
      }
    }

    /** The row pass of `GetValues`: sets to -1 the flag of every value met in
        row `row`, and leaves the other flags as they were. */
    method MarkRow(flagList: array<int>, row: int)
      requires Valid() && flagList.Length == size && 0 <= row < size
      modifies flagList
      ensures forall t :: 0 <= t < size ==>
                flagList[t] == if InRowPrefix(Cells(), size, row, size, t + 1) then -1 else old(flagList[t])
    {
      ghost var g := Cells();
      ghost var before := flagList[..];
      var limit := height * width;
      assert limit == size;
      var colPosition := 0;
      while colPosition < size
        invariant 0 <= colPosition <= size
        invariant forall t :: 0 <= t < size ==>
                    flagList[t] == if InRowPrefix(g, size, row, colPosition, t + 1) then -1 else before[t]
      {
        RowPrefixStep(g, size, row, colPosition);
        var v := grid[row, colPosition];
        assert v == g[row][colPosition];
        if v > 0 && v <= limit {
          flagList[v - 1] := -1;
        }
        colPosition := colPosition + 1;
      }
    }

    /** The column pass of `GetValues`: sets to -1 the flag of every value met
        in column `col`, and leaves the other flags as they were. */
    method MarkCol(flagList: array<int>, col: int)
      requires Valid() && flagList.Length == size && 0 <= col < size
      modifies flagList
      ensures forall t :: 0 <= t < size ==>
                flagList[t] == if InColPrefix(Cells(), size, col, size, t + 1) then -1 else old(flagList[t])
    {
      ghost var g := Cells();
      ghost var before := flagList[..];
      var limit := height * width;
      assert limit == size;
      var rowPosition := 0;
      while rowPosition < size
        invariant 0 <= rowPosition <= size
        invariant forall t :: 0 <= t < size ==>
                    flagList[t] == if InColPrefix(g, size, col, rowPosition, t + 1) then -1 else before[t]
      {
        ColPrefixStep(g, size, col, rowPosition);
        var v := grid[rowPosition, col];
        assert v == g[rowPosition][col];
        if v > 0 && v <= limit {
          flagList[v - 1] := -1;
        }
        rowPosition := rowPosition + 1;
      }
    }

    /** The last pass of `GetValues`: the values `1..n` whose flag is still 1,
        in ascending order. */
    static method Unmarked(flagList: array<int>) returns (values: seq<int>)
      ensures forall k :: 0 <= k < |values| ==> 1 <= values[k] <= flagList.Length
      ensures forall a, b :: 0 <= a < b < |values| ==> values[a] < values[b]
      ensures forall v :: v in values <==> 1 <= v <= flagList.Length && flagList[v - 1] == 1
    {
      values := [];
      var i := 0;
      while i < flagList.Length
        invariant 0 <= i <= flagList.Length
        invariant forall a :: 0 <= a < |values| ==> 1 <= values[a] <= i
        invariant forall a, b :: 0 <= a < b < |values| ==> values[a] < values[b]
        invariant forall v :: v in values <==> 1 <= v <= i && flagList[v - 1] == 1
      {
        if flagList[i] == 1 {
          values := values + [i + 1];
        }
        i := i + 1;
      }
    }

    // -------------------------------------------------------------------
    // Search
    // -------------------------------------------------------------------

    /** Writing one cell changes the grid value at that cell only. */
    lemma CellWritten(g: Grid, r: int, c: int, v: int)
      requires Valid() && Shaped(g, size) && 0 <= r < size && 0 <= c < size && grid[r, c] == v
      requires forall i, j :: 0 <= i < size && 0 <= j < size && (i != r || j != c) ==> grid[i, j] == g[i][j]
      ensures Cells() == g[r := g[r][c := v]]
    {
      GridExt(Cells(), g[r := g[r][c := v]], size);
    }

    /** Depth-first search over the candidates of the first empty cell,
        filling the grid in place.  On success the grid is a completed,
        correct puzzle that keeps every clue; on failure the grid is as it
        was, and the puzzle has no solution at all. */
    method BackTrack() returns (solved: bool)
      requires Valid()
      modifies grid
      decreases ZeroCount(Cells()), 1
      ensures Extends(Cells(), old(Cells()), size)
      ensures solved ==> Complete(Cells(), size, width, height)
      ensures !solved ==> Cells() == old(Cells())
      ensures forall s :: SolutionOf(s, old(Cells()), size, width, height) ==> solved
    {
      ghost var g0 := Cells();
      var complete := IsComplete();
      if complete {
        return true;
      }
      var r, c := GetNextCell();
      if grid[r, c] != 0 {
        // no empty cell is left, yet the grid is not correct
        SolvableIsCorrect(g0, size, width, height);
        return false;
      }
      SolutionsAllowed(g0, size, width, height, r, c);
      var values := GetValues(r, c);
      while values != []
        invariant Cells() == g0
        invariant forall k :: 0 <= k < |values| ==> values[k] != 0
        invariant forall s :: SolutionOf(s, g0, size, width, height) ==> s[r][c] in values
        decreases |values|
      {
        var currentValue := values[0];
        assert values == [currentValue] + values[1..];
        var ok := Attempt(r, c, currentValue);
        if ok {
          return true;
        }
        values := values[1..];
      }
      return false;
    }

    /** One turn of the candidate loop of `BackTrack`: place `v` at the empty
        cell `(r, c)`, and search on if the grid is still correct.  On
        failure the cell is reset to 0, and no solution of the puzzle has
        `v` there. */
    method Attempt(r: int, c: int, v: int) returns (ok: bool)
      requires Valid() && 0 <= r < size && 0 <= c < size && grid[r, c] == 0 && v != 0
      modifies grid
      decreases ZeroCount(Cells()), 0
      ensures ok ==> Complete(Cells(), size, width, height) && Extends(Cells(), old(Cells()), size)
      ensures !ok ==> Cells() == old(Cells())
      ensures forall s :: SolutionOf(s, old(Cells()), size, width, height) && s[r][c] == v ==> ok
    {
      ghost var g0 := Cells();
      grid[r, c] := v;
      CellWritten(g0, r, c, v);
      ghost var g1 := g0[r := g0[r][c := v]];
      SolutionsOfPlacement(g0, size, width, height, r, c, v);
      ZeroCountUpdate(g0, r, c, v);
      SolvableIsCorrect(g1, size, width, height);
      ok := IsCorrect();
      if ok {
        ok := BackTrack();
      }
      if !ok {
        grid[r, c] := 0;
        CellWritten(g1, r, c, 0);
        UndoPlacement(g0, r, c, v);
      }
    }

    /** `backTrack` exactly as written: when no cell is empty yet the grid
        is not correct, the cell `getNextCell` falls back to, `(0, 0)`, is a
        clue, and the candidate loop overwrites it.  On every other grid it
        behaves as `BackTrack`. */
    method BackTrackAsWritten() returns (solved: bool)
      requires Valid()
      modifies grid
      decreases ZeroCount(Cells()), if Correct(Cells(), size, width, height) then 0 else 1, 1
      ensures solved ==> Complete(Cells(), size, width, height)
      ensures !Full(old(Cells()), size) || Correct(old(Cells()), size, width, height) ==>
                && Extends(Cells(), old(Cells()), size)
                && (!solved ==> Cells() == old(Cells()))
                && (forall s :: SolutionOf(s, old(Cells()), size, width, height) ==> solved)
      ensures Full(old(Cells()), size) && !Correct(old(Cells()), size, width, height) &&
              (exists v :: Allowed(old(Cells()), size, width, height, 0, 0, v)) ==>
                && Cells()[0][0] != old(Cells())[0][0]
                && (!solved ==> Cells()[0][0] == 0)
    {
      ghost var g0 := Cells();
      var complete := IsComplete();
      if complete {
        return true;
      }
      var r, c := GetNextCell();
      SolutionsAllowed(g0, size, width, height, r, c);
      var values := GetValues(r, c);
      ghost var candidates := values;
      forall k | 0 <= k < |values| ensures values[k] != 0 && values[k] != g0[r][c] {
        assert values[k] in values;
      }
      // what cell (r, c) holds now: the original value, or 0 once a candidate failed
      ghost var current := g0[r][c];
      WriteSame(g0, r, c);
      while values != []
        invariant Cells() == Place(g0, r, c, current)
        invariant current == g0[r][c] || current == 0
        invariant values != candidates ==> current == 0
        invariant forall k :: 0 <= k < |values| ==> values[k] != 0 && values[k] != g0[r][c]
        invariant g0[r][c] == 0 ==> forall s :: SolutionOf(s, g0, size, width, height) ==> s[r][c] in values
        decreases |values|
      {
        var currentValue := values[0];
        assert values == [currentValue] + values[1..];
        WriteTwice(g0, r, c, current, currentValue);
        ZeroCountUpdate(g0, r, c, currentValue);
        SolutionsOfPlacement(g0, size, width, height, r, c, currentValue);
        var ok := AttemptAsWritten(r, c, currentValue);
        if ok {
          return true;
        }
        WriteTwice(g0, r, c, current, 0);
        current := 0;
        values := values[1..];
      }
      return false;
    }

    /** One turn of the candidate loop of `BackTrackAsWritten`: write `v` at
        `(r, c)`, whatever the cell holds, and search on if the grid is still
        correct; on failure the cell is reset to 0. */
    method AttemptAsWritten(r: int, c: int, v: int) returns (ok: bool)
      requires Valid() && 0 <= r < size && 0 <= c < size && v != 0
      modifies grid
      decreases ZeroCount(Place(Cells(), r, c, v)), 1, 0
      ensures ok ==> Complete(Cells(), size, width, height)
      ensures ok ==> Extends(Cells(), Place(old(Cells()), r, c, v), size)
      ensures !ok ==> Cells() == Place(old(Cells()), r, c, 0)
      ensures forall s :: SolutionOf(s, Place(old(Cells()), r, c, v), size, width, height) ==> ok
    {
      ghost var g0 := Cells();
      grid[r, c] := v;
      CellWritten(g0, r, c, v);
      ghost var g1 := g0[r := g0[r][c := v]];
      SolvableIsCorrect(g1, size, width, height);
      ok := IsCorrect();
      if ok {
        ok := BackTrackAsWritten();
      }
      if !ok {
        grid[r, c] := 0;
        CellWritten(g1, r, c, 0);
        WriteTwice(g0, r, c, v, 0);
      }
    }

    /** Brute-force search: the first empty cell in row-major order gets
        every value of `1..size` in turn, each followed by a check and a
        recursive search.  With no empty cell left, the answer is whether
        the grid is correct.  Same guarantees as `BackTrack`. */
    method SolvePuzzle() returns (solved: bool)
      requires Valid()
      modifies grid
      decreases ZeroCount(Cells()), 1
      ensures Extends(Cells(), old(Cells()), size)
      ensures solved ==> Complete(Cells(), size, width, height)
      ensures !solved ==> Cells() == old(Cells())
      ensures forall s :: SolutionOf(s, old(Cells()), size, width, height) ==> solved
    {
      ghost var g0 := Cells();
      var r := 0;
      while r < grid.Length0
        invariant 0 <= r <= size && Cells() == g0
        invariant forall i, j :: 0 <= i < r && 0 <= j < size ==> g0[i][j] != 0
      {
        var c := 0;
        while c < grid.Length1
          invariant 0 <= c <= size && Cells() == g0
          invariant forall j :: 0 <= j < c ==> g0[r][j] != 0
        {
          if grid[r, c] == 0 {
            SolutionsAllowed(g0, size, width, height, r, c);
            var i := 1;
            while i <= size
              invariant 1 <= i <= size + 1 && Cells() == g0
              invariant forall s :: SolutionOf(s, g0, size, width, height) ==> s[r][c] >= i
            {
              var ok := Guess(r, c, i);
              if ok {
                return true;
              }
              i := i + 1;
            }
            return false;
          }
          c := c + 1;
        }
        r := r + 1;
      }
      SolvableIsCorrect(g0, size, width, height);
      solved := IsCorrect();
    }

    /** One guess of `SolvePuzzle`: place `v` at the empty cell `(r, c)`,
        and search on if the grid is still correct.  On failure the cell is
        reset to 0, and no solution of the puzzle has `v` there. */
    method Guess(r: int, c: int, v: int) returns (ok: bool)
      requires Valid() && 0 <= r < size && 0 <= c < size && grid[r, c] == 0 && v != 0
      modifies grid
      decreases ZeroCount(Cells()), 0
      ensures ok ==> Complete(Cells(), size, width, height) && Extends(Cells(), old(Cells()), size)
      ensures !ok ==> Cells() == old(Cells())
      ensures forall s :: SolutionOf(s, old(Cells()), size, width, height) && s[r][c] == v ==> ok
    {
      ghost var g0 := Cells();
      grid[r, c] := v;
      CellWritten(g0, r, c, v);
      ghost var g1 := g0[r := g0[r][c := v]];
      SolutionsOfPlacement(g0, size, width, height, r, c, v);
      ZeroCountUpdate(g0, r, c, v);
      SolvableIsCorrect(g1, size, width, height);
      ok := IsCorrect();
      if ok {
        ok := SolvePuzzle();
      }
      if !ok {
        grid[r, c] := 0;
        CellWritten(g1, r, c, 0);
        UndoPlacement(g0, r, c, v);
      }
    }

    /** `solvePuzzle` exactly as written: a grid with no empty cell is
        reported solved without being checked, so a full grid that breaks a
        rule counts as solved.  On every grid with an empty cell it behaves
        as `SolvePuzzle`. */
    method SolvePuzzleAsWritten() returns (solved: bool)
      requires Valid()
      modifies grid
      decreases ZeroCount(Cells()), 1
      ensures Extends(Cells(), old(Cells()), size)
      ensures !solved ==> Cells() == old(Cells())
      ensures Full(old(Cells()), size) ==> solved && Cells() == old(Cells())
      ensures solved && !Full(old(Cells()), size) ==> Complete(Cells(), size, width, height)
      ensures forall s :: SolutionOf(s, old(Cells()), size, width, height) ==> solved
    {
      ghost var g0 := Cells();
      var r := 0;
      while r < grid.Length0
        invariant 0 <= r <= size && Cells() == g0
        invariant forall i, j :: 0 <= i < r && 0 <= j < size ==> g0[i][j] != 0
      {
        var c := 0;
        while c < grid.Length1
          invariant 0 <= c <= size && Cells() == g0
          invariant forall j :: 0 <= j < c ==> g0[r][j] != 0
        {
          if grid[r, c] == 0 {
            SolutionsAllowed(g0, size, width, height, r, c);
            var i := 1;
            while i <= size
              invariant 1 <= i <= size + 1 && Cells() == g0
              invariant forall s :: SolutionOf(s, g0, size, width, height) ==> s[r][c] >= i
            {
              var ok := GuessAsWritten(r, c, i);
              if ok {
                return true;
              }
              i := i + 1;
            }
            return false;
          }
          c := c + 1;
        }
        r := r + 1;
      }
      return true;
    }

    /** One guess of `SolvePuzzleAsWritten`. */
    method GuessAsWritten(r: int, c: int, v: int) returns (ok: bool)
      requires Valid() && 0 <= r < size && 0 <= c < size && grid[r, c] == 0 && v != 0
      modifies grid
      decreases ZeroCount(Cells()), 0
      ensures ok ==> Complete(Cells(), size, width, height) && Extends(Cells(), old(Cells()), size)
      ensures !ok ==> Cells() == old(Cells())
      ensures forall s :: SolutionOf(s, old(Cells()), size, width, height) && s[r][c] == v ==> ok
    {
      ghost var g0 := Cells();
      grid[r, c] := v;
      CellWritten(g0, r, c, v);
      ghost var g1 := g0[r := g0[r][c := v]];
      SolutionsOfPlacement(g0, size, width, height, r, c, v);
      ZeroCountUpdate(g0, r, c, v);
      SolvableIsCorrect(g1, size, width, height);
      ok := IsCorrect();
      if ok {
        ok := SolvePuzzleAsWritten();
      }
      if !ok {
        grid[r, c] := 0;
        CellWritten(g1, r, c, 0);
        UndoPlacement(g0, r, c, v);
      }
    }
  }
}


/** Worked examples, with their outcome proved, of puzzles on which the
    search as written departs from its documented behaviour. */
module SudokuExamples {
  import opened GridRules
  import opened Sudoku

  /** A 2 by 2 puzzle of 1-row, 2-column boxes with no empty cell and row 0
      holding 1 twice.  `backTrack` as written replaces the clue 1 at `(0, 0)`
      by the candidate 2, and reports the puzzle solved. */
  method BackTrackOverwritesClue() returns (clue: int, after: int)
    ensures clue == 1 && after != clue
  {
    var p := new Puzzle(2, 1, [[1, 1], [1, 2]]);
    ghost var g := p.Cells();
    assert g[0][0] == g[0][1] && g[0][0] != 0;
    assert RowBad(g, 2, 0);
    assert Allowed(g, 2, 2, 1, 0, 0, 2);
    clue := p.grid[0, 0];
    var solved := p.BackTrackAsWritten();
    after := p.grid[0, 0];
  }

  /** The same puzzle: `solvePuzzle` as written finds no empty cell and
      reports it solved, although row 0 holds 1 twice. */
  method SolvePuzzleAcceptsBrokenGrid() returns (solved: bool, correct: bool)
    ensures solved && !correct
  {
    var p := new Puzzle(2, 1, [[1, 1], [1, 2]]);
    ghost var g := p.Cells();
    assert g[0][0] == g[0][1] && g[0][0] != 0;
    assert RowBad(g, 2, 0);
    solved := p.SolvePuzzleAsWritten();
    correct := p.IsCorrect();
  }
}
