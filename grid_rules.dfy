/** Sudoku rules over a plain grid value.

    A grid is a square matrix of integers of side `n`, where 0 marks an empty
    cell.  The grid is tiled by boxes of `h` rows by `w` columns, and
    `n == w * h`.  These definitions are the reference meaning of the checker,
    the candidate generator and the search in module Sudoku. */
module GridRules {

  type Grid = seq<seq<int>>

  /** Box geometry as the puzzle keeps it: positive box sides, and the grid
      side is their product. */
  predicate Geometry(n: int, w: int, h: int) {
    w > 0 && h > 0 && n == w * h
  }

  /** `g` is an `n` by `n` matrix. */
  predicate Shaped(g: Grid, n: int) {
    |g| == n && forall i :: 0 <= i < |g| ==> |g[i]| == n
  }

  /** A value the checker accepts in a cell: empty, or `1..n`. */
  predicate InRange(v: int, n: int) {
    0 <= v <= n
  }

  /** Cell `(i, j)` lies in box `(k, m)`: box rows `k*h ..< k*h + h`,
      box columns `m*w ..< m*w + w`. */
  predicate InBox(w: int, h: int, k: int, m: int, i: int, j: int) {
    InRect(k * h, m * w, h, w, i, j)
  }

  /** Cell `(i, j)` lies in the `h` by `w` rectangle whose top-left cell is
      `(top, left)`. */
  predicate InRect(top: int, left: int, h: int, w: int, i: int, j: int) {
    top <= i < top + h && left <= j < left + w
  }

  /** Row-major order: cell `(i, j)` comes strictly before cell `(r, c)`. */
  predicate Before(i: int, j: int, r: int, c: int) {
    i < r || (i == r && j < c)
  }

  // ---------------------------------------------------------------------
  // Violations
  // ---------------------------------------------------------------------

  /** Row `r` holds an out-of-range value, or one non-zero value at two
      different columns. */
  ghost predicate RowBad(g: Grid, n: int, r: int)
    requires Shaped(g, n) && 0 <= r < n
  {
    || (exists j :: 0 <= j < n && !InRange(g[r][j], n))
    || (exists j1, j2 :: 0 <= j1 < n && 0 <= j2 < n && j1 != j2 && g[r][j1] != 0 && g[r][j1] == g[r][j2])
  }

  /** Column `c` holds an out-of-range value, or one non-zero value at two
      different rows. */
  ghost predicate ColBad(g: Grid, n: int, c: int)
    requires Shaped(g, n) && 0 <= c < n
  {
    || (exists i :: 0 <= i < n && !InRange(g[i][c], n))
    || (exists i1, i2 :: 0 <= i1 < n && 0 <= i2 < n && i1 != i2 && g[i1][c] != 0 && g[i1][c] == g[i2][c])
  }

  /** Box `(k, m)` holds an out-of-range value, or one non-zero value at two
      different cells of the box. */
  ghost predicate BoxBad(g: Grid, n: int, w: int, h: int, k: int, m: int)
    requires Shaped(g, n)
  {
    RectBad(g, n, k * h, m * w, h, w)
  }

  /** The `h` by `w` rectangle with top-left cell `(top, left)` holds an
      out-of-range value, or one non-zero value at two different cells. */
  ghost predicate RectBad(g: Grid, n: int, top: int, left: int, h: int, w: int)
    requires Shaped(g, n)
  {
    || (exists i, j :: 0 <= i < n && 0 <= j < n && InRect(top, left, h, w, i, j) && !InRange(g[i][j], n))
    || (exists i1, j1, i2, j2 ::
          && 0 <= i1 < n && 0 <= j1 < n && InRect(top, left, h, w, i1, j1)
          && 0 <= i2 < n && 0 <= j2 < n && InRect(top, left, h, w, i2, j2)
          && (i1 != i2 || j1 != j2) && g[i1][j1] != 0 && g[i1][j1] == g[i2][j2])
  }

  ghost predicate AnyRowBad(g: Grid, n: int)
    requires Shaped(g, n)
  {
    exists r :: 0 <= r < n && RowBad(g, n, r)
  }

  ghost predicate AnyColBad(g: Grid, n: int)
    requires Shaped(g, n)
  {
    exists c :: 0 <= c < n && ColBad(g, n, c)
  }

  /** Some whole box that fits in the grid is bad: `w` boxes down, `h` boxes
      across when `n == w * h`. */
  ghost predicate AnyBoxBad(g: Grid, n: int, w: int, h: int)
    requires Shaped(g, n)
  {
    exists k, m :: 0 <= k < w && 0 <= m < h && BoxBad(g, n, w, h, k, m)
  }

  /** No row, column or box violation; empty cells are allowed. */
  ghost predicate Correct(g: Grid, n: int, w: int, h: int)
    requires Shaped(g, n)
  {
    !AnyRowBad(g, n) && !AnyColBad(g, n) && !AnyBoxBad(g, n, w, h)
  }

  /** No cell is empty. */
  ghost predicate Full(g: Grid, n: int)
    requires Shaped(g, n)
  {
    forall i, j :: 0 <= i < n && 0 <= j < n ==> g[i][j] != 0
  }

  /** A full solution. */
  ghost predicate Complete(g: Grid, n: int, w: int, h: int)
    requires Shaped(g, n)
  {
    Correct(g, n, w, h) && Full(g, n)
  }

  // ---------------------------------------------------------------------
  // Candidates and solutions
  // ---------------------------------------------------------------------

  /** `(r, c)` is the first empty cell in row-major order. */
  ghost predicate FirstEmpty(g: Grid, n: int, r: int, c: int)
    requires Shaped(g, n) && 0 <= r < n && 0 <= c < n
  {
    g[r][c] == 0 &&
    forall i, j :: 0 <= i < n && 0 <= j < n && Before(i, j, r, c) ==> g[i][j] != 0
  }

  /** `v` is a candidate for cell `(r, c)`: it is in `1..n` and occurs neither
      in row `r`, nor in column `c`, nor in the box holding the cell. */
  ghost predicate Allowed(g: Grid, n: int, w: int, h: int, r: int, c: int, v: int)
    requires Shaped(g, n) && Geometry(n, w, h) && 0 <= r < n && 0 <= c < n
  {
    && 1 <= v <= n
    && (forall j :: 0 <= j < n ==> g[r][j] != v)
    && (forall i :: 0 <= i < n ==> g[i][c] != v)
    && (forall i, j :: 0 <= i < n && 0 <= j < n && InBox(w, h, r / h, c / w, i, j) ==> g[i][j] != v)
  }

  /** `s` agrees with `g` on every filled cell of `g`. */
  ghost predicate Extends(s: Grid, g: Grid, n: int)
    requires Shaped(s, n) && Shaped(g, n)
  {
    forall i, j :: 0 <= i < n && 0 <= j < n && g[i][j] != 0 ==> s[i][j] == g[i][j]
  }

  /** `s` is a solution of the puzzle `g`: complete, and keeps every clue. */
  ghost predicate SolutionOf(s: Grid, g: Grid, n: int, w: int, h: int)
    requires Shaped(g, n)
  {
    Shaped(s, n) && Complete(s, n, w, h) && Extends(s, g, n)
  }

  /** Number of empty cells of a row. */
  function RowZeros(row: seq<int>): (z: nat)
    ensures z <= |row|
  {
    if |row| == 0 then 0
    else RowZeros(row[..|row| - 1]) + (if row[|row| - 1] == 0 then 1 else 0)
  }

  /** Number of empty cells of a grid: the search's termination measure. */
  function ZeroCount(g: Grid): (z: nat)
  {
    if |g| == 0 then 0 else ZeroCount(g[..|g| - 1]) + RowZeros(g[|g| - 1])
  }

  // ---------------------------------------------------------------------
  // Lemmas
  // ---------------------------------------------------------------------

  /** Two `n` by `n` grids with the same cells are equal. */
  lemma GridExt(a: Grid, b: Grid, n: int)
    requires Shaped(a, n) && Shaped(b, n)
    requires forall i, j :: 0 <= i < n && 0 <= j < n ==> a[i][j] == b[i][j]
    ensures a == b
  {
    forall i | 0 <= i < n ensures a[i] == b[i] {
      assert forall j :: 0 <= j < n ==> a[i][j] == b[i][j];
    }
  }

  /** The next multiple of `h` after `k * h`. */
  lemma NextMultiple(k: int, h: int)
    ensures (k + 1) * h == k * h + h
  {
  }

  /** Multiplying by a positive factor keeps the order. */
  lemma ScaleLe(a: int, b: int, h: int)
    requires h > 0
    ensures a <= b <==> a * h <= b * h
  {
    if a <= b {
      assert b * h - a * h == (b - a) * h;
    } else {
      assert a * h - b * h == (a - b) * h;
    }
  }

  /** Box `k` of the rows (or of the columns) fits inside the grid. */
  lemma BoxFits(k: int, w: int, h: int)
    requires w > 0 && h > 0 && 0 <= k < w
    ensures 0 <= k * h && k * h + h <= w * h
  {
    ScaleLe(0, k, h);
    ScaleLe(k + 1, w, h);
  }

  /** The box row (column) index of row `r` (column `r`) is in range and the
      box covers `r`. */
  lemma BoxOf(r: int, w: int, h: int)
    requires w > 0 && h > 0 && 0 <= r < w * h
    ensures 0 <= r / h < w
    ensures (r / h) * h <= r < (r / h) * h + h
  {
    var k := r / h;
    assert k * h + r % h == r;
    if k >= w {
      ScaleLe(w, k, h);
    }
  }

  /** The update `g[r][c] := v` changes the number of empty cells by the
      change at that one cell. */
  lemma {:induction false} ZeroCountUpdate(g: Grid, r: int, c: int, v: int)
    requires 0 <= r < |g| && 0 <= c < |g[r]|
    ensures ZeroCount(g[r := g[r][c := v]])
         == ZeroCount(g) - (if g[r][c] == 0 then 1 else 0) + (if v == 0 then 1 else 0)
  {
    var g' := g[r := g[r][c := v]];
    var last := |g| - 1;
    if r == last {
      assert g'[..last] == g[..last];
      RowZerosUpdate(g[r], c, v);
    } else {
      assert g'[..last] == g[..last][r := g[r][c := v]];
      ZeroCountUpdate(g[..last], r, c, v);
    }
  }

  lemma {:induction false} RowZerosUpdate(row: seq<int>, c: int, v: int)
    requires 0 <= c < |row|
    ensures RowZeros(row[c := v])
         == RowZeros(row) - (if row[c] == 0 then 1 else 0) + (if v == 0 then 1 else 0)
  {
    var row' := row[c := v];
    var last := |row| - 1;
    if c == last {
      assert row'[..last] == row[..last];
    } else {
      assert row'[..last] == row[..last][c := v];
      RowZerosUpdate(row[..last], c, v);
    }
  }

  /** The termination measure of the search is 0 exactly on full grids. */
  lemma FullIffNoZeros(g: Grid, n: int)
    requires Shaped(g, n)
    ensures Full(g, n) <==> ZeroCount(g) == 0
  {
    if Full(g, n) {
      FullHasNoZeros(g, n);
    } else {
      var r, c :| 0 <= r < n && 0 <= c < n && g[r][c] == 0;
      ZeroCountUpdate(g, r, c, 1);
    }
  }

  /** A full grid has no empty cell to count. */
  lemma {:induction false} FullHasNoZeros(g: Grid, n: int)
    requires Shaped(g, n) && Full(g, n)
    ensures ZeroCount(g) == 0
  {
    if n > 0 {
      var last := n - 1;
      var prefix := g[..last];
      forall i | 0 <= i < last ensures |prefix[i]| == last + 1 {
      }
      RowHasNoZeros(g[last]);
      PrefixNoZeros(prefix, last + 1);
    }
  }

  /** Rows of length `n` none of which holds 0 count no empty cell. */
  lemma {:induction false} PrefixNoZeros(g: Grid, n: int)
    requires forall i :: 0 <= i < |g| ==> |g[i]| == n
    requires forall i, j :: 0 <= i < |g| && 0 <= j < n ==> g[i][j] != 0
    ensures ZeroCount(g) == 0
  {
    if |g| > 0 {
      RowHasNoZeros(g[|g| - 1]);
      PrefixNoZeros(g[..|g| - 1], n);
    }
  }

  lemma {:induction false} RowHasNoZeros(row: seq<int>)
    requires forall j :: 0 <= j < |row| ==> row[j] != 0
    ensures RowZeros(row) == 0
  {
    if |row| > 0 {
      RowHasNoZeros(row[..|row| - 1]);
    }
  }

  /** Correctness is inherited downwards: a grid that some correct grid
      extends is itself correct (every violation of `g` is one of `s`). */
  lemma CorrectOfExtension(s: Grid, g: Grid, n: int, w: int, h: int)
    requires Shaped(s, n) && Shaped(g, n) && Extends(s, g, n)
    requires Correct(s, n, w, h)
    ensures Correct(g, n, w, h)
  {
    forall r | 0 <= r < n && RowBad(g, n, r) ensures RowBad(s, n, r) {
      RowBadLifts(s, g, n, r);
    }
    forall c | 0 <= c < n && ColBad(g, n, c) ensures ColBad(s, n, c) {
      ColBadLifts(s, g, n, c);
    }
    forall k, m | 0 <= k < w && 0 <= m < h && BoxBad(g, n, w, h, k, m) ensures BoxBad(s, n, w, h, k, m) {
      RectBadLifts(s, g, n, k * h, m * w, h, w);
    }
  }

  lemma RowBadLifts(s: Grid, g: Grid, n: int, r: int)
    requires Shaped(s, n) && Shaped(g, n) && Extends(s, g, n) && 0 <= r < n
    requires RowBad(g, n, r)
    ensures RowBad(s, n, r)
  {
    if j :| 0 <= j < n && !InRange(g[r][j], n) {
      assert !InRange(s[r][j], n);
    } else {
      var j1, j2 :| 0 <= j1 < n && 0 <= j2 < n && j1 != j2 && g[r][j1] != 0 && g[r][j1] == g[r][j2];
      assert s[r][j1] == s[r][j2];
    }
  }

  lemma ColBadLifts(s: Grid, g: Grid, n: int, c: int)
    requires Shaped(s, n) && Shaped(g, n) && Extends(s, g, n) && 0 <= c < n
    requires ColBad(g, n, c)
    ensures ColBad(s, n, c)
  {
    if i :| 0 <= i < n && !InRange(g[i][c], n) {
      assert !InRange(s[i][c], n);
    } else {
      var i1, i2 :| 0 <= i1 < n && 0 <= i2 < n && i1 != i2 && g[i1][c] != 0 && g[i1][c] == g[i2][c];
      assert s[i1][c] == s[i2][c];
    }
  }

  lemma RectBadLifts(s: Grid, g: Grid, n: int, top: int, left: int, h: int, w: int)
    requires Shaped(s, n) && Shaped(g, n) && Extends(s, g, n)
    requires RectBad(g, n, top, left, h, w)
    ensures RectBad(s, n, top, left, h, w)
  {
    if i, j :| 0 <= i < n && 0 <= j < n && InRect(top, left, h, w, i, j) && !InRange(g[i][j], n) {
      assert !InRange(s[i][j], n);
    } else {
      var i1, j1, i2, j2 :|
        && 0 <= i1 < n && 0 <= j1 < n && InRect(top, left, h, w, i1, j1)
        && 0 <= i2 < n && 0 <= j2 < n && InRect(top, left, h, w, i2, j2)
        && (i1 != i2 || j1 != j2) && g[i1][j1] != 0 && g[i1][j1] == g[i2][j2];
      assert s[i1][j1] == s[i2][j2];
    }
  }

  // ---------------------------------------------------------------------
  // Scanning a box in row-major order
  // ---------------------------------------------------------------------

  /** The rectangle lies inside the `n` by `n` grid. */
  predicate RectFits(n: int, top: int, left: int, h: int, w: int) {
    0 <= top && top + h <= n && 0 <= left && left + w <= n
  }

  /** The cells of the rectangle before `(r, c)` in row-major order are all
      in range and hold no repeated non-zero value, and `seen` is exactly the
      set of non-zero values among them. */
  ghost predicate ScanClean(g: Grid, n: int, top: int, left: int, h: int, w: int, seen: set<int>, r: int, c: int)
    requires Shaped(g, n) && RectFits(n, top, left, h, w)
  {
    && (forall i, j :: InRect(top, left, h, w, i, j) && Before(i, j, r, c) ==> InRange(g[i][j], n))
    && (forall i, j :: InRect(top, left, h, w, i, j) && Before(i, j, r, c) && g[i][j] != 0 ==> UniqueBefore(g, n, top, left, h, w, r, c, i, j))
    && (forall v :: v in seen ==> exists i, j :: InRect(top, left, h, w, i, j) && Before(i, j, r, c) && g[i][j] == v)
    && (forall i, j :: InRect(top, left, h, w, i, j) && Before(i, j, r, c) && g[i][j] != 0 ==> g[i][j] in seen)
  }

  /** No other cell of the rectangle before `(r, c)` holds the value of
      cell `(i, j)`. */
  ghost predicate UniqueBefore(g: Grid, n: int, top: int, left: int, h: int, w: int, r: int, c: int, i: int, j: int)
    requires Shaped(g, n) && RectFits(n, top, left, h, w) && InRect(top, left, h, w, i, j)
  {
    forall i2, j2 :: InRect(top, left, h, w, i2, j2) && Before(i2, j2, r, c) && (i != i2 || j != j2) ==> g[i][j] != g[i2][j2]
  }

  /** Nothing is scanned before the top-left cell. */
  lemma ScanBegin(g: Grid, n: int, top: int, left: int, h: int, w: int)
    requires Shaped(g, n) && RectFits(n, top, left, h, w)
    ensures ScanClean(g, n, top, left, h, w, {}, top, left)
  {
  }

  /** A cell in range whose non-zero value was not seen yet extends the
      clean prefix by one cell. */
  lemma ScanStep(g: Grid, n: int, top: int, left: int, h: int, w: int, seen: set<int>, seen': set<int>, r: int, c: int)
    requires Shaped(g, n) && RectFits(n, top, left, h, w) && InRect(top, left, h, w, r, c)
    requires ScanClean(g, n, top, left, h, w, seen, r, c)
    requires InRange(g[r][c], n) && (g[r][c] == 0 || g[r][c] !in seen)
    requires seen' == if g[r][c] == 0 then seen else seen + {g[r][c]}
    ensures ScanClean(g, n, top, left, h, w, seen', r, c + 1)
  {
    forall v | v in seen' ensures exists i, j :: InRect(top, left, h, w, i, j) && Before(i, j, r, c + 1) && g[i][j] == v {
      if v !in seen {
        assert Before(r, c, r, c + 1) && g[r][c] == v;
      }
    }
  }

  /** A cell out of range, or whose non-zero value was already seen, makes
      the rectangle bad. */
  lemma ScanHit(g: Grid, n: int, top: int, left: int, h: int, w: int, seen: set<int>, r: int, c: int)
    requires Shaped(g, n) && RectFits(n, top, left, h, w) && InRect(top, left, h, w, r, c)
    requires ScanClean(g, n, top, left, h, w, seen, r, c)
    requires !InRange(g[r][c], n) || (g[r][c] != 0 && g[r][c] in seen)
    ensures RectBad(g, n, top, left, h, w)
  {
    if InRange(g[r][c], n) {
      var i, j :| InRect(top, left, h, w, i, j) && Before(i, j, r, c) && g[i][j] == g[r][c];
      assert (i != r || j != c) && g[i][j] != 0;
    }
  }

  /** Finishing a row of the rectangle is starting the next one. */
  lemma ScanNextRow(g: Grid, n: int, top: int, left: int, h: int, w: int, seen: set<int>, r: int)
    requires Shaped(g, n) && RectFits(n, top, left, h, w)
    requires ScanClean(g, n, top, left, h, w, seen, r, left + w)
    ensures ScanClean(g, n, top, left, h, w, seen, r + 1, left)
  {
    assert forall i, j :: InRect(top, left, h, w, i, j) ==> (Before(i, j, r, left + w) <==> Before(i, j, r + 1, left));
  }

  /** A rectangle scanned to the end without a hit is not bad. */
  lemma ScanEnd(g: Grid, n: int, top: int, left: int, h: int, w: int, seen: set<int>)
    requires Shaped(g, n) && RectFits(n, top, left, h, w)
    requires ScanClean(g, n, top, left, h, w, seen, top + h, left)
    ensures !RectBad(g, n, top, left, h, w)
  {
    assert forall i, j :: InRect(top, left, h, w, i, j) ==> Before(i, j, top + h, left);
  }

  // ---------------------------------------------------------------------
  // Values met by the candidate scan
  // ---------------------------------------------------------------------

  /** `v` occurs in row `r` among columns `0 ..< cols`. */
  ghost predicate InRowPrefix(g: Grid, n: int, r: int, cols: int, v: int)
    requires Shaped(g, n) && 0 <= r < n && 0 <= cols <= n
  {
    exists j :: 0 <= j < cols && g[r][j] == v
  }

  /** `v` occurs in column `c` among rows `0 ..< rows`. */
  ghost predicate InColPrefix(g: Grid, n: int, c: int, rows: int, v: int)
    requires Shaped(g, n) && 0 <= c < n && 0 <= rows <= n
  {
    exists i :: 0 <= i < rows && g[i][c] == v
  }

  /** `v` occurs in the rectangle among the cells before `(r, c)`. */
  ghost predicate InRectPrefix(g: Grid, n: int, top: int, left: int, h: int, w: int, r: int, c: int, v: int)
    requires Shaped(g, n) && RectFits(n, top, left, h, w)
  {
    exists i, j :: InRect(top, left, h, w, i, j) && Before(i, j, r, c) && g[i][j] == v
  }

  lemma RowPrefixStep(g: Grid, n: int, r: int, cols: int)
    requires Shaped(g, n) && 0 <= r < n && 0 <= cols < n
    ensures forall v :: InRowPrefix(g, n, r, cols + 1, v) <==> InRowPrefix(g, n, r, cols, v) || g[r][cols] == v
  {
    assert InRowPrefix(g, n, r, cols + 1, g[r][cols]);
  }

  lemma ColPrefixStep(g: Grid, n: int, c: int, rows: int)
    requires Shaped(g, n) && 0 <= c < n && 0 <= rows < n
    ensures forall v :: InColPrefix(g, n, c, rows + 1, v) <==> InColPrefix(g, n, c, rows, v) || g[rows][c] == v
  {
    assert InColPrefix(g, n, c, rows + 1, g[rows][c]);
  }

  lemma RectPrefixStep(g: Grid, n: int, top: int, left: int, h: int, w: int, r: int, c: int)
    requires Shaped(g, n) && RectFits(n, top, left, h, w) && InRect(top, left, h, w, r, c)
    ensures forall v :: InRectPrefix(g, n, top, left, h, w, r, c + 1, v)
                    <==> InRectPrefix(g, n, top, left, h, w, r, c, v) || g[r][c] == v
  {
    forall v | InRectPrefix(g, n, top, left, h, w, r, c + 1, v)
      ensures InRectPrefix(g, n, top, left, h, w, r, c, v) || g[r][c] == v
    {
    }
    assert Before(r, c, r, c + 1);
    assert InRectPrefix(g, n, top, left, h, w, r, c + 1, g[r][c]);
  }

  lemma RectPrefixNextRow(g: Grid, n: int, top: int, left: int, h: int, w: int, r: int, right: int, next: int)
    requires Shaped(g, n) && RectFits(n, top, left, h, w) && right == left + w && next == r + 1
    ensures forall v :: InRectPrefix(g, n, top, left, h, w, r, right, v)
                    <==> InRectPrefix(g, n, top, left, h, w, next, left, v)
  {
    assert forall i, j :: InRect(top, left, h, w, i, j) ==> (Before(i, j, r, right) <==> Before(i, j, next, left));
  }

  /** The candidate test, read off the three completed scans. */
  lemma AllowedByScans(g: Grid, n: int, w: int, h: int, r: int, c: int)
    requires Shaped(g, n) && Geometry(n, w, h) && 0 <= r < n && 0 <= c < n
    requires RectFits(n, (r / h) * h, (c / w) * w, h, w)
    ensures forall v :: 1 <= v <= n ==>
              (Allowed(g, n, w, h, r, c, v) <==>
                 && !InRowPrefix(g, n, r, n, v)
                 && !InColPrefix(g, n, c, n, v)
                 && !InRectPrefix(g, n, (r / h) * h, (c / w) * w, h, w, (r / h) * h + h, (c / w) * w, v))
  {
    var top, left := (r / h) * h, (c / w) * w;
    assert forall i, j :: InRect(top, left, h, w, i, j) ==> Before(i, j, top + h, left);
    assert forall i, j :: InBox(w, h, r / h, c / w, i, j) <==> InRect(top, left, h, w, i, j);
  }

  /** Pruning never loses a solution: the value a solution puts in an empty
      cell of `g` is a candidate for that cell. */
  lemma SolutionValueAllowed(s: Grid, g: Grid, n: int, w: int, h: int, r: int, c: int)
    requires Geometry(n, w, h) && Shaped(g, n) && SolutionOf(s, g, n, w, h)
    requires 0 <= r < n && 0 <= c < n && g[r][c] == 0
    ensures Allowed(g, n, w, h, r, c, s[r][c])
  {
    RowClashes(s, g, n, r, c);
    ColClashes(s, g, n, r, c);
    BoxOf(r, w, h);
    BoxOf(c, h, w);
    BoxClashes(s, g, n, w, h, r, c);
    assert !RowBad(s, n, r);
  }

  /** A clue of `g` equal to the value `s` puts in the empty cell `(r, c)`
      of the same row makes that row of `s` bad. */
  lemma RowClashes(s: Grid, g: Grid, n: int, r: int, c: int)
    requires Shaped(s, n) && Shaped(g, n) && Extends(s, g, n)
    requires 0 <= r < n && 0 <= c < n && g[r][c] == 0 && s[r][c] != 0
    ensures forall j :: 0 <= j < n && g[r][j] == s[r][c] ==> RowBad(s, n, r)
  {
    forall j | 0 <= j < n && g[r][j] == s[r][c] ensures RowBad(s, n, r) {
      assert s[r][j] == s[r][c] && j != c;
    }
  }

  lemma ColClashes(s: Grid, g: Grid, n: int, r: int, c: int)
    requires Shaped(s, n) && Shaped(g, n) && Extends(s, g, n)
    requires 0 <= r < n && 0 <= c < n && g[r][c] == 0 && s[r][c] != 0
    ensures forall i :: 0 <= i < n && g[i][c] == s[r][c] ==> ColBad(s, n, c)
  {
    forall i | 0 <= i < n && g[i][c] == s[r][c] ensures ColBad(s, n, c) {
      assert s[i][c] == s[r][c] && i != r;
    }
  }

  lemma BoxClashes(s: Grid, g: Grid, n: int, w: int, h: int, r: int, c: int)
    requires Shaped(s, n) && Shaped(g, n) && Extends(s, g, n) && w > 0 && h > 0
    requires 0 <= r < n && 0 <= c < n && g[r][c] == 0 && s[r][c] != 0
    requires InBox(w, h, r / h, c / w, r, c)
    ensures forall i, j :: 0 <= i < n && 0 <= j < n && InBox(w, h, r / h, c / w, i, j) && g[i][j] == s[r][c]
              ==> BoxBad(s, n, w, h, r / h, c / w)
  {
    forall i, j | 0 <= i < n && 0 <= j < n && InBox(w, h, r / h, c / w, i, j) && g[i][j] == s[r][c]
      ensures BoxBad(s, n, w, h, r / h, c / w)
    {
      assert s[i][j] == s[r][c] && (i != r || j != c);
    }
  }

  /** A full puzzle has no solution but itself. */
  lemma FullSolution(s: Grid, g: Grid, n: int, w: int, h: int)
    requires Shaped(g, n) && Full(g, n) && SolutionOf(s, g, n, w, h)
    ensures s == g && Complete(g, n, w, h)
  {
    GridExt(s, g, n);
  }

  /** A puzzle that has a solution is itself correct: checking the grid
      after a placement may prune a branch but never a solution. */
  lemma SolvableIsCorrect(g: Grid, n: int, w: int, h: int)
    requires Shaped(g, n)
    ensures forall s :: SolutionOf(s, g, n, w, h) ==> Correct(g, n, w, h)
  {
    forall s | SolutionOf(s, g, n, w, h) ensures Correct(g, n, w, h) {
      CorrectOfExtension(s, g, n, w, h);
    }
  }

  /** Every solution puts a candidate into an empty cell. */
  lemma SolutionsAllowed(g: Grid, n: int, w: int, h: int, r: int, c: int)
    requires Geometry(n, w, h) && Shaped(g, n) && 0 <= r < n && 0 <= c < n
    ensures g[r][c] == 0 ==> forall s :: SolutionOf(s, g, n, w, h) ==> Allowed(g, n, w, h, r, c, s[r][c])
  {
    if g[r][c] == 0 {
      forall s | SolutionOf(s, g, n, w, h) ensures Allowed(g, n, w, h, r, c, s[r][c]) {
        SolutionValueAllowed(s, g, n, w, h, r, c);
      }
    }
  }

  /** Placing at one cell the value a solution has there keeps that
      solution; placing at an empty cell extends the grid. */
  lemma SolutionsOfPlacement(g: Grid, n: int, w: int, h: int, r: int, c: int, v: int)
    requires Shaped(g, n) && 0 <= r < n && 0 <= c < n
    ensures Shaped(g[r := g[r][c := v]], n)
    ensures g[r][c] == 0 ==> Extends(g[r := g[r][c := v]], g, n)
    ensures forall s :: SolutionOf(s, g, n, w, h) && s[r][c] == v ==> SolutionOf(s, g[r := g[r][c := v]], n, w, h)
  {
  }

  /** The grid `g` with value `v` written at `(r, c)`. */
  function Place(g: Grid, r: int, c: int, v: int): (p: Grid)
    requires 0 <= r < |g| && 0 <= c < |g[r]|
  {
    g[r := g[r][c := v]]
  }

  /** Resetting a placed cell to 0 gives back the grid it was empty in. */
  lemma UndoPlacement(g: Grid, r: int, c: int, v: int)
    requires 0 <= r < |g| && 0 <= c < |g[r]| && g[r][c] == 0
    ensures g[r := g[r][c := v]][r := g[r][c := v][c := 0]] == g
  {
    assert g[r][c := v][c := 0] == g[r];
  }

  /** Writing a cell twice leaves only the second value. */
  lemma WriteTwice(g: Grid, r: int, c: int, u: int, v: int)
    requires 0 <= r < |g| && 0 <= c < |g[r]|
    ensures g[r := g[r][c := u]][r := g[r][c := u][c := v]] == g[r := g[r][c := v]]
  {
    assert g[r][c := u][c := v] == g[r][c := v];
  }

  /** Writing back the value a cell already holds changes nothing. */
  lemma WriteSame(g: Grid, r: int, c: int)
    requires 0 <= r < |g| && 0 <= c < |g[r]|
    ensures g[r := g[r][c := g[r][c]]] == g
  {
    assert g[r][c := g[r][c]] == g[r];
  }
}
