/** The geometry of a tile's occupancy grid, as values.
    A tile keeps its shape in a square `size×size` grid of booleans; a padded
    shape moves inside that square frame when it is rotated or flipped. */
module Grids {

  type Grid = seq<seq<bool>>

  /** Every row is as long as the grid is tall. */
  predicate IsSquare(g: Grid) {
    forall i :: 0 <= i < |g| ==> |g[i]| == |g|
  }

  /** Cell (i, j) exists in the grid and is occupied. */
  predicate Occupied(g: Grid, i: int, j: int) {
    0 <= i < |g| && 0 <= j < |g[i]| && g[i][j]
  }

  /** The occupied cells, as (row, column) pairs. */
  function Cells(g: Grid): set<(int, int)> {
    set i, j | 0 <= i < |g| && 0 <= j < |g[i]| && g[i][j] :: (i, j)
  }

  /** Number of occupied squares in one row. */
  function RowTrues(row: seq<bool>): (r: nat)
    ensures r <= |row|
  {
    if row == [] then 0 else (if row[0] then 1 else 0) + RowTrues(row[1..])
  }

  /** Number of occupied squares in the whole grid. */
  function Count(g: Grid): nat {
    if g == [] then 0 else RowTrues(g[0]) + Count(g[1..])
  }

  lemma {:induction false} RowTruesAppend(a: seq<bool>, b: seq<bool>)
    ensures RowTrues(a + b) == RowTrues(a) + RowTrues(b)
  {
    if a == [] {
      assert a + b == b;
    } else {
      assert (a + b)[1..] == a[1..] + b;
      RowTruesAppend(a[1..], b);
    }
  }

  /** Counting a row square by square from the left. */
  lemma RowTruesSnoc(row: seq<bool>, k: nat)
    requires k < |row|
    ensures RowTrues(row[..k + 1]) == RowTrues(row[..k]) + (if row[k] then 1 else 0)
  {
    assert row[..k + 1] == row[..k] + [row[k]];
    RowTruesAppend(row[..k], [row[k]]);
  }

  lemma {:induction false} CountAppend(a: Grid, b: Grid)
    ensures Count(a + b) == Count(a) + Count(b)
  {
    if a == [] {
      assert a + b == b;
    } else {
      assert (a + b)[1..] == a[1..] + b;
      CountAppend(a[1..], b);
    }
  }

  function Max(a: int, b: int): int {
    if a < b then b else a
  }

  // ---------------------------------------------------------------------------
  // Rotations and flips (Tile.rotateRight, rotateLeft, flipVert, flipHorz)
  // ---------------------------------------------------------------------------

  /** Clockwise quarter turn of the square frame: new[i][j] == old[n-j-1][i]. */
  function RotateRight(g: Grid): (r: Grid)
    requires IsSquare(g)
    ensures |r| == |g| && IsSquare(r)
  {
    var n := |g|;
    seq(n, i requires 0 <= i < n => seq(n, j requires 0 <= j < n => g[n - j - 1][i]))
  }

  /** Counter-clockwise quarter turn of the square frame: new[i][j] == old[j][n-i-1]. */
  function RotateLeft(g: Grid): (r: Grid)
    requires IsSquare(g)
    ensures |r| == |g| && IsSquare(r)
  {
    var n := |g|;
    seq(n, i requires 0 <= i < n => seq(n, j requires 0 <= j < n => g[j][n - i - 1]))
  }

  /** The rows in reverse order: every column read bottom to top. */
  function FlipVert(g: Grid): (r: Grid)
    requires IsSquare(g)
    ensures |r| == |g| && IsSquare(r)
  {
    var n := |g|;
    seq(n, i requires 0 <= i < n => g[n - i - 1])
  }

  /** Every row read right to left. */
  function FlipHorz(g: Grid): (r: Grid)
    requires IsSquare(g)
    ensures |r| == |g| && IsSquare(r)
  {
    var n := |g|;
    seq(n, i requires 0 <= i < n => seq(n, j requires 0 <= j < n => g[i][n - j - 1]))
  }

  lemma RotateLeftUndoesRight(g: Grid)
    requires IsSquare(g)
    ensures RotateLeft(RotateRight(g)) == g
  {
    var n := |g|;
    var r := RotateLeft(RotateRight(g));
    forall i | 0 <= i < n ensures r[i] == g[i] {
      assert forall j :: 0 <= j < n ==> r[i][j] == g[i][j];
    }
  }

  lemma RotateRightUndoesLeft(g: Grid)
    requires IsSquare(g)
    ensures RotateRight(RotateLeft(g)) == g
  {
    var n := |g|;
    var r := RotateRight(RotateLeft(g));
    forall i | 0 <= i < n ensures r[i] == g[i] {
      assert forall j :: 0 <= j < n ==> r[i][j] == g[i][j];
    }
  }

  /** Two right turns send (i, j) to (n-1-i, n-1-j). */
  lemma RotateRightTwice(g: Grid)
    requires IsSquare(g)
    ensures var n := |g|; var h := RotateRight(RotateRight(g));
      |h| == n && IsSquare(h) &&
      forall i, j :: 0 <= i < n && 0 <= j < n ==> h[i][j] == g[n - 1 - i][n - 1 - j]
  {
  }

  /** Four successive clockwise turns restore the grid bit for bit. */
  lemma RotateRightFourTimes(g: Grid)
    requires IsSquare(g)
    ensures RotateRight(RotateRight(RotateRight(RotateRight(g)))) == g
  {
    var n := |g|;
    var h := RotateRight(RotateRight(g));
    RotateRightTwice(g);
    RotateRightTwice(h);
    var r := RotateRight(RotateRight(h));
    forall i | 0 <= i < n ensures r[i] == g[i] {
      assert forall j :: 0 <= j < n ==> r[i][j] == g[i][j];
    }
  }

  lemma FlipVertInvolution(g: Grid)
    requires IsSquare(g)
    ensures FlipVert(FlipVert(g)) == g
  {
    var r := FlipVert(FlipVert(g));
    assert forall i :: 0 <= i < |g| ==> r[i] == g[i];
  }

  lemma FlipHorzInvolution(g: Grid)
    requires IsSquare(g)
    ensures FlipHorz(FlipHorz(g)) == g
  {
    var n := |g|;
    var r := FlipHorz(FlipHorz(g));
    forall i | 0 <= i < n ensures r[i] == g[i] {
      assert forall j :: 0 <= j < n ==> r[i][j] == g[i][j];
    }
  }

  // ---------------------------------------------------------------------------
  // Counting occupied cells
  // ---------------------------------------------------------------------------

  function RowCells(row: seq<bool>, i: int): set<(int, int)> {
    set j | 0 <= j < |row| && row[j] :: (i, j)
  }

  lemma {:induction false} RowCellsCount(row: seq<bool>, i: int)
    ensures |RowCells(row, i)| == RowTrues(row)
  {
    if row != [] {
      var m := |row| - 1;
      RowCellsCount(row[..m], i);
      RowTruesSnoc(row, m);
      assert row[..m + 1] == row;
      if row[m] {
        assert RowCells(row, i) == RowCells(row[..m], i) + {(i, m)};
      } else {
        assert RowCells(row, i) == RowCells(row[..m], i);
      }
    }
  }

  /** The recursive count and the set of occupied cells agree. */
  lemma {:induction false} CountIsCells(g: Grid)
    ensures Count(g) == |Cells(g)|
  {
    if g != [] {
      var m := |g| - 1;
      CountIsCells(g[..m]);
      assert g == g[..m] + [g[m]];
      CountAppend(g[..m], [g[m]]);
      RowCellsCount(g[m], m);
      var a, b := Cells(g[..m]), RowCells(g[m], m);
      assert Cells(g) == a + b;
      assert a * b == {};
    }
  }

  function Image(s: set<(int, int)>, f: ((int, int)) -> (int, int)): set<(int, int)> {
    set c | c in s :: f(c)
  }

  lemma {:induction false} InjectiveImageCard(s: set<(int, int)>, f: ((int, int)) -> (int, int))
    requires forall x, y :: x in s && y in s && f(x) == f(y) ==> x == y
    ensures |Image(s, f)| == |s|
    decreases s
  {
    if s != {} {
      var x :| x in s;
      var rest := s - {x};
      InjectiveImageCard(rest, f);
      assert Image(s, f) == Image(rest, f) + {f(x)};
    }
  }

  /** A cell map with an inverse between two grids' occupied cells preserves their count. */
  lemma CountByBijection(g: Grid, h: Grid, f: ((int, int)) -> (int, int), b: ((int, int)) -> (int, int))
    requires forall c :: c in Cells(g) ==> f(c) in Cells(h) && b(f(c)) == c
    requires forall d :: d in Cells(h) ==> b(d) in Cells(g) && f(b(d)) == d
    ensures Count(h) == Count(g)
  {
    CountIsCells(g);
    CountIsCells(h);
    InjectiveImageCard(Cells(g), f);
    assert Image(Cells(g), f) == Cells(h);
  }

  lemma CellsMember(g: Grid, i: int, j: int)
    ensures (i, j) in Cells(g) <==> Occupied(g, i, j)
  {
  }

  lemma RotateRightMoves(g: Grid, i: int, j: int)
    requires IsSquare(g)
    ensures (i, j) in Cells(g) <==> (j, |g| - 1 - i) in Cells(RotateRight(g))
  {
    CellsMember(g, i, j);
    CellsMember(RotateRight(g), j, |g| - 1 - i);
  }

  lemma CountRotateRight(g: Grid)
    requires IsSquare(g)
    ensures Count(RotateRight(g)) == Count(g)
  {
    var n := |g|;
    var h := RotateRight(g);
    var f := (c: (int, int)) => (c.1, n - 1 - c.0);
    var b := (d: (int, int)) => (n - 1 - d.1, d.0);
    forall c | c in Cells(g) ensures f(c) in Cells(h) && b(f(c)) == c {
      RotateRightMoves(g, c.0, c.1);
    }
    forall d | d in Cells(h) ensures b(d) in Cells(g) && f(b(d)) == d {
      RotateRightMoves(g, n - 1 - d.1, d.0);
    }
    CountByBijection(g, h, f, b);
  }

  lemma CountRotateLeft(g: Grid)
    requires IsSquare(g)
    ensures Count(RotateLeft(g)) == Count(g)
  {
    RotateRightUndoesLeft(g);
    CountRotateRight(RotateLeft(g));
  }

  lemma CountFlipVert(g: Grid)
    requires IsSquare(g)
    ensures Count(FlipVert(g)) == Count(g)
  {
    var n := |g|;
    var h := FlipVert(g);
    var f := (c: (int, int)) => (n - 1 - c.0, c.1);
    forall c | c in Cells(g) ensures f(c) in Cells(h) && f(f(c)) == c {
      CellsMember(g, c.0, c.1);
      CellsMember(h, n - 1 - c.0, c.1);
    }
    forall d | d in Cells(h) ensures f(d) in Cells(g) && f(f(d)) == d {
      CellsMember(h, d.0, d.1);
      CellsMember(g, n - 1 - d.0, d.1);
    }
    CountByBijection(g, h, f, f);
  }

  lemma CountFlipHorz(g: Grid)
    requires IsSquare(g)
    ensures Count(FlipHorz(g)) == Count(g)
  {
    var n := |g|;
    var h := FlipHorz(g);
    var f := (c: (int, int)) => (c.0, n - 1 - c.1);
    forall c | c in Cells(g) ensures f(c) in Cells(h) && f(f(c)) == c {
      CellsMember(g, c.0, c.1);
      CellsMember(h, c.0, n - 1 - c.1);
    }
    forall d | d in Cells(h) ensures f(d) in Cells(g) && f(f(d)) == d {
      CellsMember(h, d.0, d.1);
      CellsMember(g, d.0, n - 1 - d.1);
    }
    CountByBijection(g, h, f, f);
  }


  // ---------------------------------------------------------------------------
  // Trimming (Tile.getSquaresRemoveEmpty)
  // ---------------------------------------------------------------------------

  /** Row i holds an occupied square. */
  ghost predicate RowOccupied(g: Grid, i: int) {
    exists j :: Occupied(g, i, j)
  }

  /** Column j holds an occupied square. */
  ghost predicate ColumnOccupied(g: Grid, j: int) {
    exists i :: Occupied(g, i, j)
  }

  /** Occupied squares of column `c` among rows 0..k-1. */
  function ColumnTrues(g: Grid, c: nat, k: nat): (r: nat)
    requires IsSquare(g) && c < |g| && k <= |g|
    ensures r <= k
  {
    if k == 0 then 0 else ColumnTrues(g, c, k - 1) + (if g[k - 1][c] then 1 else 0)
  }

  /** The largest column count among columns 0..k-1: the number of rows
      the trimmed copy keeps. */
  function MaxColumnTrues(g: Grid, k: nat): nat
    requires IsSquare(g) && k <= |g|
  {
    if k == 0 then 0 else Max(MaxColumnTrues(g, k - 1), ColumnTrues(g, k - 1, |g|))
  }

  /** The largest row count among rows 0..k-1: the number of columns the
      trimmed copy keeps. */
  function MaxRowTrues(g: Grid, k: nat): nat
    requires k <= |g|
  {
    if k == 0 then 0 else Max(MaxRowTrues(g, k - 1), RowTrues(g[k - 1]))
  }

  /** The first row from k on that holds an occupied square, or |g|. */
  function TopRowFrom(g: Grid, k: nat): nat
    decreases |g| - k
  {
    if k >= |g| then |g| else if RowTrues(g[k]) > 0 then k else TopRowFrom(g, k + 1)
  }

  /** The first column from k on that holds an occupied square, or |g|. */
  function LeftColumnFrom(g: Grid, k: nat): nat
    requires IsSquare(g)
    decreases |g| - k
  {
    if k >= |g| then |g| else if ColumnTrues(g, k, |g|) > 0 then k else LeftColumnFrom(g, k + 1)
  }

  function TopRow(g: Grid): nat { TopRowFrom(g, 0) }

  function LeftColumn(g: Grid): nat requires IsSquare(g) { LeftColumnFrom(g, 0) }

  lemma {:induction false} RowTruesPositive(row: seq<bool>)
    ensures RowTrues(row) > 0 <==> exists j :: 0 <= j < |row| && row[j]
  {
    if row != [] {
      RowTruesPositive(row[1..]);
      if RowTrues(row[1..]) > 0 {
        var j :| 0 <= j < |row[1..]| && row[1..][j];
        assert row[j + 1];
      }
      if exists j :: 0 <= j < |row| && row[j] {
        var j :| 0 <= j < |row| && row[j];
        if j > 0 { assert row[1..][j - 1]; }
      }
    }
  }

  lemma RowTruesOccupied(g: Grid, i: int)
    requires 0 <= i < |g|
    ensures RowTrues(g[i]) > 0 <==> RowOccupied(g, i)
  {
    RowTruesPositive(g[i]);
    if RowTrues(g[i]) > 0 {
      var j :| 0 <= j < |g[i]| && g[i][j];
      assert Occupied(g, i, j);
    }
  }

  lemma {:induction false} ColumnTruesPositive(g: Grid, c: nat, k: nat)
    requires IsSquare(g) && c < |g| && k <= |g|
    ensures ColumnTrues(g, c, k) > 0 <==> exists i :: 0 <= i < k && g[i][c]
  {
    if k > 0 {
      ColumnTruesPositive(g, c, k - 1);
    }
  }

  lemma ColumnTruesOccupied(g: Grid, c: nat)
    requires IsSquare(g) && c < |g|
    ensures ColumnTrues(g, c, |g|) > 0 <==> ColumnOccupied(g, c)
  {
    ColumnTruesPositive(g, c, |g|);
    if ColumnTrues(g, c, |g|) > 0 {
      var i :| 0 <= i < |g| && g[i][c];
      assert Occupied(g, i, c);
    }
  }

  lemma {:induction false} TopRowFromSpec(g: Grid, k: nat)
    requires k <= |g|
    ensures k <= TopRowFrom(g, k) <= |g|
    ensures TopRowFrom(g, k) < |g| ==> RowOccupied(g, TopRowFrom(g, k))
    ensures forall i :: k <= i < TopRowFrom(g, k) ==> !RowOccupied(g, i)
    decreases |g| - k
  {
    if k < |g| {
      RowTruesOccupied(g, k);
      if RowTrues(g[k]) == 0 {
        TopRowFromSpec(g, k + 1);
      }
    }
  }

  /** TopRow is the first occupied row: no square above it is occupied, and
      it is |g| exactly when no square is occupied at all. */
  lemma TopRowIsFirstOccupied(g: Grid)
    ensures TopRow(g) <= |g|
    ensures TopRow(g) < |g| ==> RowOccupied(g, TopRow(g))
    ensures forall i, j :: Occupied(g, i, j) ==> TopRow(g) <= i
  {
    TopRowFromSpec(g, 0);
    forall i, j | Occupied(g, i, j) ensures TopRow(g) <= i {
      assert RowOccupied(g, i);
    }
  }

  /** A row index at or above every occupied square, and itself occupied
      unless it is |g|, is the top row. */
  lemma TopRowUnique(g: Grid, r: int)
    requires 0 <= r <= |g|
    requires forall i, j :: Occupied(g, i, j) ==> r <= i
    requires r < |g| ==> RowOccupied(g, r)
    ensures r == TopRow(g)
  {
    TopRowIsFirstOccupied(g);
  }

  lemma {:induction false} LeftColumnFromSpec(g: Grid, k: nat)
    requires IsSquare(g) && k <= |g|
    ensures k <= LeftColumnFrom(g, k) <= |g|
    ensures LeftColumnFrom(g, k) < |g| ==> ColumnOccupied(g, LeftColumnFrom(g, k))
    ensures forall j :: k <= j < LeftColumnFrom(g, k) ==> !ColumnOccupied(g, j)
    decreases |g| - k
  {
    if k < |g| {
      ColumnTruesOccupied(g, k);
      if ColumnTrues(g, k, |g|) == 0 {
        LeftColumnFromSpec(g, k + 1);
      }
    }
  }

  /** LeftColumn is the first occupied column, or |g| when none is. */
  lemma LeftColumnIsFirstOccupied(g: Grid)
    requires IsSquare(g)
    ensures LeftColumn(g) <= |g|
    ensures LeftColumn(g) < |g| ==> ColumnOccupied(g, LeftColumn(g))
    ensures forall i, j :: Occupied(g, i, j) ==> LeftColumn(g) <= j
  {
    LeftColumnFromSpec(g, 0);
    forall i, j | Occupied(g, i, j) ensures LeftColumn(g) <= j {
      assert ColumnOccupied(g, j);
    }
  }

  /** A column index left of every occupied square, and itself occupied
      unless it is |g|, is the left column. */
  lemma LeftColumnUnique(g: Grid, c: int)
    requires IsSquare(g) && 0 <= c <= |g|
    requires forall i, j :: Occupied(g, i, j) ==> c <= j
    requires c < |g| ==> ColumnOccupied(g, c)
    ensures c == LeftColumn(g)
  {
    LeftColumnIsFirstOccupied(g);
  }

  lemma {:induction false} ColumnTruesBelowTop(g: Grid, c: nat, k: nat)
    requires IsSquare(g) && c < |g| && k <= |g|
    ensures TopRow(g) <= |g|
    ensures ColumnTrues(g, c, k) <= if k <= TopRow(g) then 0 else k - TopRow(g)
  {
    TopRowIsFirstOccupied(g);
    if k > 0 {
      ColumnTruesBelowTop(g, c, k - 1);
      if k - 1 < TopRow(g) {
        assert !Occupied(g, k - 1, c);
      }
    }
  }

  lemma {:induction false} MaxColumnTruesBelowTop(g: Grid, k: nat)
    requires IsSquare(g) && k <= |g|
    ensures TopRow(g) + MaxColumnTrues(g, k) <= |g|
  {
    TopRowIsFirstOccupied(g);
    if k > 0 {
      MaxColumnTruesBelowTop(g, k - 1);
      ColumnTruesBelowTop(g, k - 1, |g|);
    }
  }

  lemma {:induction false} RowTruesRightOfLeft(g: Grid, i: nat, k: nat)
    requires IsSquare(g) && i < |g| && k <= |g|
    ensures LeftColumn(g) <= |g|
    ensures RowTrues(g[i][..k]) <= if k <= LeftColumn(g) then 0 else k - LeftColumn(g)
  {
    LeftColumnIsFirstOccupied(g);
    if k > 0 {
      RowTruesRightOfLeft(g, i, k - 1);
      RowTruesSnoc(g[i], k - 1);
      if k - 1 < LeftColumn(g) {
        assert !Occupied(g, i, k - 1);
      }
    }
  }

  lemma {:induction false} MaxRowTruesRightOfLeft(g: Grid, k: nat)
    requires IsSquare(g) && k <= |g|
    ensures LeftColumn(g) + MaxRowTrues(g, k) <= |g|
  {
    LeftColumnIsFirstOccupied(g);
    if k > 0 {
      MaxRowTruesRightOfLeft(g, k - 1);
      RowTruesRightOfLeft(g, k - 1, |g|);
      assert g[k - 1][..|g|] == g[k - 1];
    }
  }

  /** The box the trimmed copy reads, anchored at the first occupied row and
      column, stays inside the square frame. */
  lemma TrimFits(g: Grid)
    requires IsSquare(g)
    ensures TopRow(g) + MaxColumnTrues(g, |g|) <= |g|
    ensures LeftColumn(g) + MaxRowTrues(g, |g|) <= |g|
  {
    MaxColumnTruesBelowTop(g, |g|);
    MaxRowTruesRightOfLeft(g, |g|);
  }

  /** The copy getSquaresRemoveEmpty builds: as many rows as the fullest
      column has squares, as many columns as the fullest row has squares,
      read from the first occupied row and column on. */
  function Trimmed(g: Grid): (r: Grid)
    requires IsSquare(g)
    ensures |r| == MaxColumnTrues(g, |g|)
    ensures forall i :: 0 <= i < |r| ==> |r[i]| == MaxRowTrues(g, |g|)
  {
    TrimFits(g);
    var rows, cols, top, left := MaxColumnTrues(g, |g|), MaxRowTrues(g, |g|), TopRow(g), LeftColumn(g);
    seq(rows, i requires 0 <= i < rows => seq(cols, j requires 0 <= j < cols => g[top + i][left + j]))
  }

  lemma CountZero(g: Grid)
    ensures Count(g) == 0 <==> forall i, j :: !Occupied(g, i, j)
  {
    CountIsCells(g);
    if Count(g) == 0 {
      forall i, j ensures !Occupied(g, i, j) {
        CellsMember(g, i, j);
      }
    } else {
      var c :| c in Cells(g);
      CellsMember(g, c.0, c.1);
    }
  }

  lemma {:induction false} MaxColumnTruesZero(g: Grid, k: nat)
    requires IsSquare(g) && k <= |g|
    ensures MaxColumnTrues(g, k) == 0 <==> forall j :: 0 <= j < k ==> !ColumnOccupied(g, j)
  {
    if k > 0 {
      MaxColumnTruesZero(g, k - 1);
      ColumnTruesOccupied(g, k - 1);
    }
  }

  lemma {:induction false} MaxRowTruesZero(g: Grid, k: nat)
    requires k <= |g|
    ensures MaxRowTrues(g, k) == 0 <==> forall i :: 0 <= i < k ==> !RowOccupied(g, i)
  {
    if k > 0 {
      MaxRowTruesZero(g, k - 1);
      RowTruesOccupied(g, k - 1);
    }
  }

  /** The trimmed copy is 0×0 exactly when no square is occupied; otherwise
      it has at least one row and one column. */
  lemma TrimmedEmptyIff(g: Grid)
    requires IsSquare(g)
    ensures |Trimmed(g)| == 0 <==> Count(g) == 0
    ensures MaxRowTrues(g, |g|) == 0 <==> Count(g) == 0
  {
    CountZero(g);
    MaxColumnTruesZero(g, |g|);
    MaxRowTruesZero(g, |g|);
    if Count(g) != 0 {
      var i, j :| Occupied(g, i, j);
      assert ColumnOccupied(g, j) && RowOccupied(g, i);
    }
  }

  // ---------------------------------------------------------------------------
  // The trim is not a bounding box: the "W" piece, and the intended trim
  // ---------------------------------------------------------------------------

  /** The "W" piece of the catalog. */
  const WGrid: Grid := [[true, false, false], [true, true, false], [false, true, true]]

  /** Trimming "W" keeps a 2×2 corner of a shape that spans 3×3, so two of its
      five squares are lost. */
  lemma TrimmedLosesSquaresOfW()
    ensures Trimmed(WGrid) == [[true, false], [true, true]]
    ensures Count(WGrid) == 5 && Count(Trimmed(WGrid)) == 3
  {
    assert RowTrues(WGrid[0]) == 1 && RowTrues(WGrid[1]) == 2 && RowTrues(WGrid[2]) == 2;
    assert ColumnTrues(WGrid, 0, 3) == 2 && ColumnTrues(WGrid, 1, 3) == 2 && ColumnTrues(WGrid, 2, 3) == 1;
    assert TopRow(WGrid) == 0 && LeftColumn(WGrid) == 0;
    assert MaxColumnTrues(WGrid, 3) == 2 && MaxRowTrues(WGrid, 3) == 2;
    var t := Trimmed(WGrid);
    assert |t| == 2 && |t[0]| == 2 && |t[1]| == 2;
    assert t[0] == [true, false] && t[1] == [true, true];
    assert t == [[true, false], [true, true]];
    assert Count([[true, false], [true, true]]) == 3;
  }

  /** The "Z4" piece of the catalog. */
  const Z4Grid: Grid := [[false, false, false], [true, true, false], [false, true, true]]

  /** Trimming "Z4" keeps a 2×2 window of a shape that spans 2×3, so one of
      its four squares is lost. */
  lemma TrimmedLosesSquaresOfZ4()
    ensures Trimmed(Z4Grid) == [[true, true], [false, true]]
    ensures Count(Z4Grid) == 4 && Count(Trimmed(Z4Grid)) == 3
  {
    var g := Z4Grid;
    assert RowTrues(g[0]) == 0 && RowTrues(g[1]) == 2 && RowTrues(g[2]) == 2;
    assert ColumnTrues(g, 0, 3) == 1 && ColumnTrues(g, 1, 3) == 2 && ColumnTrues(g, 2, 3) == 1;
    assert Occupied(g, 1, 0);
    TopRowUnique(g, 1);
    LeftColumnUnique(g, 0);
    assert MaxColumnTrues(g, 3) == 2 && MaxRowTrues(g, 3) == 2;
    var t := Trimmed(g);
    assert t[0] == [true, true] && t[1] == [false, true];
    assert Count([[true, true], [false, true]]) == 3;
  }

  /** One past the last row below k that holds an occupied square, or 0. */
  function RowEnd(g: Grid, k: nat): nat
    requires k <= |g|
  {
    if k == 0 then 0 else if RowTrues(g[k - 1]) > 0 then k else RowEnd(g, k - 1)
  }

  /** One past the last column below k that holds an occupied square, or 0. */
  function ColumnEnd(g: Grid, k: nat): nat
    requires IsSquare(g) && k <= |g|
  {
    if k == 0 then 0 else if ColumnTrues(g, k - 1, |g|) > 0 then k else ColumnEnd(g, k - 1)
  }

  lemma {:induction false} RowEndSpec(g: Grid, k: nat)
    requires k <= |g|
    ensures RowEnd(g, k) <= k
    ensures RowEnd(g, k) > 0 ==> RowOccupied(g, RowEnd(g, k) - 1)
    ensures forall i :: RowEnd(g, k) <= i < k ==> !RowOccupied(g, i)
  {
    if k > 0 {
      RowTruesOccupied(g, k - 1);
      if RowTrues(g[k - 1]) == 0 {
        RowEndSpec(g, k - 1);
      }
    }
  }

  lemma {:induction false} ColumnEndSpec(g: Grid, k: nat)
    requires IsSquare(g) && k <= |g|
    ensures ColumnEnd(g, k) <= k
    ensures ColumnEnd(g, k) > 0 ==> ColumnOccupied(g, ColumnEnd(g, k) - 1)
    ensures forall j :: ColumnEnd(g, k) <= j < k ==> !ColumnOccupied(g, j)
  {
    if k > 0 {
      ColumnTruesOccupied(g, k - 1);
      if ColumnTrues(g, k - 1, |g|) == 0 {
        ColumnEndSpec(g, k - 1);
      }
    }
  }

  function BoxHeight(g: Grid): nat {
    if RowEnd(g, |g|) <= TopRow(g) then 0 else RowEnd(g, |g|) - TopRow(g)
  }

  function BoxWidth(g: Grid): nat requires IsSquare(g) {
    if ColumnEnd(g, |g|) <= LeftColumn(g) then 0 else ColumnEnd(g, |g|) - LeftColumn(g)
  }

  /** Every occupied square lies inside the box from (TopRow, LeftColumn)
      of BoxHeight rows and BoxWidth columns, and the box fits the frame. */
  lemma BoxHoldsOccupied(g: Grid)
    requires IsSquare(g)
    ensures TopRow(g) + BoxHeight(g) <= |g| && LeftColumn(g) + BoxWidth(g) <= |g|
    ensures forall i, j :: Occupied(g, i, j) ==>
      TopRow(g) <= i < TopRow(g) + BoxHeight(g) && LeftColumn(g) <= j < LeftColumn(g) + BoxWidth(g)
  {
    TopRowIsFirstOccupied(g);
    LeftColumnIsFirstOccupied(g);
    RowEndSpec(g, |g|);
    ColumnEndSpec(g, |g|);
    forall i, j | Occupied(g, i, j)
      ensures TopRow(g) <= i < TopRow(g) + BoxHeight(g) && LeftColumn(g) <= j < LeftColumn(g) + BoxWidth(g)
    {
      assert RowOccupied(g, i) && ColumnOccupied(g, j);
    }
  }

  /** The intended trim: the rows from the first to the last occupied one and
      the columns from the first to the last occupied one. */
  function BoundingBox(g: Grid): (r: Grid)
    requires IsSquare(g)
    ensures |r| == BoxHeight(g) && forall i :: 0 <= i < |r| ==> |r[i]| == BoxWidth(g)
  {
    BoxHoldsOccupied(g);
    var top, left, rows, cols := TopRow(g), LeftColumn(g), BoxHeight(g), BoxWidth(g);
    seq(rows, i requires 0 <= i < rows => seq(cols, j requires 0 <= j < cols => g[top + i][left + j]))
  }

  /** The bounding box keeps every occupied square. */
  lemma BoundingBoxKeepsSquares(g: Grid)
    requires IsSquare(g)
    ensures Count(BoundingBox(g)) == Count(g)
  {
    var top, left := TopRow(g), LeftColumn(g);
    var b := BoundingBox(g);
    BoxHoldsOccupied(g);
    var f := (c: (int, int)) => (c.0 - top, c.1 - left);
    var back := (d: (int, int)) => (d.0 + top, d.1 + left);
    forall c | c in Cells(g) ensures f(c) in Cells(b) && back(f(c)) == c {
      CellsMember(g, c.0, c.1);
      assert b[c.0 - top][c.1 - left] == g[c.0][c.1];
      CellsMember(b, c.0 - top, c.1 - left);
    }
    forall d | d in Cells(b) ensures back(d) in Cells(g) && f(back(d)) == d {
      CellsMember(b, d.0, d.1);
      CellsMember(g, d.0 + top, d.1 + left);
    }
    CountByBijection(g, b, f, back);
  }

  /** No row or column of the bounding box can be dropped: its first and last
      rows and its first and last columns each hold an occupied square. */
  lemma BoundingBoxIsTight(g: Grid)
    requires IsSquare(g)
    ensures var b := BoundingBox(g); |b| > 0 ==>
      RowOccupied(b, 0) && RowOccupied(b, |b| - 1) &&
      ColumnOccupied(b, 0) && ColumnOccupied(b, |b[0]| - 1)
  {
    var n, top, left := |g|, TopRow(g), LeftColumn(g);
    TopRowIsFirstOccupied(g);
    LeftColumnIsFirstOccupied(g);
    RowEndSpec(g, n);
    ColumnEndSpec(g, n);
    BoxHoldsOccupied(g);
    var b := BoundingBox(g);
    var rows, cols := BoxHeight(g), BoxWidth(g);
    if rows > 0 {
      var j0 :| Occupied(g, top, j0);
      assert Occupied(b, 0, j0 - left);
      var j1 :| Occupied(g, top + rows - 1, j1);
      assert Occupied(b, rows - 1, j1 - left);
      var i0 :| Occupied(g, i0, left);
      assert Occupied(b, i0 - top, 0);
      var i1 :| Occupied(g, i1, left + cols - 1);
      assert Occupied(b, i1 - top, cols - 1);
    }
  }

  /** The bounding box of "W" is its whole 3×3 frame. */
  lemma BoundingBoxOfW()
    ensures BoundingBox(WGrid) == WGrid
  {
    assert RowTrues(WGrid[0]) == 1 && RowTrues(WGrid[1]) == 2 && RowTrues(WGrid[2]) == 2;
    assert ColumnTrues(WGrid, 0, 3) == 2 && ColumnTrues(WGrid, 1, 3) == 2 && ColumnTrues(WGrid, 2, 3) == 1;
    assert TopRow(WGrid) == 0 && LeftColumn(WGrid) == 0;
    assert RowEnd(WGrid, 3) == 3 && ColumnEnd(WGrid, 3) == 3;
    var b := BoundingBox(WGrid);
    assert |b| == 3;
    assert b[0] == WGrid[0] && b[1] == WGrid[1] && b[2] == WGrid[2];
  }

  // ---------------------------------------------------------------------------
  // Footprint on the board (Tile.placeTile)
  // ---------------------------------------------------------------------------

  /** Board cell (x, y) lies under an occupied square of grid g whose
      top-left corner is at board cell (r, c). */
  predicate Covers(g: Grid, r: int, c: int, x: int, y: int) {
    Occupied(g, x - r, y - c)
  }

  /** The board cells covered with the tile's corner at (r, c). */
  function Footprint(g: Grid, r: int, c: int): set<(int, int)> {
    Image(Cells(g), (cell: (int, int)) => (cell.0 + r, cell.1 + c))
  }

  /** A placement covers exactly as many board cells as the grid has
      occupied squares. */
  lemma FootprintSize(g: Grid, r: int, c: int)
    ensures |Footprint(g, r, c)| == Count(g)
  {
    InjectiveImageCard(Cells(g), (cell: (int, int)) => (cell.0 + r, cell.1 + c));
    CountIsCells(g);
  }

  /** The cells of a placement are the ones Covers names. */
  lemma FootprintCovers(g: Grid, r: int, c: int, x: int, y: int)
    ensures (x, y) in Footprint(g, r, c) <==> Covers(g, r, c, x, y)
  {
    CellsMember(g, x - r, y - c);
    if (x, y) in Footprint(g, r, c) {
      var cell :| cell in Cells(g) && (cell.0 + r, cell.1 + c) == (x, y);
      assert cell == (x - r, y - c);
    }
  }
}
