/** A Blokus tile: a point value and a square frame size that never change,
    a `used` flag, and a `size×size` array of squares that the rotations
    replace and the flips rewrite in place. */
module Tiles {
  import opened Grids

  /** The contents of a two-dimensional array, row by row. */
  ghost function GridOf(a: array2<bool>): (g: Grid)
    reads a
    ensures |g| == a.Length0 && forall i :: 0 <= i < |g| ==> |g[i]| == a.Length1
    ensures forall i, j :: 0 <= i < a.Length0 && 0 <= j < a.Length1 ==> g[i][j] == a[i, j]
  {
    seq(a.Length0, i requires 0 <= i < a.Length0 reads a =>
      seq(a.Length1, j requires 0 <= j < a.Length1 reads a => a[i, j]))
  }

  /** g lists the contents of a, row by row: the pointwise form of
      `GridOf(a) == g`, which is cheaper for the verifier in a requires. */
  ghost predicate Holds(a: array2<bool>, g: Grid)
    reads a
  {
    |g| == a.Length0 && (forall i :: 0 <= i < |g| ==> |g[i]| == a.Length1) &&
    forall i, j :: 0 <= i < a.Length0 && 0 <= j < a.Length1 ==> g[i][j] == a[i, j]
  }

  lemma GridOfIs(a: array2<bool>, g: Grid)
    requires |g| == a.Length0 && forall i :: 0 <= i < |g| ==> |g[i]| == a.Length1
    requires forall i, j :: 0 <= i < a.Length0 && 0 <= j < a.Length1 ==> g[i][j] == a[i, j]
    ensures GridOf(a) == g
  {
    var h := GridOf(a);
    forall i | 0 <= i < |g| ensures h[i] == g[i] {
      assert forall j :: 0 <= j < a.Length1 ==> h[i][j] == g[i][j];
    }
  }

  /** The two ways of saying that a holds g agree. */
  lemma HoldsIffGridOf(a: array2<bool>, g: Grid)
    ensures Holds(a, g) <==> GridOf(a) == g
  {
    if Holds(a, g) {
      GridOfIs(a, g);
    }
  }

  function Min(a: int, b: int): int {
    if a < b then a else b
  }

  class Tile {
    const points: int
    const size: int
    var used: bool
    var squares: array2<bool>

    /** The squares form a `size×size` frame, as every operation assumes. */
    ghost predicate Valid()
      reads this
    {
      squares.Length0 == size && squares.Length1 == size
    }

    /** The occupancy grid as a value. */
    ghost function Occupancy(): Grid
      reads this, squares
    {
      GridOf(squares)
    }

    /** The tile keeps the array it is given; `used` starts false. */
    constructor (points: int, size: int, squares: array2<bool>)
      ensures this.points == points && this.size == size
      ensures this.squares == squares && !used
    {
      this.points := points;
      this.size := size;
      this.squares := squares;
      used := false;
    }

    method GetUsed() returns (u: bool)
      ensures u == used
    {
      u := used;
    }

    method GetPoints() returns (p: int)
      ensures p == points
    {
      p := points;
    }

    method GetSize() returns (s: int)
      ensures s == size
    {
      s := size;
    }

    /** Hands out the tile's own array, not a copy. */
    method GetSquares() returns (a: array2<bool>)
      ensures a == squares
    {
      a := squares;
    }

    /** A new `size×size` array with the same squares. */
    method GetSquaresCopy() returns (copy: array2<bool>)
      requires Valid()
      ensures fresh(copy) && copy.Length0 == size && copy.Length1 == size
      ensures GridOf(copy) == Occupancy()
    {
      var n := size;
      copy := new bool[n, n];
      var i := 0;
      while i < n
        invariant 0 <= i <= n
        invariant forall a, b :: 0 <= a < i && 0 <= b < n ==> copy[a, b] == squares[a, b]
      {
        // one row, as System.arraycopy does
        forall j | 0 <= j < n {
          copy[i, j] := squares[i, j];
        }
        i := i + 1;
      }
      GridOfIs(copy, Occupancy());
    }

    /** A copy cut down to `MaxColumnTrues` rows and `MaxRowTrues` columns,
        read from the first occupied row and the first occupied column. */
    method GetSquaresRemoveEmpty() returns (newSquares: array2<bool>)
      requires Valid()
      ensures fresh(newSquares)
      ensures newSquares.Length0 == MaxColumnTrues(Occupancy(), size)
      ensures newSquares.Length1 == MaxRowTrues(Occupancy(), size)
      ensures GridOf(newSquares) == Trimmed(Occupancy())
    {
      ghost var g := Occupancy();
      var sq := squares;
      var maxRow, maxCol, rowIdx, colIdx := Scan(sq, g);
      newSquares := CopyWindow(sq, rowIdx, colIdx, maxRow, maxCol);
      ghost var t := Trimmed(g);
      forall a, b | 0 <= a < maxRow && 0 <= b < maxCol
        ensures t[a][b] == newSquares[a, b]
      {
        assert t[a][b] == g[rowIdx + a][colIdx + b];
      }
      GridOfIs(newSquares, t);
    }

    /** Rebinds the squares; the source asks for an array of the same size. */
    method SetSquares(newSquares: array2<bool>)
      modifies this`squares
      ensures squares == newSquares
    {
      squares := newSquares;
    }

    method SetUsed(used: bool)
      modifies this`used
      ensures this.used == used
    {
      this.used := used;
    }

    /** Turns the shape clockwise inside its frame, into a new array. */
    method RotateRight()
      requires Valid()
      modifies this`squares
      ensures Valid() && fresh(squares)
      ensures Occupancy() == Grids.RotateRight(old(Occupancy()))
    {
      ghost var g := Occupancy();
      var sq, n := squares, size;
      var newSquares := new bool[n, n];
      var i := 0;
      while i < n
        invariant 0 <= i <= n
        invariant forall a, b :: 0 <= a < i && 0 <= b < n ==> newSquares[a, b] == g[n - b - 1][a]
      {
        var j := 0;
        while j < n
          invariant 0 <= j <= n
          invariant forall a, b :: 0 <= a < i && 0 <= b < n ==> newSquares[a, b] == g[n - b - 1][a]
          invariant forall b :: 0 <= b < j ==> newSquares[i, b] == g[n - b - 1][i]
        {
          newSquares[i, j] := sq[n - j - 1, i];
          j := j + 1;
        }
        i := i + 1;
      }
      SetSquares(newSquares);
      GridOfIs(squares, Grids.RotateRight(g));
    }

    /** Turns the shape counter-clockwise inside its frame, into a new array. */
    method RotateLeft()
      requires Valid()
      modifies this`squares
      ensures Valid() && fresh(squares)
      ensures Occupancy() == Grids.RotateLeft(old(Occupancy()))
    {
      ghost var g := Occupancy();
      var sq, n := squares, size;
      var newSquares := new bool[n, n];
      var i := 0;
      while i < n
        invariant 0 <= i <= n
        invariant forall a, b :: 0 <= a < i && 0 <= b < n ==> newSquares[a, b] == g[b][n - a - 1]
      {
        var j := 0;
        while j < n
          invariant 0 <= j <= n
          invariant forall a, b :: 0 <= a < i && 0 <= b < n ==> newSquares[a, b] == g[b][n - a - 1]
          invariant forall b :: 0 <= b < j ==> newSquares[i, b] == g[b][n - i - 1]
        {
          newSquares[i, j] := sq[j, n - i - 1];
          j := j + 1;
        }
        i := i + 1;
      }
      SetSquares(newSquares);
      GridOfIs(squares, Grids.RotateLeft(g));
    }

    /** Reverses every column in place with three exclusive-or steps per
        pair of squares; the pair is never one square, since j < size/2. */
    method FlipVert()
      requires Valid()
      modifies squares
      ensures Valid()
      ensures Occupancy() == Grids.FlipVert(old(Occupancy()))
    {
      ghost var g := Occupancy();
      var flippedSquares := squares;
      var n := size;
      var i := 0;
      while i < n
        invariant 0 <= i <= n
        invariant forall a, b :: 0 <= a < n && 0 <= b < i ==> flippedSquares[a, b] == g[n - a - 1][b]
        invariant forall a, b :: 0 <= a < n && i <= b < n ==> flippedSquares[a, b] == g[a][b]
      {
        ReverseColumn(flippedSquares, i);
        i := i + 1;
      }
      GridOfIs(squares, Grids.FlipVert(g));
    }

    /** Reverses every row in place with three exclusive-or steps per pair
        of squares. */
    method FlipHorz()
      requires Valid()
      modifies squares
      ensures Valid()
      ensures Occupancy() == Grids.FlipHorz(old(Occupancy()))
    {
      ghost var g := Occupancy();
      var flippedSquares := squares;
      var n := size;
      var i := 0;
      while i < n
        invariant 0 <= i <= n
        invariant forall a, b :: 0 <= a < i && 0 <= b < n ==> flippedSquares[a, b] == g[a][n - b - 1]
        invariant forall a, b :: i <= a < n && 0 <= b < n ==> flippedSquares[a, b] == g[a][b]
      {
        ReverseRow(flippedSquares, i);
        i := i + 1;
      }
      GridOfIs(squares, Grids.FlipHorz(g));
    }

    /** Writes `currentPlayer` on the board cells under occupied squares when
        the frame's top-left corner is at (r, c); every other cell keeps its
        value. The caller guarantees those cells are on the board; overlap is
        not checked. */
    method PlaceTile(r: int, c: int, currentPlayer: char, board: array2<char>)
      requires Valid()
      requires forall a, b :: 0 <= a < size && 0 <= b < size && squares[a, b] ==>
        0 <= r + a < board.Length0 && 0 <= c + b < board.Length1
      modifies board
      ensures forall x, y :: 0 <= x < board.Length0 && 0 <= y < board.Length1 ==>
        board[x, y] == if Covers(Occupancy(), r, c, x, y) then currentPlayer else old(board[x, y])
    {
      ghost var g := Occupancy();
      var i := r;
      while i < r + size
        invariant r <= i <= r + size
        invariant forall x, y :: 0 <= x < board.Length0 && 0 <= y < board.Length1 ==>
          board[x, y] == if x < i && Covers(g, r, c, x, y) then currentPlayer else old(board[x, y])
      {
        var j := c;
        while j < c + size
          invariant c <= j <= c + size
          invariant forall x, y :: 0 <= x < board.Length0 && 0 <= y < board.Length1 ==>
            board[x, y] == if (x < i || (x == i && y < j)) && Covers(g, r, c, x, y)
                           then currentPlayer else old(board[x, y])
        {
          // the square at (i - r, j - c) is not empty
          if squares[i - r, j - c] {
            board[i, j] := currentPlayer;
          }
          j := j + 1;
        }
        i := i + 1;
      }
    }
  }

  /** The three exclusive-or assignments `x ^= y; y ^= x; x ^= y` of the
      flips: for two distinct cells they exchange the values and touch
      nothing else. */
  method XorSwap(a: array2<bool>, i0: nat, j0: nat, i1: nat, j1: nat)
    requires i0 < a.Length0 && j0 < a.Length1 && i1 < a.Length0 && j1 < a.Length1
    requires (i0, j0) != (i1, j1)
    modifies a
    ensures a[i0, j0] == old(a[i1, j1]) && a[i1, j1] == old(a[i0, j0])
    ensures forall x, y :: 0 <= x < a.Length0 && 0 <= y < a.Length1 && (x, y) != (i0, j0) && (x, y) != (i1, j1) ==>
      a[x, y] == old(a[x, y])
  {
    a[i0, j0] := a[i0, j0] != a[i1, j1];
    a[i1, j1] := a[i1, j1] != a[i0, j0];
    a[i0, j0] := a[i0, j0] != a[i1, j1];
  }

  /** No occupied square of columns 0..k-1 lies above row r. */
  ghost predicate AboveAll(g: Grid, r: int, k: int) {
    forall a, b :: 0 <= b < k && Occupied(g, a, b) ==> r <= a
  }

  /** No occupied square of rows 0..k-1 lies left of column c. */
  ghost predicate LeftOfAll(g: Grid, c: int, k: int) {
    forall a, b :: 0 <= a < k && Occupied(g, a, b) ==> c <= b
  }

  /** One pass of the scan extends both bounds by line i. */
  lemma ScanStep(g: Grid, i: int, r0: int, r: int, c0: int, c: int)
    requires AboveAll(g, r0, i) && r <= r0 && forall a :: Occupied(g, a, i) ==> r <= a
    requires LeftOfAll(g, c0, i) && c <= c0 && forall b :: Occupied(g, i, b) ==> c <= b
    ensures AboveAll(g, r, i + 1) && LeftOfAll(g, c, i + 1)
  {
  }

  /** Once the scan is over, the smallest row and column met are the first
      occupied ones, and the trimmed window fits in the frame. */
  lemma ScanFindsWindow(g: Grid, rowIdx: nat, colIdx: nat, rowWit: int, colWit: int)
    requires IsSquare(g) && rowIdx <= |g| && colIdx <= |g|
    requires AboveAll(g, rowIdx, |g|) && LeftOfAll(g, colIdx, |g|)
    requires rowIdx < |g| ==> Occupied(g, rowIdx, rowWit)
    requires colIdx < |g| ==> Occupied(g, colWit, colIdx)
    ensures rowIdx == TopRow(g) && colIdx == LeftColumn(g)
    ensures rowIdx + MaxColumnTrues(g, |g|) <= |g| && colIdx + MaxRowTrues(g, |g|) <= |g|
  {
    TopRowUnique(g, rowIdx);
    LeftColumnUnique(g, colIdx);
    TrimFits(g);
  }

  /** The scanning half of the trimming: the largest column and row counts
      and the first occupied row and column, each |g| when there is none. */
  method Scan(sq: array2<bool>, ghost g: Grid)
    returns (maxRow: nat, maxCol: nat, rowIdx: nat, colIdx: nat)
    requires sq.Length0 == sq.Length1 && g == GridOf(sq)
    ensures maxRow == MaxColumnTrues(g, |g|) && maxCol == MaxRowTrues(g, |g|)
    ensures rowIdx == TopRow(g) && colIdx == LeftColumn(g)
    ensures rowIdx + maxRow <= |g| && colIdx + maxCol <= |g|
  {
    var n := sq.Length0;
    assert Holds(sq, g);
    assert IsSquare(g) && |g| == n;
    var rowCount, colCount := 0, 0;
    maxRow, maxCol, rowIdx, colIdx := 0, 0, n, n;
    // an occupied square in row rowIdx and one in column colIdx, once found
    ghost var rowWit, colWit := 0, 0;

    var i := 0;
    while i < n
      invariant 0 <= i <= n
      invariant rowCount == 0 && colCount == 0
      invariant maxRow == MaxColumnTrues(g, i) && maxCol == MaxRowTrues(g, i)
      invariant 0 <= rowIdx <= n && 0 <= colIdx <= n
      invariant AboveAll(g, rowIdx, i) && LeftOfAll(g, colIdx, i)
      invariant rowIdx < n ==> Occupied(g, rowIdx, rowWit)
      invariant colIdx < n ==> Occupied(g, colWit, colIdx)
    {
      ghost var rowIdx0, colIdx0 := rowIdx, colIdx;
      rowCount, colCount, rowIdx, colIdx := ScanLine(sq, g, i, rowIdx, colIdx);
      ScanStep(g, i, rowIdx0, rowIdx, colIdx0, colIdx);
      if rowIdx < rowIdx0 { rowWit := i; }
      if colIdx < colIdx0 { colWit := i; }
      assert MaxColumnTrues(g, i + 1) == Max(MaxColumnTrues(g, i), ColumnTrues(g, i, n));
      assert MaxRowTrues(g, i + 1) == Max(MaxRowTrues(g, i), RowTrues(g[i]));
      maxRow := Max(maxRow, rowCount);
      rowCount := 0;
      maxCol := Max(maxCol, colCount);
      colCount := 0;
      i := i + 1;
    }
    ScanFindsWindow(g, rowIdx, colIdx, rowWit, colWit);
  }

  /** The inner pass of the trimming scan over line i: column i is walked
      top to bottom and row i left to right; each count is the number of
      squares seen and each index falls to the first square seen. */
  method ScanLine(sq: array2<bool>, ghost g: Grid, i: nat, rowIdx0: nat, colIdx0: nat)
    returns (rowCount: nat, colCount: nat, rowIdx: nat, colIdx: nat)
    requires sq.Length0 == sq.Length1 && i < sq.Length0 && Holds(sq, g)
    requires rowIdx0 <= sq.Length0 && colIdx0 <= sq.Length0
    ensures rowCount == ColumnTrues(g, i, |g|)
    ensures colCount == RowTrues(g[i])
    ensures rowIdx <= rowIdx0 && (rowIdx == rowIdx0 || Occupied(g, rowIdx, i))
    ensures forall a :: Occupied(g, a, i) ==> rowIdx <= a
    ensures colIdx <= colIdx0 && (colIdx == colIdx0 || Occupied(g, i, colIdx))
    ensures forall b :: Occupied(g, i, b) ==> colIdx <= b
  {
    var n := sq.Length0;
    assert IsSquare(g) && |g| == n && |g[i]| == n;
    rowCount, colCount, rowIdx, colIdx := 0, 0, rowIdx0, colIdx0;
    var j := 0;
    while j < n
      invariant 0 <= j <= n
      invariant rowCount == ColumnTrues(g, i, j) && colCount == RowTrues(g[i][..j])
      invariant rowIdx <= rowIdx0 && (rowIdx == rowIdx0 || Occupied(g, rowIdx, i))
      invariant forall a :: 0 <= a < j && Occupied(g, a, i) ==> rowIdx <= a
      invariant colIdx <= colIdx0 && (colIdx == colIdx0 || Occupied(g, i, colIdx))
      invariant forall b :: 0 <= b < j && Occupied(g, i, b) ==> colIdx <= b
    {
      RowTruesSnoc(g[i], j);
      assert ColumnTrues(g, i, j + 1) == ColumnTrues(g, i, j) + (if g[j][i] then 1 else 0);
      assert sq[j, i] == g[j][i] && sq[i, j] == g[i][j];
      // a square in row j of column i
      if sq[j, i] {
        rowIdx := Min(rowIdx, j);
        rowCount := rowCount + 1;
      }
      // a square in column j of row i
      if sq[i, j] {
        colIdx := Min(colIdx, j);
        colCount := colCount + 1;
      }
      j := j + 1;
    }
    assert g[i][..n] == g[i];
  }

  /** A fresh rows-by-cols array holding the window of sq whose top left
      corner is (top, left). */
  method CopyWindow(sq: array2<bool>, top: nat, left: nat, rows: nat, cols: nat)
    returns (w: array2<bool>)
    requires top + rows <= sq.Length0 && left + cols <= sq.Length1
    ensures fresh(w) && w.Length0 == rows && w.Length1 == cols
    ensures forall a, b :: 0 <= a < rows && 0 <= b < cols ==> w[a, b] == sq[top + a, left + b]
  {
    w := new bool[rows, cols];
    var i := top;
    while i < top + rows
      invariant top <= i <= top + rows
      invariant forall a, b :: 0 <= a < i - top && 0 <= b < cols ==> w[a, b] == sq[top + a, left + b]
    {
      var j := left;
      var row := i - top;
      while j < left + cols
        invariant left <= j <= left + cols
        invariant forall a, b :: 0 <= a < row && 0 <= b < cols ==> w[a, b] == sq[top + a, left + b]
        invariant forall b :: 0 <= b < j - left ==> w[row, b] == sq[i, left + b]
      {
        w[row, j - left] := sq[i, j];
        j := j + 1;
      }
      i := i + 1;
    }
  }

  /** The inner loop of flipVert: column i of a square array swaps its top
      and bottom halves pair by pair; the other columns keep their squares. */
  method ReverseColumn(sq: array2<bool>, i: nat)
    requires sq.Length0 == sq.Length1 && i < sq.Length1
    modifies sq
    ensures forall a, b :: 0 <= a < sq.Length0 && 0 <= b < sq.Length1 ==>
      sq[a, b] == if b == i then old(sq[sq.Length0 - a - 1, b]) else old(sq[a, b])
  {
    var n := sq.Length0;
    var j := 0;
    while j < n / 2
      invariant 0 <= j <= n / 2
      invariant forall a, b :: 0 <= a < n && 0 <= b < n && b != i ==> sq[a, b] == old(sq[a, b])
      invariant forall a :: 0 <= a < j ==>
        sq[a, i] == old(sq[n - a - 1, i]) && sq[n - a - 1, i] == old(sq[a, i])
      invariant forall a :: j <= a < n - j ==> sq[a, i] == old(sq[a, i])
    {
      XorSwap(sq, j, i, n - j - 1, i);
      j := j + 1;
    }
  }

  /** The inner loop of flipHorz: row i of a square array swaps its left and
      right halves pair by pair; the other rows keep their squares. */
  method ReverseRow(sq: array2<bool>, i: nat)
    requires sq.Length0 == sq.Length1 && i < sq.Length0
    modifies sq
    ensures forall a, b :: 0 <= a < sq.Length0 && 0 <= b < sq.Length1 ==>
      sq[a, b] == if a == i then old(sq[a, sq.Length1 - b - 1]) else old(sq[a, b])
  {
    var n := sq.Length1;
    var j := 0;
    while j < n / 2
      invariant 0 <= j <= n / 2
      invariant forall a, b :: 0 <= a < n && 0 <= b < n && a != i ==> sq[a, b] == old(sq[a, b])
      invariant forall b :: 0 <= b < j ==>
        sq[i, b] == old(sq[i, n - b - 1]) && sq[i, n - b - 1] == old(sq[i, b])
      invariant forall b :: j <= b < n - j ==> sq[i, b] == old(sq[i, b])
    {
      XorSwap(sq, i, j, i, n - j - 1);
      j := j + 1;
    }
  }

  /** After copying and aliasing a tile's squares, an in-place flip changes
      the array `GetSquares` handed out but not the `GetSquaresCopy` copy. */
  method FlipSparesCopy(t: Tile) returns (copy: array2<bool>, alias: array2<bool>)
    requires t.Valid()
    modifies t.squares
    ensures GridOf(copy) == old(t.Occupancy())
    ensures alias == t.squares && GridOf(alias) == Grids.FlipVert(old(t.Occupancy()))
  {
    copy := t.GetSquaresCopy();
    alias := t.GetSquares();
    t.FlipVert();
  }

  // ---------------------------------------------------------------------------
  // The tile set (Tile.newTileSet)
  // ---------------------------------------------------------------------------

  datatype Option<T> = None | Some(value: T)

  /** A tile as a value: its points, its frame size and its squares. */
  datatype Shape = Shape(points: int, size: int, squares: Grid)

  /** The frame is `size×size` and the points are the number of squares. */
  predicate IsShape(s: Shape) {
    |s.squares| == s.size && IsSquare(s.squares) && s.points == Count(s.squares)
  }

  /** The 21 pieces of a Blokus set. */
  datatype PieceName = I1 | I2 | V3 | I3 | O | T4 | L4 | Z4 | I4 | F | X | P | W | Z5 | U | T5 | V5 | Y | L5 | N | I5

  /** The key a piece is put under in the tile set. */
  function Key(p: PieceName): (k: string)
    ensures 1 <= |k| <= 2
  {
    match p
    case I1 => "I1"
    case I2 => "I2"
    case V3 => "V3"
    case I3 => "I3"
    case O => "O"
    case T4 => "T4"
    case L4 => "L4"
    case Z4 => "Z4"
    case I4 => "I4"
    case F => "F"
    case X => "X"
    case P => "P"
    case W => "W"
    case Z5 => "Z5"
    case U => "U"
    case T5 => "T5"
    case V5 => "V5"
    case Y => "Y"
    case L5 => "L5"
    case N => "N"
    case I5 => "I5"
  }

  /** The piece a key names, if any. */
  function Lookup(key: string): (r: Option<PieceName>)
    ensures r.Some? ==> Key(r.value) == key
  {
    if |key| == 1 then
      match key[0]
      case 'O' => Some(O)
      case 'F' => Some(F)
      case 'X' => Some(X)
      case 'P' => Some(P)
      case 'W' => Some(W)
      case 'U' => Some(U)
      case 'Y' => Some(Y)
      case 'N' => Some(N)
      case _ => None
    else if |key| == 2 then
      match (key[0], key[1])
      case ('I', '1') => Some(I1)
      case ('I', '2') => Some(I2)
      case ('I', '3') => Some(I3)
      case ('I', '4') => Some(I4)
      case ('I', '5') => Some(I5)
      case ('V', '3') => Some(V3)
      case ('V', '5') => Some(V5)
      case ('T', '4') => Some(T4)
      case ('T', '5') => Some(T5)
      case ('L', '4') => Some(L4)
      case ('L', '5') => Some(L5)
      case ('Z', '4') => Some(Z4)
      case ('Z', '5') => Some(Z5)
      case _ => None
    else None
  }

  /** Every piece is found again under its key. */
  lemma LookupKey(p: PieceName)
    ensures Lookup(Key(p)) == Some(p)
  {
  }

  /** No two pieces share a key. */
  lemma KeyInjective(p: PieceName, q: PieceName)
    ensures Key(p) == Key(q) ==> p == q
  {
    LookupKey(p);
    LookupKey(q);
  }

  /** The shape each piece is made from: one to five points in a frame of
      one to five rows. */
  function Piece(p: PieceName): (r: Shape)
    ensures 1 <= r.points <= 5 && 1 <= r.size <= 5 && |r.squares| == r.size
  {
    match p
    case I1 => Shape(1, 1, [[true]])
    case I2 => Shape(2, 2, [[true, true], [false, false]])
    case V3 => Shape(3, 2, [[true, false], [true, true]])
    case I3 => Shape(3, 3, [[false, false, false], [true, true, true], [false, false, false]])
    case O => Shape(4, 2, [[true, true], [true, true]])
    case T4 => Shape(4, 3, [[false, false, false], [true, true, true], [false, true, false]])
    case L4 => Shape(4, 3, [[true, false, false], [true, true, true], [false, false, false]])
    case Z4 => Shape(4, 3, [[false, false, false], [true, true, false], [false, true, true]])
    case I4 => Shape(4, 4, [[false, false, false, false], [true, true, true, true], [false, false, false, false], [false, false, false, false]])
    case F => Shape(5, 3, [[false, true, false], [true, true, true], [true, false, false]])
    case X => Shape(5, 3, [[false, true, false], [true, true, true], [false, true, false]])
    case P => Shape(5, 3, [[true, true, false], [true, true, false], [true, false, false]])
    case W => Shape(5, 3, [[true, false, false], [true, true, false], [false, true, true]])
    case Z5 => Shape(5, 3, [[true, true, false], [false, true, false], [false, true, true]])
    case U => Shape(5, 3, [[true, false, true], [true, true, true], [false, false, false]])
    case T5 => Shape(5, 3, [[true, true, true], [false, true, false], [false, true, false]])
    case V5 => Shape(5, 3, [[true, false, false], [true, false, false], [true, true, true]])
    case Y => Shape(5, 4, [[false, false, false, false], [false, true, false, false], [true, true, true, true], [false, false, false, false]])
    case L5 => Shape(5, 4, [[false, false, false, false], [true, false, false, false], [true, true, true, true], [false, false, false, false]])
    case N => Shape(5, 4, [[false, false, false, false], [false, true, true, true], [true, true, false, false], [false, false, false, false]])
    case I5 => Shape(5, 5, [[false, false, false, false, false], [false, false, false, false, false], [true, true, true, true, true], [false, false, false, false, false], [false, false, false, false, false]])
  }

  /** Every piece's frame is square and its points equal its squares. */
  lemma PieceIsShape(p: PieceName)
    ensures IsShape(Piece(p))
  {
    if p in {I1, I2, V3, I3, O} {
      SmallPiecesAreShapes(p);
    } else if p in {T4, L4, Z4, I4} {
      TetrominoesAreShapes(p);
    } else if p in {F, X, P, W} {
      PentominoesAreShapes(p);
    } else if p in {Z5, U, T5, V5} {
      MorePentominoesAreShapes(p);
    } else {
      LongPentominoesAreShapes(p);
    }
  }

  lemma SmallPiecesAreShapes(p: PieceName)
    requires p in {I1, I2, V3, I3, O}
    ensures IsShape(Piece(p))
  {
  }

  lemma TetrominoesAreShapes(p: PieceName)
    requires p in {T4, L4, Z4, I4}
    ensures IsShape(Piece(p))
  {
  }

  lemma PentominoesAreShapes(p: PieceName)
    requires p in {F, X, P, W}
    ensures IsShape(Piece(p))
  {
  }

  lemma MorePentominoesAreShapes(p: PieceName)
    requires p in {Z5, U, T5, V5}
    ensures IsShape(Piece(p))
  {
  }

  lemma LongPentominoesAreShapes(p: PieceName)
    requires p in {Y, L5, N, I5}
    ensures IsShape(Piece(p))
  {
  }

  /** The grid of the trimming finding is the catalog's "W". */
  lemma CatalogW()
    ensures Piece(PieceName.W).squares == WGrid
  {
  }

  /** The grid of the second trimming example is the catalog's "Z4". */
  lemma CatalogZ4()
    ensures Piece(PieceName.Z4).squares == Z4Grid
  {
  }

  /** The tile made from a shape, not yet used. */
  ghost predicate Made(t: Tile, s: Shape)
    reads t, t.squares
  {
    t.Valid() && t.points == s.points && t.size == s.size && !t.used && Holds(t.squares, s.squares)
  }

  /** A new tile with a new array holding the shape's squares. */
  method NewTile(s: Shape) returns (t: Tile)
    requires IsShape(s)
    ensures fresh(t) && fresh(t.squares) && Made(t, s)
  {
    var n := s.size;
    var a := new bool[n, n]((i, j) requires 0 <= i < n && 0 <= j < n => s.squares[i][j]);
    t := new Tile(s.points, n, a);
  }

  /** The pieces in the order the tile set puts them. */
  function Order(): (r: seq<PieceName>)
    ensures |r| == 21
  {
    [I1, I2, V3, I3, O, T4, L4, Z4, I4, F, X, P, W, Z5, U, T5, V5, Y, L5, N, I5]
  }

  /** The position of each piece in the put order. */
  function Index(p: PieceName): (r: nat)
    ensures r < |Order()| && Order()[r] == p
  {
    match p
    case I1 => 0
    case I2 => 1
    case V3 => 2
    case I3 => 3
    case O => 4
    case T4 => 5
    case L4 => 6
    case Z4 => 7
    case I4 => 8
    case F => 9
    case X => 10
    case P => 11
    case W => 12
    case Z5 => 13
    case U => 14
    case T5 => 15
    case V5 => 16
    case Y => 17
    case L5 => 18
    case N => 19
    case I5 => 20
  }

  /** Each position of the put order holds the piece with that index, so
      each piece is put exactly once. */
  lemma OrderIndex(i: nat)
    requires i < |Order()|
    ensures Index(Order()[i]) == i
  {
  }

  /** No two entries share a tile or an array. */
  ghost predicate Separate(tiles: map<string, Tile>)
    reads set k | k in tiles :: tiles[k]
  {
    forall k, l :: k in tiles && l in tiles && k != l ==>
      tiles[k] != tiles[l] && tiles[k].squares != tiles[l].squares
  }

  /** A new set of the 21 tiles, each under its piece's key and made from
      that piece: every tile and every array is new, and none is shared. */
  method NewTileSet() returns (tiles: map<string, Tile>)
    ensures |tiles| == 21 && Separate(tiles)
    ensures forall p :: Key(p) in tiles && Made(tiles[Key(p)], Piece(p))
    ensures forall k :: k in tiles ==> Lookup(k).Some?
    ensures forall k :: k in tiles ==> fresh(tiles[k]) && fresh(tiles[k].squares)
    ensures forall k :: k in tiles ==>
      tiles[k].Valid() && !tiles[k].used && tiles[k].points == Count(tiles[k].Occupancy())
  {
    var order := Order();
    var keys := seq(|order|, j requires 0 <= j < |order| => Key(order[j]));
    var shapes := seq(|order|, j requires 0 <= j < |order| => Piece(order[j]));
    forall a, b | 0 <= a < b < |keys| ensures keys[a] != keys[b] {
      OrderIndex(a);
      OrderIndex(b);
      KeyInjective(order[a], order[b]);
    }
    forall j | 0 <= j < |shapes| ensures IsShape(shapes[j]) {
      PieceIsShape(order[j]);
    }
    tiles := PutAll(keys, shapes);
    forall p ensures Key(p) in tiles && Made(tiles[Key(p)], Piece(p)) {
      assert order[Index(p)] == p;
      assert keys[Index(p)] == Key(p);
    }
    forall k | k in tiles ensures Lookup(k).Some? {
      var j :| 0 <= j < |keys| && k == keys[j];
      LookupKey(order[j]);
    }
    forall k | k in tiles
      ensures tiles[k].Valid() && !tiles[k].used && tiles[k].points == Count(tiles[k].Occupancy())
    {
      var j :| 0 <= j < |keys| && k == keys[j];
      GridOfIs(tiles[k].squares, shapes[j].squares);
    }
  }

  /** The tiles put so far for the first n keys: one per key, each made
      from the shape at the same position, no two sharing a tile or an
      array. */
  ghost predicate Stocked(tiles: map<string, Tile>, keys: seq<string>, shapes: seq<Shape>, n: nat)
    requires n <= |keys| == |shapes|
    reads set k | k in tiles :: tiles[k]
    reads set k | k in tiles :: tiles[k].squares
  {
    && |tiles| == n
    && Separate(tiles)
    && (forall k :: k in tiles ==> k in keys[..n])
    && (forall j :: 0 <= j < n ==> keys[j] in tiles && Made(tiles[keys[j]], shapes[j]))
  }

  /** Putting the next tile, which shares nothing with the tiles already
      put, under the next key keeps the map stocked one key further. */
  lemma StockedPut(tiles: map<string, Tile>, keys: seq<string>, shapes: seq<Shape>, n: nat, t: Tile)
    requires n < |keys| == |shapes| && Stocked(tiles, keys, shapes, n)
    requires forall a, b :: 0 <= a < b < |keys| ==> keys[a] != keys[b]
    requires Made(t, shapes[n])
    requires forall k :: k in tiles ==> tiles[k] != t && tiles[k].squares != t.squares
    ensures Stocked(tiles[keys[n] := t], keys, shapes, n + 1)
  {
    assert keys[n] !in keys[..n];
    assert keys[..n + 1] == keys[..n] + [keys[n]];
    forall j | 0 <= j < n
      ensures keys[j] != keys[n] && tiles[keys[n] := t][keys[j]] == tiles[keys[j]]
    {
    }
  }

  /** Puts a new tile made from each shape under the key at the same
      position; the keys are distinct. */
  method PutAll(keys: seq<string>, shapes: seq<Shape>) returns (tiles: map<string, Tile>)
    requires |keys| == |shapes|
    requires forall a, b :: 0 <= a < b < |keys| ==> keys[a] != keys[b]
    requires forall j :: 0 <= j < |shapes| ==> IsShape(shapes[j])
    ensures |tiles| == |keys| && Separate(tiles)
    ensures forall j :: 0 <= j < |keys| ==> keys[j] in tiles && Made(tiles[keys[j]], shapes[j])
    ensures forall k :: k in tiles ==> k in keys
    ensures forall k :: k in tiles ==> fresh(tiles[k]) && fresh(tiles[k].squares)
  {
    tiles := map[];
    var i := 0;
    while i < |keys|
      invariant 0 <= i <= |keys| && Stocked(tiles, keys, shapes, i)
      invariant forall k :: k in tiles ==> fresh(tiles[k]) && fresh(tiles[k].squares)
    {
      var t := NewTile(shapes[i]);
      StockedPut(tiles, keys, shapes, i, t);
      tiles := tiles[keys[i] := t];
      i := i + 1;
    }
    assert keys[..i] == keys;
  }
}
