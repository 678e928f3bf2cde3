/** The board checks: string length, value range, and "no row, column or block repeats a
    non-zero value". Each duplicate check walks its group and keeps the set of values seen
    so far, as the `HashSet` loops do. */
module Validation {
  import opened Arith
  import opened Rules

  /** `ValidateCellRange`. */
  function ValidateCellRange(cellValue: int, minValue: int, maxValue: int): (ok: bool)
    ensures ok <==> minValue <= cellValue <= maxValue
  {
    !(cellValue < minValue || cellValue > maxValue)
  }

  /** `ValidateStringSize`. */
  function ValidateStringSize(data: string, rows: int, cols: int): (ok: bool)
    ensures ok <==> |data| == rows * cols
  {
    |data| == rows * cols
  }

  /** `ValidateCellsRange`: (row, col) lies on a rows x cols board. */
  function ValidateCellsRange(row: int, col: int, rows: int, cols: int): (ok: bool)
    ensures ok <==> 0 <= row < rows && 0 <= col < cols
  {
    if row < 0 || row >= rows then false
    else if col < 0 || col >= cols then false
    else true
  }

  predicate IsAsciiDigit(c: char)
  {
    '0' <= c <= '9'
  }

  /** `IsValidString`: every char is a digit or '.'. */
  method IsValidString(data: string) returns (ok: bool)
    ensures ok <==> forall i :: 0 <= i < |data| ==> IsAsciiDigit(data[i]) || data[i] == '.'
  {
    var i := 0;
    while i < |data|
      invariant 0 <= i <= |data|
      invariant forall j :: 0 <= j < i ==> IsAsciiDigit(data[j]) || data[j] == '.'
    {
      var c := data[i];
      if !(IsAsciiDigit(c) || c == '.' || c == '0') {
        return false;
      }
      i := i + 1;
    }
    return true;
  }

  // ---------------------------------------------------------------------------
  // Duplicate checks, stated on the rows x cols corner of a two-dimensional array

  /** No row repeats a non-zero value. */
  ghost predicate RowsDistinct(a: array2<int>, rows: int, cols: int)
    reads a
    requires rows <= a.Length0 && cols <= a.Length1
  {
    forall r, c1, c2 :: 0 <= r < rows && 0 <= c1 < c2 < cols && a[r, c1] != 0 ==> a[r, c1] != a[r, c2]
  }

  /** No column repeats a non-zero value. */
  ghost predicate ColsDistinct(a: array2<int>, rows: int, cols: int)
    reads a
    requires rows <= a.Length0 && cols <= a.Length1
  {
    forall c, r1, r2 :: 0 <= c < cols && 0 <= r1 < r2 < rows && a[r1, c] != 0 ==> a[r1, c] != a[r2, c]
  }

  /** The bs x bs square with top-left cell (sr, sc) repeats no non-zero value. */
  ghost predicate BlockDistinct(a: array2<int>, sr: int, sc: int, bs: int)
    reads a
    requires 0 <= sr && sr + bs <= a.Length0 && 0 <= sc && sc + bs <= a.Length1
  {
    forall r1, c1, r2, c2 ::
      sr <= r1 < sr + bs && sc <= c1 < sc + bs && sr <= r2 < sr + bs && sc <= c2 < sc + bs &&
      (r1, c1) != (r2, c2) && a[r1, c1] != 0 ==>
      a[r1, c1] != a[r2, c2]
  }

  /** No block of an n x n board with block side bs repeats a non-zero value. */
  ghost predicate BlocksDistinct(a: array2<int>, n: int, bs: int)
    reads a
  {
    forall br, bc ::
      (0 <= br < bs && 0 <= bc < bs && 0 <= br * bs && br * bs + bs <= a.Length0 &&
       0 <= bc * bs && bc * bs + bs <= a.Length1) ==>
      BlockDistinct(a, br * bs, bc * bs, bs)
  }

  /** `Math.Sqrt(n)` is a whole number. */
  predicate IsPerfectSquare(n: int)
  {
    n >= 0 && ISqrt(n) * ISqrt(n) == n
  }

  /** `ValidateRows`. */
  method ValidateRows(board: array2<int>, rows: int, cols: int) returns (ok: bool)
    requires rows <= board.Length0 && cols <= board.Length1
    ensures ok <==> RowsDistinct(board, rows, cols)
  {
    var r := 0;
    while r < rows
      invariant 0 <= r && (r <= rows || r == 0)
      invariant forall r', c1, c2 :: 0 <= r' < r && 0 <= c1 < c2 < cols && board[r', c1] != 0 ==>
        board[r', c1] != board[r', c2]
    {
      var seen: set<int> := {};
      var c := 0;
      while c < cols
        invariant 0 <= c && (c <= cols || c == 0)
        invariant seen == set c' | 0 <= c' < c && board[r, c'] != 0 :: board[r, c']
        invariant forall c1, c2 :: 0 <= c1 < c2 < c && board[r, c1] != 0 ==> board[r, c1] != board[r, c2]
      {
        var val := board[r, c];
        if val != 0 && val in seen {
          var c1 :| 0 <= c1 < c && board[r, c1] != 0 && board[r, c1] == val;
          assert !RowsDistinct(board, rows, cols) by {
            assert board[r, c1] == board[r, c];
          }
          return false;
        }
        seen := seen + (if val != 0 then {val} else {});
        c := c + 1;
      }
      r := r + 1;
    }
    return true;
  }

  /** `ValidateColumns`. */
  method ValidateColumns(board: array2<int>, rows: int, cols: int) returns (ok: bool)
    requires rows <= board.Length0 && cols <= board.Length1
    ensures ok <==> ColsDistinct(board, rows, cols)
  {
    var c := 0;
    while c < cols
      invariant 0 <= c && (c <= cols || c == 0)
      invariant forall c', r1, r2 :: 0 <= c' < c && 0 <= r1 < r2 < rows && board[r1, c'] != 0 ==>
        board[r1, c'] != board[r2, c']
    {
      var seen: set<int> := {};
      var r := 0;
      while r < rows
        invariant 0 <= r && (r <= rows || r == 0)
        invariant seen == set r' | 0 <= r' < r && board[r', c] != 0 :: board[r', c]
        invariant forall r1, r2 :: 0 <= r1 < r2 < r && board[r1, c] != 0 ==> board[r1, c] != board[r2, c]
      {
        var val := board[r, c];
        if val != 0 && val in seen {
          var r1 :| 0 <= r1 < r && board[r1, c] != 0 && board[r1, c] == val;
          assert !ColsDistinct(board, rows, cols) by {
            assert board[r1, c] == board[r, c];
          }
          return false;
        }
        seen := seen + (if val != 0 then {val} else {});
        r := r + 1;
      }
      c := c + 1;
    }
    return true;
  }

  /** `ValidateBlocks`: only a square board whose side is a perfect square has blocks. */
  method ValidateBlocks(board: array2<int>, rows: int, cols: int) returns (ok: bool)
    requires rows <= board.Length0 && cols <= board.Length1
    ensures ok <==> (rows == cols && IsPerfectSquare(rows) ==> BlocksDistinct(board, rows, ISqrt(rows)))
  {
    if rows != cols {
      return true;
    }
    if rows < 0 || ISqrt(rows) * ISqrt(rows) != rows {
      return true;
    }
    var bs := ISqrt(rows);
    var blockRow := 0;
    while blockRow < bs
      invariant 0 <= blockRow <= bs
      invariant forall br, bc :: 0 <= br < blockRow && 0 <= bc < bs ==> BlockFits(board, br, bc, bs)
    {
      var blockCol := 0;
      while blockCol < bs
        invariant 0 <= blockCol <= bs
        invariant forall br, bc :: 0 <= br < blockRow && 0 <= bc < bs ==> BlockFits(board, br, bc, bs)
        invariant forall bc :: 0 <= bc < blockCol ==> BlockFits(board, blockRow, bc, bs)
      {
        BlockInside(board, rows, bs, blockRow, blockCol);
        var blockOk := ValidateBlock(board, blockRow * bs, blockCol * bs, bs);
        if !blockOk {
          assert !BlocksDistinct(board, rows, bs) by {
            assert !BlockFits(board, blockRow, blockCol, bs);
          }
          return false;
        }
        blockCol := blockCol + 1;
      }
      blockRow := blockRow + 1;
    }
    forall br, bc | 0 <= br < bs && 0 <= bc < bs && 0 <= br * bs && br * bs + bs <= board.Length0 &&
      0 <= bc * bs && bc * bs + bs <= board.Length1
      ensures BlockDistinct(board, br * bs, bc * bs, bs)
    {
      assert BlockFits(board, br, bc, bs);
    }
    return true;
  }

  /** Block (br, bc) lies on the board and repeats no value. */
  ghost predicate BlockFits(a: array2<int>, br: int, bc: int, bs: int)
    reads a
  {
    0 <= br * bs && br * bs + bs <= a.Length0 && 0 <= bc * bs && bc * bs + bs <= a.Length1 &&
    BlockDistinct(a, br * bs, bc * bs, bs)
  }

  lemma BlockInside(a: array2<int>, n: int, bs: int, br: int, bc: int)
    requires bs >= 0 && bs * bs == n && n <= a.Length0 && n <= a.Length1 && 0 <= br < bs && 0 <= bc < bs
    ensures 0 <= br * bs && br * bs + bs <= a.Length0 && 0 <= bc * bs && bc * bs + bs <= a.Length1
  {
    MulNonneg(br, bs);
    MulNonneg(bc, bs);
    MulMono(br, bs, bs);
    MulMono(bc, bs, bs);
  }

  /** The inner loops of `ValidateBlocks` for one block, visiting its cells row by row. */
  method ValidateBlock(board: array2<int>, startRow: int, startCol: int, bs: int) returns (ok: bool)
    requires 0 <= startRow && startRow + bs <= board.Length0 && 0 <= startCol && startCol + bs <= board.Length1
    ensures ok <==> BlockDistinct(board, startRow, startCol, bs)
  {
    var seen: set<int> := {};
    var row := startRow;
    while row < startRow + bs
      invariant startRow <= row && (row <= startRow + bs || row == startRow)
      invariant seen == set r', c' | startRow <= r' < row && startCol <= c' < startCol + bs &&
        board[r', c'] != 0 :: board[r', c']
      invariant forall r1, c1, r2, c2 ::
        (startRow <= r1 < row && startCol <= c1 < startCol + bs &&
         startRow <= r2 < row && startCol <= c2 < startCol + bs &&
         (r1, c1) != (r2, c2) && board[r1, c1] != 0) ==> board[r1, c1] != board[r2, c2]
    {
      var col := startCol;
      while col < startCol + bs
        invariant startCol <= col <= startCol + bs
        invariant seen == set r', c' | startRow <= r' <= row && startCol <= c' < startCol + bs &&
          (r' < row || c' < col) && board[r', c'] != 0 :: board[r', c']
        invariant forall r1, c1, r2, c2 ::
          (startRow <= r1 <= row && startCol <= c1 < startCol + bs && (r1 < row || c1 < col) &&
           startRow <= r2 <= row && startCol <= c2 < startCol + bs && (r2 < row || c2 < col) &&
           (r1, c1) != (r2, c2) && board[r1, c1] != 0) ==> board[r1, c1] != board[r2, c2]
      {
        var val := board[row, col];
        if val != 0 && val in seen {
          var r1, c1 :| startRow <= r1 <= row && startCol <= c1 < startCol + bs && (r1 < row || c1 < col) &&
            board[r1, c1] != 0 && board[r1, c1] == val;
          assert !BlockDistinct(board, startRow, startCol, bs) by {
            assert board[r1, c1] == board[row, col] && (r1, c1) != (row, col);
          }
          return false;
        }
        seen := seen + (if val != 0 then {val} else {});
        col := col + 1;
      }
      row := row + 1;
    }
    return true;
  }

  // ---------------------------------------------------------------------------
  // The three checks together are the no-duplicates rule of the grid

  /** The n x n corner of a two-dimensional array as a grid of values. */
  ghost function GridOf(a: array2<int>, n: nat): (g: Grid)
    reads a
    requires n <= a.Length0 && n <= a.Length1
    ensures |g| == n && IsGrid(g)
    ensures forall r, c :: InBounds(n, r, c) ==> g[r][c] == a[r, c]
  {
    RowsOf(a, n, n)
  }

  /** The first k rows of that corner. */
  ghost function RowsOf(a: array2<int>, n: nat, k: nat): (g: seq<seq<int>>)
    reads a
    requires k <= n <= a.Length0 && n <= a.Length1
    ensures |g| == k
    ensures forall r :: 0 <= r < k ==> |g[r]| == n && forall c :: 0 <= c < n ==> g[r][c] == a[r, c]
  {
    if k == 0 then [] else RowsOf(a, n, k - 1) + [RowOf(a, k - 1, n)]
  }

  /** The first k values of row r of the array. */
  ghost function RowOf(a: array2<int>, r: nat, k: nat): (row: seq<int>)
    reads a
    requires r < a.Length0 && k <= a.Length1
    ensures |row| == k && forall c :: 0 <= c < k ==> row[c] == a[r, c]
  {
    if k == 0 then [] else RowOf(a, r, k - 1) + [a[r, k - 1]]
  }

  /** Row r lies in block row br exactly when br * bs <= r < br * bs + bs. */
  lemma InBlockRow(bs: int, br: int, r: int)
    requires bs > 0
    ensures br * bs <= r < br * bs + bs <==> r / bs == br
  {
    if br * bs <= r < br * bs + bs {
      DivMulAdd(br, bs, r - br * bs);
    } else {
      DivChar(r, bs);
    }
  }

  /** A board passes the row, column and block checks exactly when its grid has no
      duplicates. */
  lemma DistinctIsNoDuplicates(a: array2<int>, n: nat, bs: nat)
    requires n <= a.Length0 && n <= a.Length1 && Geometry(n, bs)
    ensures RowsDistinct(a, n, n) && ColsDistinct(a, n, n) && BlocksDistinct(a, n, bs) <==>
      NoDuplicates(GridOf(a, n), bs)
  {
    var g := GridOf(a, n);
    if RowsDistinct(a, n, n) && ColsDistinct(a, n, n) && BlocksDistinct(a, n, bs) {
      forall r1, c1, r2, c2 |
        InBounds(n, r1, c1) && InBounds(n, r2, c2) && (r1, c1) != (r2, c2) &&
        Peers(bs, (r1, c1), (r2, c2)) && g[r1][c1] != 0
        ensures g[r1][c1] != g[r2][c2]
      {
        if r1 == r2 {
          if c1 < c2 {
            assert a[r1, c1] != 0;
          } else {
            assert a[r1, c2] != 0 ==> a[r1, c2] != a[r1, c1];
          }
        } else if c1 == c2 {
          if r1 < r2 {
            assert a[r1, c1] != 0;
          } else {
            assert a[r2, c1] != 0 ==> a[r2, c1] != a[r1, c1];
          }
        } else {
          BlocksPeers(a, n, bs, r1, c1, r2, c2);
        }
      }
    }
    if NoDuplicates(g, bs) {
      assert RowsDistinct(a, n, n) by {
        forall r, c1, c2 | 0 <= r < n && 0 <= c1 < c2 < n && a[r, c1] != 0
          ensures a[r, c1] != a[r, c2]
        {
          assert g[r][c1] != g[r][c2];
        }
      }
      assert ColsDistinct(a, n, n) by {
        forall c, r1, r2 | 0 <= c < n && 0 <= r1 < r2 < n && a[r1, c] != 0
          ensures a[r1, c] != a[r2, c]
        {
          assert g[r1][c] != g[r2][c];
        }
      }
      forall br, bc |
        0 <= br < bs && 0 <= bc < bs && 0 <= br * bs && br * bs + bs <= a.Length0 &&
        0 <= bc * bs && bc * bs + bs <= a.Length1
        ensures BlockDistinct(a, br * bs, bc * bs, bs)
      {
        NoDuplicatesBlock(a, n, bs, br, bc);
      }
    }
  }

  lemma NoDuplicatesBlock(a: array2<int>, n: nat, bs: nat, br: int, bc: int)
    requires n <= a.Length0 && n <= a.Length1 && Geometry(n, bs) && NoDuplicates(GridOf(a, n), bs)
    requires 0 <= br < bs && 0 <= bc < bs
    ensures 0 <= br * bs && br * bs + bs <= a.Length0 && 0 <= bc * bs && bc * bs + bs <= a.Length1
    ensures BlockDistinct(a, br * bs, bc * bs, bs)
  {
    BlockInside(a, n, bs, br, bc);
    var g := GridOf(a, n);
    forall r1, c1, r2, c2 |
      br * bs <= r1 < br * bs + bs && bc * bs <= c1 < bc * bs + bs &&
      br * bs <= r2 < br * bs + bs && bc * bs <= c2 < bc * bs + bs &&
      (r1, c1) != (r2, c2) && a[r1, c1] != 0
      ensures a[r1, c1] != a[r2, c2]
    {
      InBlockRow(bs, br, r1);
      InBlockRow(bs, br, r2);
      InBlockRow(bs, bc, c1);
      InBlockRow(bs, bc, c2);
      MulMono(br, bs, bs);
      MulMono(bc, bs, bs);
      SameBlockIndex(bs, r1, c1, r2, c2);
      assert InBounds(n, r1, c1) && InBounds(n, r2, c2);
      assert Peers(bs, (r1, c1), (r2, c2));
      assert g[r1][c1] != g[r2][c2];
    }
  }

  /** Two different cells of one block hold different values when every block is distinct. */
  lemma BlocksPeers(a: array2<int>, n: nat, bs: nat, r1: int, c1: int, r2: int, c2: int)
    requires n <= a.Length0 && n <= a.Length1 && Geometry(n, bs) && BlocksDistinct(a, n, bs)
    requires InBounds(n, r1, c1) && InBounds(n, r2, c2) && (r1, c1) != (r2, c2)
    requires BlockIndex(bs, r1, c1) == BlockIndex(bs, r2, c2) && a[r1, c1] != 0
    ensures a[r1, c1] != a[r2, c2]
  {
    SameBlockIndex(bs, r1, c1, r2, c2);
    var br, bc := r1 / bs, c1 / bs;
    BlockIndexBound(n, bs, r1, c1);
    BlockInside(a, n, bs, br, bc);
    InBlockRow(bs, br, r1);
    InBlockRow(bs, br, r2);
    InBlockRow(bs, bc, c1);
    InBlockRow(bs, bc, c2);
    assert BlockDistinct(a, br * bs, bc * bs, bs);
  }
}
