/** The Sudoku board: an n x n array of ints (0 = empty), filled from a string of
    n * n characters and written back as one. */
module Board {
  import opened Arith
  import opened Rules
  import opened Validation
  import opened Errors

  /** `SudokuBoard.MIN_CELL_VALUE`. */
  const MinCellValue := 1

  /** `ParseChar`: '.' and '0' are an empty cell, any other char its distance from '0'. */
  function ParseChar(c: char): (v: int)
    ensures c == '.' || c == '0' ==> v == 0
    ensures '1' <= c <= '9' ==> 1 <= v <= 9
    ensures c != '.' ==> v + '0' as int == c as int
  {
    if c == '.' || c == '0' then 0 else c as int - '0' as int
  }

  /** A parsed value FillBoard keeps: empty, or a digit of the board. */
  predicate Acceptable(v: int, n: int)
  {
    v == 0 || ValidateCellRange(v, MinCellValue, n)
  }

  /** Position of the first char FillBoard rejects, or |data| when it rejects none. */
  function FirstRejected(data: string, n: int): (k: nat)
    ensures k <= |data|
    ensures forall i :: 0 <= i < k ==> Acceptable(ParseChar(data[i]), n)
    ensures k < |data| ==> !Acceptable(ParseChar(data[k]), n)
  {
    RejectedFrom(data, n, 0)
  }

  function RejectedFrom(data: string, n: int, i: nat): (k: nat)
    requires i <= |data|
    requires forall j :: 0 <= j < i ==> Acceptable(ParseChar(data[j]), n)
    ensures i <= k <= |data|
    ensures forall j :: 0 <= j < k ==> Acceptable(ParseChar(data[j]), n)
    ensures k < |data| ==> !Acceptable(ParseChar(data[k]), n)
    decreases |data| - i
  {
    if i == |data| || !Acceptable(ParseChar(data[i]), n) then i else RejectedFrom(data, n, i + 1)
  }

  /** Row-major position of cell (r, c) on an n x n board. */
  lemma FlatIndex(n: int, r: int, c: int)
    requires InBounds(n, r, c)
    ensures 0 <= r * n + c < n * n
  {
    MulNonneg(r, n);
    MulMono(r, n, n);
  }

  /** Row-major order: cell (r, c) comes before (row, col) exactly when its position is smaller. */
  lemma FlatOrder(n: int, r: int, c: int, row: int, col: int)
    requires InBounds(n, r, c) && 0 <= row && 0 <= col < n
    ensures r * n + c < row * n + col <==> r < row || (r == row && c < col)
  {
    if r < row {
      MulMono(r, row, n);
    } else if row < r {
      MulMono(row, r, n);
    }
  }

  /** The value FillBoard writes into cell (r, c). */
  function CellOf(data: string, n: int, r: int, c: int): int
    requires InBounds(n, r, c) && |data| == n * n
  {
    FlatIndex(n, r, c);
    ParseChar(data[r * n + c])
  }

  /** The board a well-formed string describes. */
  ghost function Parsed(data: string, n: nat): (g: Grid)
    requires |data| == n * n
    ensures |g| == n && IsGrid(g)
    ensures forall r, c :: InBounds(n, r, c) ==> g[r][c] == CellOf(data, n, r, c)
  {
    seq(n, r requires 0 <= r < n => seq(n, c requires 0 <= c < n => CellOf(data, n, r, c)))
  }

  /** The board after FillBoard stops at position k: the cells before k hold their parsed
      values, the others keep the values of g. */
  ghost function FilledUpTo(g: Grid, data: string, k: int): (h: Grid)
    requires IsGrid(g) && |data| == |g| * |g|
    ensures |h| == |g| && IsGrid(h)
    ensures forall r, c :: InBounds(|g|, r, c) ==>
      h[r][c] == if r * |g| + c < k then CellOf(data, |g|, r, c) else g[r][c]
  {
    var n := |g|;
    seq(n, r requires 0 <= r < n =>
      seq(n, c requires 0 <= c < n => if r * n + c < k then CellOf(data, n, r, c) else g[r][c]))
  }

  /** `(char)(cellValue + '0')`: C# keeps the low 16 bits of the code; a lone surrogate
      code unit is not a Dafny char and stands as U+FFFD. */
  function CellText(v: int): (ch: char)
    ensures 0 <= v < 0xD800 - '0' as int ==> ch as int == v + '0' as int
  {
    var u := (v + '0' as int) % 0x1_0000;
    if u < 0xD800 || 0xE000 <= u then u as char else '\U{FFFD}'
  }

  function RenderRow(row: seq<int>): (s: string)
    ensures |s| == |row|
    ensures forall j :: 0 <= j < |row| ==> s[j] == CellText(row[j])
  {
    if |row| == 0 then "" else RenderRow(row[..|row| - 1]) + [CellText(row[|row| - 1])]
  }

  /** The cells of g, row by row. */
  function Rendered(g: Grid): string
  {
    if |g| == 0 then "" else Rendered(g[..|g| - 1]) + RenderRow(g[|g| - 1])
  }

  class SudokuBoard {
    const rows: nat
    const cols: nat
    const board: array2<int>

    ghost predicate Valid()
      reads this
    {
      rows == cols && board.Length0 == rows && board.Length1 == cols
    }

    /** `BoardSize`. */
    function BoardSize(): nat
      reads this
    {
      rows
    }

    /** The board as a grid of values. */
    ghost function Cells(): (g: Grid)
      reads this, board
      requires Valid()
      ensures |g| == rows && IsGrid(g)
      ensures forall r, c :: InBounds(rows, r, c) ==> g[r][c] == board[r, c]
    {
      GridOf(board, rows)
    }

    /** `SudokuBoard(boardSize, validator)`: an empty boardSize x boardSize board. */
    constructor (boardSize: nat)
      ensures Valid() && rows == boardSize && fresh(board)
      ensures forall r, c :: InBounds(boardSize, r, c) ==> Cells()[r][c] == 0
    {
      rows, cols := boardSize, boardSize;
      board := new int[boardSize, boardSize]((r, c) => 0);
    }

    /** `GetCell`. */
    function GetCell(row: int, col: int): (v: int)
      reads this, board
      requires Valid() && InBounds(rows, row, col)
      ensures v == Cells()[row][col]
    {
      board[row, col]
    }

    lemma EmptyAt(row: int, col: int)
      requires Valid() && InBounds(rows, row, col)
      ensures IsEmptyCell(Cells(), row, col) <==> GetCell(row, col) == 0
    {
    }

    /** `SetCell`: cell (row, col) takes value; every other cell is unchanged. */
    method SetCell(row: int, col: int, value: int)
      requires Valid() && InBounds(rows, row, col)
      modifies board
      ensures Cells() == Update(old(Cells()), row, col, value)
    {
      board[row, col] := value;
      assert Cells() == Update(old(Cells()), row, col, value) by {
        var g, h := Cells(), Update(old(Cells()), row, col, value);
        forall r | 0 <= r < rows
          ensures g[r] == h[r]
        {
        }
      }
    }

    /** `FillBoard`: a string of the wrong length is refused before anything is written;
        otherwise cells are filled row by row until a char whose value is neither empty
        nor a digit 1..n, which is refused. */
    method FillBoard(data: string) returns (res: Outcome<()>)
      requires Valid()
      modifies board
      ensures |data| != rows * rows ==> res == Err(InvalidInput) && Cells() == old(Cells())
      ensures |data| == rows * rows ==>
        Cells() == FilledUpTo(old(Cells()), data, FirstRejected(data, rows)) &&
        (res.Ok? <==> FirstRejected(data, rows) == |data|) &&
        (res.Err? ==> res.error == InvalidInput)
    {
      var n := rows;
      if !ValidateStringSize(data, n, n) {
        return Err(InvalidInput);
      }
      ghost var g0 := Cells();
      ghost var k := FirstRejected(data, n);
      var inputIndex := 0;
      var row := 0;
      while row < n
        invariant 0 <= row <= n && inputIndex == row * n
        invariant inputIndex <= k
        invariant forall r, c :: InBounds(n, r, c) ==>
          board[r, c] == if r < row then CellOf(data, n, r, c) else g0[r][c]
      {
        var ok;
        inputIndex, ok := FillRow(data, row, inputIndex, g0);
        if !ok {
          return Err(InvalidInput);
        }
        row := row + 1;
      }
      assert k == n * n;
      FilledPrefix(g0, data, k, n, 0);
      return Ok(());
    }

    /** The inner loop of `FillBoard` for one row; false when it meets a char it refuses. */
    method FillRow(data: string, row: int, startIndex: int, ghost g0: Grid) returns (inputIndex: int, ok: bool)
      requires Valid() && |data| == rows * rows && |g0| == rows && IsGrid(g0)
      requires 0 <= row < rows && startIndex == row * rows && startIndex <= FirstRejected(data, rows)
      requires forall r, c :: InBounds(rows, r, c) ==>
        board[r, c] == if r < row then CellOf(data, rows, r, c) else g0[r][c]
      modifies board
      ensures ok ==> inputIndex == row * rows + rows && inputIndex <= FirstRejected(data, rows)
      ensures ok ==> forall r, c :: InBounds(rows, r, c) ==>
        board[r, c] == if r <= row then CellOf(data, rows, r, c) else g0[r][c]
      ensures !ok ==>
        FirstRejected(data, rows) < |data| && Cells() == FilledUpTo(g0, data, FirstRejected(data, rows))
    {
      var n := rows;
      ghost var k := FirstRejected(data, n);
      inputIndex := startIndex;
      var col := 0;
      while col < n
        invariant 0 <= col <= n && inputIndex == row * n + col
        invariant inputIndex <= k
        invariant forall r, c :: InBounds(n, r, c) ==>
          board[r, c] == if r < row || (r == row && c < col) then CellOf(data, n, r, c) else g0[r][c]
      {
        FlatIndex(n, row, col);
        var ch := data[inputIndex];
        inputIndex := inputIndex + 1;
        var cellValue := ParseChar(ch);
        if cellValue != 0 {
          if !ValidateCellRange(cellValue, MinCellValue, n) {
            assert k == row * n + col;
            FilledPrefix(g0, data, k, row, col);
            return inputIndex, false;
          }
        }
        board[row, col] := cellValue;
        col := col + 1;
      }
      return inputIndex, true;
    }

    /** The board FillBoard has written up to cell (row, col) is FilledUpTo at that position. */
    lemma FilledPrefix(g0: Grid, data: string, k: int, row: int, col: int)
      requires Valid() && |g0| == rows && IsGrid(g0) && |data| == rows * rows
      requires 0 <= row && 0 <= col && (col < rows || (col == 0 && row == rows)) && k == row * rows + col
      requires forall r, c :: InBounds(rows, r, c) ==>
        board[r, c] == if r < row || (r == row && c < col) then CellOf(data, rows, r, c) else g0[r][c]
      ensures Cells() == FilledUpTo(g0, data, k)
    {
      var g, h := Cells(), FilledUpTo(g0, data, k);
      forall r, c | InBounds(rows, r, c)
        ensures g[r][c] == h[r][c]
      {
        if col < rows {
          FlatOrder(rows, r, c, row, col);
        } else {
          FlatIndex(rows, r, c);
        }
      }
      assert forall r | 0 <= r < rows :: g[r] == h[r];
    }

    /** `IsFull`: no cell is empty. */
    method IsFull() returns (full: bool)
      requires Valid()
      ensures full <==> Full(Cells())
    {
      var row := 0;
      while row < rows
        invariant 0 <= row <= rows
        invariant forall r, c :: 0 <= r < row && 0 <= c < cols ==> board[r, c] != 0
      {
        var col := 0;
        while col < cols
          invariant 0 <= col <= cols
          invariant forall c :: 0 <= c < col ==> board[row, c] != 0
        {
          if board[row, col] == 0 {
            assert Cells()[row][col] == 0;
            return false;
          }
          col := col + 1;
        }
        row := row + 1;
      }
      return true;
    }

    /** `ValidateBoard`: rows, then columns, then blocks, each refusing a repeated value. */
    method ValidateBoard() returns (res: Outcome<()>)
      requires Valid()
      ensures res.Ok? <==>
        RowsDistinct(board, rows, rows) && ColsDistinct(board, rows, rows) &&
        (IsPerfectSquare(rows) ==> BlocksDistinct(board, rows, ISqrt(rows)))
      ensures res.Err? ==> res.error == InvalidBoard
      ensures IsPerfectSquare(rows) ==> (res.Ok? <==> NoDuplicates(Cells(), ISqrt(rows)))
    {
      var n := rows;
      if IsPerfectSquare(n) {
        DistinctIsNoDuplicates(board, n, ISqrt(n));
      }
      var ok := ValidateRows(board, n, n);
      if !ok {
        return Err(InvalidBoard);
      }
      ok := ValidateColumns(board, n, n);
      if !ok {
        return Err(InvalidBoard);
      }
      ok := ValidateBlocks(board, n, n);
      if !ok {
        return Err(InvalidBoard);
      }
      return Ok(());
    }

    /** `ToString`: the cells row by row, each as `(char)(value + '0')`. */
    method ToString() returns (s: string)
      requires Valid()
      ensures s == Rendered(Cells())
    {
      ghost var g := Cells();
      s := "";
      var i := 0;
      while i < rows
        invariant 0 <= i <= rows
        invariant s == Rendered(g[..i])
      {
        s := AppendRow(s, i);
        RenderedSnoc(g, i);
        i := i + 1;
      }
      assert g[..rows] == g;
    }

    /** The inner loop of `ToString`: appends the chars of row i to s. */
    method AppendRow(s0: string, i: int) returns (s: string)
      requires Valid() && 0 <= i < rows
      ensures s == s0 + RenderRow(Cells()[i])
    {
      ghost var row := Cells()[i];
      s := s0;
      var j := 0;
      while j < cols
        invariant 0 <= j <= cols
        invariant s == s0 + RenderRow(row[..j])
      {
        var cellValue := board[i, j];
        RenderRowSnoc(row, j);
        s := s + [CellText(cellValue)];
        j := j + 1;
      }
      assert row[..cols] == row;
    }
  }

  lemma RenderRowSnoc(row: seq<int>, j: int)
    requires 0 <= j < |row|
    ensures RenderRow(row[..j + 1]) == RenderRow(row[..j]) + [CellText(row[j])]
  {
    assert row[..j + 1][..j] == row[..j];
  }

  lemma RenderedSnoc(g: Grid, i: int)
    requires 0 <= i < |g|
    ensures Rendered(g[..i + 1]) == Rendered(g[..i]) + RenderRow(g[i])
  {
    assert g[..i + 1][..i] == g[..i];
  }

  /** A board in range written out and read back is the same board. */
  lemma {:induction false} ParseRendered(g: Grid)
    requires InRange(g) && |g| < 0xD800 - '0' as int
    ensures |Rendered(g)| == |g| * |g|
    ensures Parsed(Rendered(g), |g|) == g
  {
    var n := |g|;
    RenderedLength(g, n);
    var s := Rendered(g);
    var p := Parsed(s, n);
    forall r, c | InBounds(n, r, c)
      ensures p[r][c] == g[r][c]
    {
      RenderedAt(g, n, r, c);
    }
    assert forall r | 0 <= r < n :: p[r] == g[r];
  }

  /** Rendered(g) has n chars per row. */
  lemma {:induction false} RenderedLength(g: Grid, n: nat)
    requires forall r :: 0 <= r < |g| ==> |g[r]| == n
    ensures |Rendered(g)| == |g| * n
  {
    if |g| > 0 {
      var m := |g| - 1;
      RenderedLength(g[..m], n);
      assert |g| * n == m * n + n;
    }
  }

  /** Rendered(g) holds cell (r, c) at position r * n + c. */
  lemma {:induction false} RenderedAt(g: Grid, n: nat, r: int, c: int)
    requires forall i :: 0 <= i < |g| ==> |g[i]| == n
    requires 0 <= r < |g| && 0 <= c < n
    ensures 0 <= r * n + c < |Rendered(g)| && Rendered(g)[r * n + c] == CellText(g[r][c])
  {
    var m := |g| - 1;
    var front := g[..m];
    RenderedLength(front, n);
    var prefix, last := Rendered(front), RenderRow(g[m]);
    assert Rendered(g) == prefix + last;
    var p := r * n + c;
    if r < m {
      FlatBefore(n, r, c, m);
      RenderedAt(front, n, r, c);
      assert front[r] == g[r];
      assert (prefix + last)[p] == prefix[p];
    } else {
      assert p - |prefix| == c;
      assert (prefix + last)[p] == last[c];
    }
  }

  /** A cell of rows 0..m-1 sits before position m * n. */
  lemma FlatBefore(n: int, r: int, c: int, m: int)
    requires 0 <= r < m && 0 <= c < n
    ensures 0 <= r * n + c < m * n
  {
    MulMono(r, m, n);
    MulNonneg(r, n);
  }

  /** A string FillBoard accepts, written back, is the same string with '.' shown as '0'. */
  lemma RenderedParsed(data: string, n: nat)
    requires |data| == n * n && n < 0xD800 - '0' as int && FirstRejected(data, n) == |data|
    ensures var s := Rendered(Parsed(data, n));
      |s| == |data| && forall i :: 0 <= i < |data| ==> s[i] == if data[i] == '.' then '0' else data[i]
  {
    var g := Parsed(data, n);
    RenderedLength(g, n);
    var s := Rendered(g);
    forall i | 0 <= i < |data|
      ensures s[i] == if data[i] == '.' then '0' else data[i]
    {
      DivChar(i, n);
      var r, c := i / n, i % n;
      DivBelow(i, n);
      assert i == r * n + c;
      RenderedAt(g, n, r, c);
      assert Acceptable(ParseChar(data[i]), n);
      assert g[r][c] == ParseChar(data[i]);
    }
  }
}
