/** `FormatBoard` of the console interface: the board string laid out as a grid, each cell
    followed by a space, "| " between blocks of columns, and a line of dashes between
    blocks of rows. The platform line break is a fixed '\n' here. */
module UserInterfaceUtils {
  import opened Arith

  /** `new string('-', k)`. */
  function Dashes(k: nat): (s: string)
    ensures |s| == k && forall i :: 0 <= i < k ==> s[i] == '-'
  {
    if k == 0 then "" else Dashes(k - 1) + "-"
  }

  // ---------------------------------------------------------------------------
  // The board string as rows

  /** Row `row` of the n x n board starts at char row * n of the string and ends within
      its first n * n chars. */
  lemma RowBounds(n: int, row: int)
    requires 0 <= row < n
    ensures 0 <= row * n && row * n + n <= n * n
  {
    MulNonneg(row, n);
    MulMono(row, n, n);
  }

  /** The n chars of row `row` of the board string. */
  function RowOf(s: string, n: int, row: int): (line: string)
    requires 0 <= row < n && n * n <= |s|
    ensures |line| == n
  {
    RowBounds(n, row);
    s[row * n .. row * n + n]
  }

  /** Cell (row, col) is char row * n + col of the string. */
  lemma RowOfAt(s: string, n: int, row: int, col: int)
    requires 0 <= row < n && 0 <= col < n && n * n <= |s|
    ensures 0 <= row * n + col < n * n && s[row * n + col] == RowOf(s, n, row)[col]
  {
    RowBounds(n, row);
  }

  /** The first k rows of the board string. */
  function Rows(s: string, n: int, k: nat): (rows: seq<string>)
    requires k <= n && n * n <= |s|
    ensures |rows| == k && forall i :: 0 <= i < k ==> rows[i] == RowOf(s, n, i)
  {
    if k == 0 then [] else Rows(s, n, k - 1) + [RowOf(s, n, k - 1)]
  }

  /** The first k strings of rows, one after the other. */
  function Joined(rows: seq<string>, k: nat): string
    requires k <= |rows|
  {
    if k == 0 then "" else Joined(rows, k - 1) + rows[k - 1]
  }

  /** The rows of the board string, one after the other, are its first k * n chars. */
  lemma {:induction false} JoinedRows(s: string, n: int, k: nat)
    requires k <= n && n * n <= |s|
    ensures 0 <= k * n <= n * n && Joined(Rows(s, n, n), k) == s[..k * n]
  {
    MulNonneg(k, n);
    MulLe(k, n, n);
    if k == 0 {
      assert k * n == 0;
    } else {
      JoinedRows(s, n, k - 1);
      RowBounds(n, k - 1);
      Distrib(1, k, n);
      assert s[..k * n] == s[..(k - 1) * n] + RowOf(s, n, k - 1);
    }
  }

  // ---------------------------------------------------------------------------
  // The layout

  /** What a column contributes to its line: the char, a space, and "| " when it ends a
      block of gs columns and is not the last column. */
  function CellText(ch: char, n: int, gs: int, col: int): string
    requires gs >= 1
  {
    [ch, ' '] + (if (col + 1) % gs == 0 && col != n - 1 then "| " else "")
  }

  /** The text of the first k cells of a line. */
  function LineText(line: string, n: int, gs: int, k: nat): string
    requires gs >= 1 && k <= |line|
  {
    if k == 0 then "" else LineText(line, n, gs, k - 1) + CellText(line[k - 1], n, gs, k - 1)
  }

  /** What follows line `row`: a line break, and a dash line of width 2n + gs - 1 when the
      row ends a block of gs rows and is not the last row. */
  function RowEnd(n: int, gs: int, row: int): string
    requires n >= 1 && gs >= 1
  {
    "\n" + (if (row + 1) % gs == 0 && row != n - 1 then Dashes(2 * n + gs - 1) + "\n" else "")
  }

  /** The first k lines of the grid, each with what follows it. */
  function Layout(rows: seq<string>, n: int, gs: int, k: nat): string
    requires n >= 1 && gs >= 1 && k <= |rows|
  {
    if k == 0 then "" else Layout(rows, n, gs, k - 1) + LineText(rows[k - 1], n, gs, |rows[k - 1]|) + RowEnd(n, gs, k - 1)
  }

  /** The text `FormatBoard(boardString, boardSize)` returns; the block size is the integer
      square root of the board size. */
  function Formatted(s: string, n: int): string
    requires n >= 1 && n * n <= |s|
  {
    Layout(Rows(s, n, n), n, ISqrt(n), n)
  }

  /** `FormatBoard`: a size below 1 makes the dash line's length negative, which throws. */
  method FormatBoard(boardString: string, boardSize: int) returns (text: string)
    requires 1 <= boardSize && boardSize * boardSize <= |boardString|
    ensures text == Formatted(boardString, boardSize)
  {
    var cellWidth := 2;
    var groupSize := ISqrt(boardSize);
    var horizontalLine := Dashes(cellWidth * boardSize + groupSize - 1);
    ghost var rows := Rows(boardString, boardSize, boardSize);
    var sb := "";
    var row := 0;
    while row < boardSize
      invariant 0 <= row <= boardSize
      invariant sb == Layout(rows, boardSize, groupSize, row)
    {
      sb := AppendCells(sb, boardString, boardSize, groupSize, row);
      sb := sb + "\n";
      if (row + 1) % groupSize == 0 && row != boardSize - 1 {
        sb := sb + horizontalLine + "\n";
      }
      row := row + 1;
    }
    text := sb;
  }

  /** The inner loop of `FormatBoard`: the cells of row `row`, each with what follows it
      on the line. */
  method AppendCells(sb0: string, boardString: string, boardSize: int, groupSize: int, row: int)
    returns (sb: string)
    requires 1 <= groupSize && 0 <= row < boardSize && boardSize * boardSize <= |boardString|
    ensures sb == sb0 + LineText(RowOf(boardString, boardSize, row), boardSize, groupSize, boardSize)
  {
    sb := sb0;
    var col := 0;
    while col < boardSize
      invariant 0 <= col <= boardSize
      invariant sb == sb0 + LineText(RowOf(boardString, boardSize, row), boardSize, groupSize, col)
    {
      RowOfAt(boardString, boardSize, row, col);
      var ch := boardString[row * boardSize + col];
      sb := sb + [ch];
      sb := sb + " ";
      if (col + 1) % groupSize == 0 && col != boardSize - 1 {
        sb := sb + "| ";
      }
      col := col + 1;
    }
  }

  // ---------------------------------------------------------------------------
  // Reading the cells back

  /** A char `FormatBoard` adds around the cells. */
  predicate Decoration(ch: char)
  {
    ch == ' ' || ch == '|' || ch == '-' || ch == '\n'
  }

  /** No char of t is a decoration. */
  predicate Clean(t: string)
  {
    forall i :: 0 <= i < |t| ==> !Decoration(t[i])
  }

  /** The text without its decorations. */
  function Strip(t: string): string
  {
    if |t| == 0 then ""
    else Strip(t[..|t| - 1]) + (if Decoration(t[|t| - 1]) then "" else [t[|t| - 1]])
  }

  lemma {:induction false} StripAppend(a: string, b: string)
    ensures Strip(a + b) == Strip(a) + Strip(b)
    decreases |b|
  {
    if |b| == 0 {
      assert a + b == a;
    } else {
      var b' := b[..|b| - 1];
      assert (a + b)[..|a + b| - 1] == a + b';
      StripAppend(a, b');
    }
  }

  lemma StripDecorations(t: string)
    requires forall i :: 0 <= i < |t| ==> Decoration(t[i])
    ensures Strip(t) == ""
    decreases |t|
  {
    if |t| > 0 {
      StripDecorations(t[..|t| - 1]);
    }
  }

  /** A cell's text strips to its char. */
  lemma StripCell(ch: char, n: int, gs: int, col: int)
    requires gs >= 1 && !Decoration(ch)
    ensures Strip(CellText(ch, n, gs, col)) == [ch]
  {
    var tail := if (col + 1) % gs == 0 && col != n - 1 then "| " else "";
    StripAppend([ch, ' '], tail);
    StripAppend([ch], [' ']);
    StripDecorations(tail);
    StripDecorations([' ']);
    assert [ch, ' '] == [ch] + [' '];
    assert [ch][..0] == "";
  }

  /** The first k cells of a line strip to its first k chars. */
  lemma {:induction false} StripLine(line: string, n: int, gs: int, k: nat)
    requires gs >= 1 && k <= |line| && Clean(line)
    ensures Strip(LineText(line, n, gs, k)) == line[..k]
  {
    if k > 0 {
      StripLine(line, n, gs, k - 1);
      StripAppend(LineText(line, n, gs, k - 1), CellText(line[k - 1], n, gs, k - 1));
      StripCell(line[k - 1], n, gs, k - 1);
      assert line[..k] == line[..k - 1] + [line[k - 1]];
    }
  }

  /** What follows a line is all decoration. */
  lemma StripRowEnd(n: int, gs: int, row: int)
    requires n >= 1 && gs >= 1
    ensures Strip(RowEnd(n, gs, row)) == ""
  {
    var end := RowEnd(n, gs, row);
    forall i | 0 <= i < |end|
      ensures Decoration(end[i])
    {
    }
    StripDecorations(end);
  }

  /** The first k lines of a layout of clean rows strip to those rows, one after the
      other. */
  lemma {:induction false} StripLayout(rows: seq<string>, n: int, gs: int, k: nat)
    requires n >= 1 && gs >= 1 && k <= |rows|
    requires forall i :: 0 <= i < |rows| ==> Clean(rows[i])
    ensures Strip(Layout(rows, n, gs, k)) == Joined(rows, k)
  {
    if k > 0 {
      StripLayout(rows, n, gs, k - 1);
      var line := rows[k - 1];
      var before, text, end := Layout(rows, n, gs, k - 1), LineText(line, n, gs, |line|), RowEnd(n, gs, k - 1);
      StripAppend(before + text, end);
      StripAppend(before, text);
      StripLine(line, n, gs, |line|);
      StripRowEnd(n, gs, k - 1);
      assert line[..|line|] == line;
    }
  }

  /** The rows of a clean board string are clean. */
  lemma RowsClean(s: string, n: int)
    requires 1 <= n && n * n <= |s| && Clean(s[..n * n])
    ensures forall i :: 0 <= i < n ==> Clean(RowOf(s, n, i))
  {
    forall row, i | 0 <= row < n && 0 <= i < n
      ensures !Decoration(RowOf(s, n, row)[i])
    {
      RowOfAt(s, n, row, i);
      assert s[..n * n][row * n + i] == s[row * n + i];
    }
  }

  /** Round trip: without its spaces, bars, dashes and line breaks, the formatted text is
      the board string's first n * n chars, in row-major order, when none of those chars is
      itself a decoration. */
  lemma FormattedCells(s: string, n: int)
    requires n >= 1 && n * n <= |s|
    requires Clean(s[..n * n])
    ensures Strip(Formatted(s, n)) == s[..n * n]
  {
    RowsClean(s, n);
    StripLayout(Rows(s, n, n), n, ISqrt(n), n);
    JoinedRows(s, n, n);
  }

  // ---------------------------------------------------------------------------
  // Widths

  /** A line takes 2k chars for its first k cells, plus 2 for each block boundary among
      them that is not the last column. */
  lemma {:induction false} LineWidth(line: string, n: int, gs: int, k: nat)
    requires gs >= 1 && 1 <= n && k <= |line| == n
    ensures |LineText(line, n, gs, k)| == 2 * k + 2 * (if k == n && n % gs == 0 then k / gs - 1 else k / gs)
  {
    if k > 0 {
      LineWidth(line, n, gs, k - 1);
      DivStep(k, gs);
    }
  }

  /** k / gs grows by one exactly where k is a multiple of gs. */
  lemma DivStep(k: int, gs: int)
    requires k >= 1 && gs >= 1
    ensures k / gs == (k - 1) / gs + (if k % gs == 0 then 1 else 0)
  {
    DivChar(k - 1, gs);
    var q, r := (k - 1) / gs, (k - 1) % gs;
    if r == gs - 1 {
      Distrib(1, q + 1, gs);
      DivMulAdd(q + 1, gs, 0);
    } else {
      DivMulAdd(q, gs, r + 1);
    }
  }

  /** On a board of side n = gs * gs, the layout's group size is gs, and a cell line (its
      trailing space included) is gs - 1 chars longer than the dash line drawn between
      blocks: 2n + 2gs - 2 against 2n + gs - 1. From gs = 2 on, the dash line stops short
      of the last column. */
  lemma DashLineShorter(line: string, gs: nat)
    requires gs >= 1 && |line| == gs * gs
    ensures var n := gs * gs;
      |LineText(line, n, ISqrt(n), n)| == |Dashes(2 * n + ISqrt(n) - 1)| + gs - 1
  {
    var n := gs * gs;
    ISqrtOfSquare(gs);
    LineWidth(line, n, gs, n);
    DivMulAdd(gs, gs, 0);
  }
}
