/** `MaskManager`: one 32-bit mask per row, column and block, bit d-1 set when digit d
    is used there. */
module Masks {
  import opened Arith
  import opened Bits
  import opened Rules
  import opened Moves
  import opened Trail
  import opened Validation
  import opened Board

  /** `(1 << boardSize) - 1` as the constructor computes it: the shift count is taken
      modulo 32. */
  function FullMaskAsWritten(n: int): (m: nat)
    ensures IsWord(m)
  {
    ShiftOne(n) - 1
  }

  /** Below 32 the expression is the mask of digits 1..n. */
  lemma FullMaskBelowWord(n: nat)
    requires n < WordBits
    ensures FullMaskAsWritten(n) == LowMask(n)
  {
    assert n % WordBits == n;
  }

  /** For n = 32, which the masks can still hold, the expression is 0 and no digit is ever
      available; for the 36 x 36 board the user interface accepts it is 15 (digits 1..4). */
  lemma FullMaskWraps()
    ensures FullMaskAsWritten(32) == 0 && Has(LowMask(32), 32)
    ensures FullMaskAsWritten(36) == 15 && forall d :: Has(FullMaskAsWritten(36), d) <==> 1 <= d <= 4
  {
    assert 32 % WordBits == 0;
    assert 36 % WordBits == 4;
    assert Pow2(4) == 16;
    assert LowMask(4) == 15;
  }

  /** Every cell (r, c) of rows above `row`, and of `row` left of `col`. */
  predicate Before(r: int, c: int, row: int, col: int)
  {
    r < row || (r == row && c < col)
  }

  /** The cells of g that UpdateFromBoard has visited up to (row, col); the others empty. */
  ghost function Seen(g: Grid, row: int, col: int): (h: Grid)
    requires IsGrid(g)
    ensures |h| == |g| && IsGrid(h)
    ensures forall r, c :: InBounds(|g|, r, c) ==> h[r][c] == if Before(r, c, row, col) then g[r][c] else 0
  {
    var n := |g|;
    seq(n, r requires 0 <= r < n => seq(n, c requires 0 <= c < n => if Before(r, c, row, col) then g[r][c] else 0))
  }

  /** A grid without placed digits. */
  ghost predicate Empty(g: Grid)
  {
    IsGrid(g) && forall r, c :: InBounds(|g|, r, c) ==> g[r][c] == 0
  }

  lemma SeenStep(g: Grid, row: int, col: int)
    requires IsGrid(g) && InBounds(|g|, row, col)
    ensures g[row][col] == 0 ==> Seen(g, row, col + 1) == Seen(g, row, col)
    ensures Seen(g, row, col + 1) == Update(Seen(g, row, col), row, col, g[row][col])
  {
    var h, h' := Seen(g, row, col), Seen(g, row, col + 1);
    var u := Update(h, row, col, g[row][col]);
    assert forall r | 0 <= r < |g| :: h'[r] == u[r];
    if g[row][col] == 0 {
      assert forall r | 0 <= r < |g| :: h'[r] == h[r];
    }
  }

  lemma SeenRowEnd(g: Grid, row: int)
    requires IsGrid(g)
    ensures Seen(g, row, |g|) == Seen(g, row + 1, 0)
  {
    var h, h' := Seen(g, row, |g|), Seen(g, row + 1, 0);
    assert forall r | 0 <= r < |g| :: h[r] == h'[r];
  }

  lemma SeenAll(g: Grid)
    requires IsGrid(g)
    ensures Seen(g, |g|, 0) == g
    ensures Empty(Seen(g, 0, 0))
  {
    var h := Seen(g, |g|, 0);
    assert forall r | 0 <= r < |g| :: h[r] == g[r];
  }

  /** Zero masks agree with a grid without digits. */
  lemma EmptyAgree(s: Snapshot, bs: int)
    requires Shaped(s, bs) && Empty(s.grid)
    requires forall i :: 0 <= i < |s.grid| ==> s.rows[i] == 0 && s.cols[i] == 0 && s.blocks[i] == 0
    ensures Agree(s, bs)
  {
    forall i, d | 0 <= i < |s.grid| && 1 <= d <= WordBits
      ensures !Has(s.rows[i], d) && !Has(s.cols[i], d) && !Has(s.blocks[i], d)
    {
      ZeroBits(d - 1);
    }
  }

  /** The mask after `|= bit` (placing) or `&= ~bit` (removing) for the bit of digit d. */
  function MaskAfter(x: nat, d: int, isPlacing: bool): nat
  {
    if isPlacing then Or(x, DigitBit(d)) else And(x, Not(DigitBit(d)))
  }

  /** `fullMask & ~(rowBits | colBits | blockBits)`: the digits of fullMask that none of
      the three masks holds. */
  function AvailableFrom(rowBits: nat, colBits: nat, blockBits: nat, full: nat): (avail: nat)
    requires IsWord(rowBits) && IsWord(colBits) && IsWord(blockBits) && IsWord(full)
    ensures IsWord(avail)
    ensures forall d :: Has(avail, d) <==>
      Has(full, d) && !Has(rowBits, d) && !Has(colBits, d) && !Has(blockBits, d)
  {
    WordOr(rowBits, colBits);
    var used := Or(Or(rowBits, colBits), blockBits);
    WordOr(Or(rowBits, colBits), blockBits);
    WordAnd(full, Not(used));
    forall d
      ensures Has(And(full, Not(used)), d) <==>
        Has(full, d) && !Has(rowBits, d) && !Has(colBits, d) && !Has(blockBits, d)
    {
      HasAnd(full, Not(used), d);
      HasNot(used, d);
      HasOr(Or(rowBits, colBits), blockBits, d);
      HasOr(rowBits, colBits, d);
    }
    And(full, Not(used))
  }

  /** The digits available at (r, c) in state s, as `GetAvailableDigits` computes them. */
  function Avail(s: Snapshot, bs: int, r: int, c: int): (avail: nat)
    requires Shaped(s, bs) && InBounds(|s.grid|, r, c)
    ensures IsWord(avail)
    ensures 0 <= BlockIndex(bs, r, c) < |s.grid|
    ensures forall d :: Has(avail, d) <==>
      1 <= d <= |s.grid| && !Has(s.rows[r], d) && !Has(s.cols[c], d) && !Has(s.blocks[BlockIndex(bs, r, c)], d)
  {
    BlockIndexBound(|s.grid|, bs, r, c);
    AvailableFrom(s.rows[r], s.cols[c], s.blocks[BlockIndex(bs, r, c)], LowMask(|s.grid|))
  }

  /** The state after the inner loop of UpdateFromBoard has placed the digits of row `row`
      from column col on. */
  ghost function RowScan(s: Snapshot, bs: int, g: Grid, row: int, col: int): (t: Snapshot)
    requires Shaped(s, bs) && IsGrid(g) && |g| == |s.grid| && 0 <= row < |g| && 0 <= col <= |g|
    ensures Shaped(t, bs) && |t.grid| == |s.grid|
    decreases |g| - col
  {
    if col == |g| then s
    else
      var next := if g[row][col] != 0 then Place(s, bs, Move(row, col, 0, g[row][col])) else s;
      RowScan(next, bs, g, row, col + 1)
  }

  /** The state after the outer loop of UpdateFromBoard has scanned the rows from `row` on. */
  ghost function BoardScan(s: Snapshot, bs: int, g: Grid, row: int): (t: Snapshot)
    requires Shaped(s, bs) && IsGrid(g) && |g| == |s.grid| && 0 <= row <= |g|
    ensures Shaped(t, bs) && |t.grid| == |s.grid|
    decreases |g| - row
  {
    if row == |g| then s else BoardScan(RowScan(s, bs, g, row, 0), bs, g, row + 1)
  }

  /** Scanning a row from a state whose masks describe the cells seen so far sets the bits
      of that row's digits, and the masks then describe the cells seen after it. */
  lemma {:induction false} RowScanAgree(s: Snapshot, bs: int, g: Grid, row: int, col: int)
    requires Agree(s, bs) && InRange(g) && |g| == |s.grid| && 0 <= row < |g| && 0 <= col <= |g|
    requires s.grid == Seen(g, row, col)
    ensures Agree(RowScan(s, bs, g, row, col), bs) && RowScan(s, bs, g, row, col).grid == Seen(g, row + 1, 0)
    decreases |g| - col
  {
    if col == |g| {
      SeenRowEnd(g, row);
    } else {
      SeenStep(g, row, col);
      if g[row][col] != 0 {
        PlaceAgree(s, bs, Move(row, col, 0, g[row][col]));
        RowScanAgree(Place(s, bs, Move(row, col, 0, g[row][col])), bs, g, row, col + 1);
      } else {
        RowScanAgree(s, bs, g, row, col + 1);
      }
    }
  }

  lemma {:induction false} BoardScanAgree(s: Snapshot, bs: int, g: Grid, row: int)
    requires Agree(s, bs) && InRange(g) && |g| == |s.grid| && 0 <= row <= |g|
    requires s.grid == Seen(g, row, 0)
    ensures Agree(BoardScan(s, bs, g, row), bs) && BoardScan(s, bs, g, row).grid == g
    decreases |g| - row
  {
    if row == |g| {
      SeenAll(g);
    } else {
      RowScanAgree(s, bs, g, row, 0);
      BoardScanAgree(RowScan(s, bs, g, row, 0), bs, g, row + 1);
    }
  }

  class MaskManager {
    const boardSize: nat
    const blockSize: nat
    const fullMask: nat
    const rowMask: array<nat>
    const colMask: array<nat>
    const blockMask: array<nat>

    ghost predicate Valid()
      reads this, rowMask, colMask, blockMask
    {
      boardSize <= WordBits && Geometry(boardSize, blockSize) && blockSize == ISqrt(boardSize) &&
      fullMask == LowMask(boardSize) &&
      rowMask.Length == boardSize && colMask.Length == boardSize && blockMask.Length == boardSize &&
      rowMask != colMask && rowMask != blockMask && colMask != blockMask &&
      forall i :: 0 <= i < boardSize ==> IsWord(rowMask[i]) && IsWord(colMask[i]) && IsWord(blockMask[i])
    }

    /** The masks together with the grid g they are meant to describe. */
    ghost function State(g: Grid): (s: Snapshot)
      reads this, rowMask, colMask, blockMask
      ensures Valid() && IsGrid(g) && |g| == boardSize ==> Shaped(s, blockSize)
    {
      Snapshot(g, rowMask[..], colMask[..], blockMask[..])
    }

    /** `MaskManager(boardSize)`: all masks empty. */
    constructor (boardSize: nat)
      requires boardSize <= WordBits && IsPerfectSquare(boardSize)
      ensures Valid() && this.boardSize == boardSize && blockSize == ISqrt(boardSize)
      ensures fresh(rowMask) && fresh(colMask) && fresh(blockMask)
      ensures forall i :: 0 <= i < boardSize ==> rowMask[i] == 0 && colMask[i] == 0 && blockMask[i] == 0
    {
      this.boardSize := boardSize;
      blockSize := ISqrt(boardSize);
      fullMask := LowMask(boardSize);
      rowMask := new nat[boardSize](i => 0);
      colMask := new nat[boardSize](i => 0);
      blockMask := new nat[boardSize](i => 0);
    }

    /** `GetBlockIndex`: the blocks are numbered 0..n-1, and two cells get the same number
        exactly when they lie in the same block. */
    function GetBlockIndex(row: int, col: int): (b: int)
      reads this, rowMask, colMask, blockMask
      requires Valid() && InBounds(boardSize, row, col)
      ensures 0 <= b < boardSize && b == BlockIndex(blockSize, row, col)
      ensures row / blockSize * blockSize <= row < row / blockSize * blockSize + blockSize
      ensures forall r, c :: InBounds(boardSize, r, c) ==>
        (BlockIndex(blockSize, r, c) == b <==> r / blockSize == row / blockSize && c / blockSize == col / blockSize)
    {
      BlockIndexBound(boardSize, blockSize, row, col);
      DivChar(row, blockSize);
      forall r, c | InBounds(boardSize, r, c)
        ensures BlockIndex(blockSize, r, c) == BlockIndex(blockSize, row, col) <==>
          r / blockSize == row / blockSize && c / blockSize == col / blockSize
      {
        SameBlockIndex(blockSize, r, c, row, col);
      }
      row / blockSize * blockSize + col / blockSize
    }

    /** `UpdateMasks`: placing sets the digit's bit in the cell's row, column and block
        masks; removing clears it. Every other mask is unchanged. */
    method UpdateMasks(row: int, col: int, digit: int, isPlacing: bool)
      requires Valid() && InBounds(boardSize, row, col)
      modifies rowMask, colMask, blockMask
      ensures Valid()
      ensures var b := BlockIndex(blockSize, row, col);
        0 <= b < boardSize &&
        rowMask[..] == old(rowMask[..])[row := MaskAfter(old(rowMask[row]), digit, isPlacing)] &&
        colMask[..] == old(colMask[..])[col := MaskAfter(old(colMask[col]), digit, isPlacing)] &&
        blockMask[..] == old(blockMask[..])[b := MaskAfter(old(blockMask[b]), digit, isPlacing)]
    {
      var bit := DigitBit(digit);
      var b := GetBlockIndex(row, col);
      if isPlacing {
        WordOr(rowMask[row], bit);
        WordOr(colMask[col], bit);
        WordOr(blockMask[b], bit);
        rowMask[row] := Or(rowMask[row], bit);
        colMask[col] := Or(colMask[col], bit);
        blockMask[b] := Or(blockMask[b], bit);
      } else {
        WordAnd(rowMask[row], Not(bit));
        WordAnd(colMask[col], Not(bit));
        WordAnd(blockMask[b], Not(bit));
        rowMask[row] := And(rowMask[row], Not(bit));
        colMask[col] := And(colMask[col], Not(bit));
        blockMask[b] := And(blockMask[b], Not(bit));
      }
    }

    /** Placing through UpdateMasks is the placement of the state model. */
    lemma PlacingIsSetBits(g: Grid, row: int, col: int, d: int, rows: seq<nat>, cols: seq<nat>, blocks: seq<nat>)
      requires Valid() && Shaped(Snapshot(g, rows, cols, blocks), blockSize) && InBounds(boardSize, row, col)
      requires |g| == boardSize
      requires var b := BlockIndex(blockSize, row, col);
        0 <= b < boardSize &&
        rowMask[..] == rows[row := MaskAfter(rows[row], d, true)] &&
        colMask[..] == cols[col := MaskAfter(cols[col], d, true)] &&
        blockMask[..] == blocks[b := MaskAfter(blocks[b], d, true)]
      ensures State(Update(g, row, col, d)) == Place(Snapshot(g, rows, cols, blocks), blockSize, Move(row, col, 0, d))
    {
    }

    /** UpdateMasks through the state model: placing sets the digit's three bits, removing
        clears them. */
    lemma UpdateIsBits(s: Snapshot, row: int, col: int, d: int, isPlacing: bool)
      requires Valid() && Shaped(s, blockSize) && |s.grid| == boardSize && InBounds(boardSize, row, col)
      requires var b := BlockIndex(blockSize, row, col);
        0 <= b < boardSize &&
        rowMask[..] == s.rows[row := MaskAfter(s.rows[row], d, isPlacing)] &&
        colMask[..] == s.cols[col := MaskAfter(s.cols[col], d, isPlacing)] &&
        blockMask[..] == s.blocks[b := MaskAfter(s.blocks[b], d, isPlacing)]
      ensures State(s.grid) == if isPlacing then SetBits(s, blockSize, row, col, d) else ClearBits(s, blockSize, row, col, d)
    {
    }

    /** `UpdateFromBoard`: starting from empty masks, sets the bit of every digit on the
        board, so that afterwards the masks describe the board exactly. */
    method UpdateFromBoard(board: SudokuBoard)
      requires Valid() && board.Valid() && board.rows == boardSize && InRange(board.Cells())
      requires forall i :: 0 <= i < boardSize ==> rowMask[i] == 0 && colMask[i] == 0 && blockMask[i] == 0
      modifies rowMask, colMask, blockMask
      ensures Valid()
      ensures Agree(State(board.Cells()), blockSize)
    {
      ghost var g := board.Cells();
      SeenAll(g);
      ghost var s0 := State(Seen(g, 0, 0));
      EmptyAgree(s0, blockSize);
      ghost var target := BoardScan(s0, blockSize, g, 0);
      BoardScanAgree(s0, blockSize, g, 0);
      var row := 0;
      while row < boardSize
        invariant 0 <= row <= boardSize && Valid()
        invariant Shaped(State(Seen(g, row, 0)), blockSize)
        invariant BoardScan(State(Seen(g, row, 0)), blockSize, g, row) == target
      {
        UpdateFromRow(board, row, g);
        row := row + 1;
      }
      assert State(g) == target;
    }

    /** The inner loop of `UpdateFromBoard`, over the cells of one row. */
    method UpdateFromRow(board: SudokuBoard, row: int, ghost g: Grid)
      requires Valid() && board.Valid() && board.rows == boardSize && g == board.Cells() && InRange(g)
      requires 0 <= row < boardSize && Shaped(State(Seen(g, row, 0)), blockSize)
      modifies rowMask, colMask, blockMask
      ensures Valid() && Shaped(State(Seen(g, row + 1, 0)), blockSize)
      ensures State(Seen(g, row + 1, 0)) == RowScan(old(State(Seen(g, row, 0))), blockSize, g, row, 0)
    {
      ghost var target := RowScan(State(Seen(g, row, 0)), blockSize, g, row, 0);
      var col := 0;
      while col < boardSize
        invariant 0 <= col <= boardSize && Valid()
        invariant Shaped(State(Seen(g, row, col)), blockSize)
        invariant RowScan(State(Seen(g, row, col)), blockSize, g, row, col) == target
      {
        var num := board.GetCell(row, col);
        SeenStep(g, row, col);
        if num != 0 {
          ghost var s := State(Seen(g, row, col));
          UpdateMasks(row, col, num, true);
          PlacingIsSetBits(Seen(g, row, col), row, col, num, s.rows, s.cols, s.blocks);
        }
        col := col + 1;
      }
      SeenRowEnd(g, row);
    }

    /** `GetAvailableDigits`: the digits 1..n that neither the row, the column nor the
        block of the cell uses. */
    function GetAvailableDigits(row: int, col: int): (avail: nat)
      reads this, rowMask, colMask, blockMask
      requires Valid() && InBounds(boardSize, row, col)
      ensures IsWord(avail)
      ensures forall d :: Has(avail, d) <==>
        1 <= d <= boardSize && !Has(rowMask[row], d) && !Has(colMask[col], d) &&
        !Has(blockMask[GetBlockIndex(row, col)], d)
    {
      AvailableFrom(rowMask[row], colMask[col], blockMask[GetBlockIndex(row, col)], fullMask)
    }

    /** With masks that describe the board, the available digits of a cell are its
        candidates. */
    lemma AvailableAreCandidates(g: Grid, row: int, col: int)
      requires Valid() && Agree(State(g), blockSize) && InBounds(boardSize, row, col)
      ensures forall d :: Has(GetAvailableDigits(row, col), d) <==> IsCandidate(g, blockSize, row, col, d)
    {
      forall d
        ensures Has(GetAvailableDigits(row, col), d) <==> IsCandidate(g, blockSize, row, col, d)
      {
        AgreeCandidate(State(g), blockSize, row, col, d);
      }
    }
  }
}
