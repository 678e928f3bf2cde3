/** `Heuristic`: what every deduction heuristic shares, namely the board, the masks, the
    move log and a queue of cells to look at again after a placement. The heuristics
    hold one of these as their base part. */
module HeuristicBase {
  import opened Arith
  import opened Bits
  import opened Rules
  import opened Moves
  import opened Trail
  import opened Masks
  import opened Board
  import opened MovesLog

  /** The cells of `cells`, in their order, that are empty in g and are not (row, col). */
  function EmptyOthers(g: Grid, cells: seq<Cell>, row: int, col: int): (q: seq<Cell>)
    ensures |q| <= |cells|
  {
    if |cells| == 0 then []
    else
      var last := cells[|cells| - 1];
      var q := EmptyOthers(g, cells[..|cells| - 1], row, col);
      if last != (row, col) && IsEmptyCell(g, last.0, last.1) then q + [last] else q
  }

  /** One turn of a scan that appends to q the kept cells of `cells`: cell k is appended
      exactly when it is kept. */
  lemma ScanStep(g: Grid, q: seq<Cell>, cells: seq<Cell>, k: int, row: int, col: int, cell: Cell)
    requires 0 <= k < |cells| && cells[k] == cell
    ensures q + EmptyOthers(g, cells[..k + 1], row, col) ==
      if cell != (row, col) && IsEmptyCell(g, cell.0, cell.1) then (q + EmptyOthers(g, cells[..k], row, col)) + [cell]
      else q + EmptyOthers(g, cells[..k], row, col)
  {
    assert cells[..k + 1][..k] == cells[..k];
  }

  /** Scanning one more row of the block. */
  lemma BlockRowsStep(g: Grid, q: seq<Cell>, startRow: int, startCol: int, bs: nat, r: nat, row: int, col: int)
    ensures (q + EmptyOthers(g, BlockRows(startRow, startCol, bs, r), row, col)) +
              EmptyOthers(g, Segment(startRow + r, startCol, bs), row, col) ==
            q + EmptyOthers(g, BlockRows(startRow, startCol, bs, r + 1), row, col)
  {
    EmptyOthersConcat(g, BlockRows(startRow, startCol, bs, r), Segment(startRow + r, startCol, bs), row, col);
  }

  lemma AppendThree(a: seq<Cell>, b: seq<Cell>, c: seq<Cell>, d: seq<Cell>)
    ensures ((a + b) + c) + d == a + ((b + c) + d)
  {
  }

  /** A cell is kept exactly when it is one of `cells`, empty, and not (row, col). */
  lemma {:induction false} EmptyOthersHas(g: Grid, cells: seq<Cell>, row: int, col: int, cell: Cell)
    ensures cell in EmptyOthers(g, cells, row, col) <==>
      cell in cells && cell != (row, col) && IsEmptyCell(g, cell.0, cell.1)
    decreases |cells|
  {
    if |cells| > 0 {
      var front := cells[..|cells| - 1];
      assert cells == front + [cells[|cells| - 1]];
      EmptyOthersHas(g, front, row, col, cell);
    }
  }

  /** Rows 0..k-1 of the block whose top left cell is (startRow, startCol), each row
      left to right. */
  function BlockRows(startRow: int, startCol: int, bs: nat, k: nat): seq<Cell>
  {
    if k == 0 then [] else BlockRows(startRow, startCol, bs, k - 1) + Segment(startRow + k - 1, startCol, bs)
  }

  /** The cells (r, c0), ..., (r, c0 + len - 1). */
  function Segment(r: int, c0: int, len: nat): seq<Cell>
  {
    seq(len, j => (r, c0 + j))
  }

  lemma SegmentAt(r: int, c0: int, len: nat, j: int)
    requires 0 <= j < len
    ensures |Segment(r, c0, len)| == len && Segment(r, c0, len)[j] == (r, c0 + j)
  {
  }

  lemma RowCellAt(n: nat, r: int, c: int)
    requires 0 <= c < n
    ensures |RowCells(n, r)| == n && RowCells(n, r)[c] == (r, c)
  {
  }

  lemma ColCellAt(n: nat, c: int, r: int)
    requires 0 <= r < n
    ensures |ColCells(n, c)| == n && ColCells(n, c)[r] == (r, c)
  {
  }

  /** What `AddAffectedCells(row, col)` enqueues: the empty cells of the row left to right,
      then of the column top to bottom, then of the block row by row, leaving out
      (row, col) itself. */
  function Affected(g: Grid, bs: nat, row: int, col: int): seq<Cell>
  {
    EmptyOthers(g, RowCells(|g|, row), row, col) +
    EmptyOthers(g, ColCells(|g|, col), row, col) +
    (if bs > 0 then EmptyOthers(g, BlockRows(row / bs * bs, col / bs * bs, bs, bs), row, col) else [])
  }

  lemma {:induction false} EmptyOthersConcat(g: Grid, a: seq<Cell>, b: seq<Cell>, row: int, col: int)
    ensures EmptyOthers(g, a + b, row, col) == EmptyOthers(g, a, row, col) + EmptyOthers(g, b, row, col)
    decreases |b|
  {
    if |b| > 0 {
      var b' := b[..|b| - 1];
      assert (a + b)[..|a + b| - 1] == a + b';
      EmptyOthersConcat(g, a, b', row, col);
    } else {
      assert a + b == a;
    }
  }

  /** The first k rows of a block hold the cells (startRow + i, startCol + j) with
      i < k and j < bs. */
  lemma {:induction false} BlockRowsCells(startRow: int, startCol: int, bs: nat, k: nat, cell: Cell)
    ensures cell in BlockRows(startRow, startCol, bs, k) <==>
      startRow <= cell.0 < startRow + k && startCol <= cell.1 < startCol + bs
  {
    if k > 0 {
      BlockRowsCells(startRow, startCol, bs, k - 1, cell);
      if cell.0 == startRow + k - 1 && startCol <= cell.1 < startCol + bs {
        SegmentAt(startRow + k - 1, startCol, bs, cell.1 - startCol);
      }
    }
  }

  /** The queue after a placement at (row, col) receives exactly the empty peers of that
      cell: every cell it receives is an empty peer on the board, and every empty peer is
      received. */
  lemma AffectedPeers(g: Grid, bs: nat, row: int, col: int)
    requires IsGrid(g) && Geometry(|g|, bs) && InBounds(|g|, row, col)
    ensures forall cell :: cell in Affected(g, bs, row, col) <==>
      InBounds(|g|, cell.0, cell.1) && cell != (row, col) && g[cell.0][cell.1] == 0 && Peers(bs, cell, (row, col))
  {
    var n := |g|;
    forall cell
      ensures cell in Affected(g, bs, row, col) <==>
        InBounds(n, cell.0, cell.1) && cell != (row, col) && g[cell.0][cell.1] == 0 && Peers(bs, cell, (row, col))
    {
      BlockIndexBound(n, bs, row, col);
      var startRow, startCol := row / bs * bs, col / bs * bs;
      EmptyOthersHas(g, RowCells(n, row), row, col, cell);
      EmptyOthersHas(g, ColCells(n, col), row, col, cell);
      EmptyOthersHas(g, BlockRows(startRow, startCol, bs, bs), row, col, cell);
      BlockRowsCells(startRow, startCol, bs, bs, cell);
      DivChar(row, bs);
      DivChar(col, bs);
      if startRow <= cell.0 < startRow + bs && startCol <= cell.1 < startCol + bs {
        DivMulAdd(row / bs, bs, cell.0 - startRow);
        DivMulAdd(col / bs, bs, cell.1 - startCol);
        MulMono(row / bs, bs, bs);
        MulMono(col / bs, bs, bs);
      }
      if InBounds(n, cell.0, cell.1) {
        SameBlockIndex(bs, cell.0, cell.1, row, col);
        DivChar(cell.0, bs);
        DivChar(cell.1, bs);
      }
      if cell in RowCells(n, row) || cell in ColCells(n, col) {
        assert InBounds(n, cell.0, cell.1);
      }
      if InBounds(n, cell.0, cell.1) && cell.0 == row {
        assert RowCells(n, row)[cell.1] == cell;
      }
      if InBounds(n, cell.0, cell.1) && cell.1 == col {
        assert ColCells(n, col)[cell.0] == cell;
      }
    }
  }

  class Heuristic {
    const board: SudokuBoard
    const maskManager: MaskManager
    const movesManager: MovesManager
    const boardSize: nat
    /** The work queue, front first. */
    var cellsToProcess: seq<Cell>

    ghost predicate Valid()
      reads board, maskManager, maskManager.rowMask, maskManager.colMask, maskManager.blockMask
    {
      board.Valid() && maskManager.Valid() && board.rows == maskManager.boardSize && boardSize == board.rows
    }

    /** Every queued cell lies on the board. */
    ghost predicate QueueOnBoard()
      reads this
    {
      CellsOnBoard(boardSize, cellsToProcess)
    }

    /** The board and its masks as a state value. */
    ghost function Now(): (s: Snapshot)
      reads board, board.board, maskManager, maskManager.rowMask, maskManager.colMask, maskManager.blockMask
      requires Valid()
      ensures Shaped(s, maskManager.blockSize) && |s.grid| == boardSize && s.grid == board.Cells()
    {
      maskManager.State(board.Cells())
    }

    /** `Heuristic(board, maskManager, movesManager)`: shares the three objects, with an
        empty queue. */
    constructor (board: SudokuBoard, maskManager: MaskManager, movesManager: MovesManager)
      requires board.Valid() && maskManager.Valid() && board.rows == maskManager.boardSize
      ensures Valid() && cellsToProcess == []
      ensures this.board == board && this.maskManager == maskManager && this.movesManager == movesManager
    {
      this.board := board;
      this.maskManager := maskManager;
      this.movesManager := movesManager;
      boardSize := board.BoardSize();
      cellsToProcess := [];
    }

    /** `GetAvailableDigits` on the current state. */
    lemma AvailableNow(row: int, col: int)
      requires Valid() && InBounds(boardSize, row, col)
      ensures maskManager.GetAvailableDigits(row, col) == Avail(Now(), maskManager.blockSize, row, col)
    {
    }

    /** Record `Move(row, col, 0, digit)`, write the digit and set its bits, in the order
        every heuristic does it. */
    method RecordAndPlace(row: int, col: int, digit: int)
      requires Valid() && InBounds(boardSize, row, col)
      modifies board.board, maskManager.rowMask, maskManager.colMask, maskManager.blockMask, movesManager
      ensures Valid()
      ensures movesManager.moveStack == old(movesManager.moveStack) + [Move(row, col, 0, digit)]
      ensures cellsToProcess == old(cellsToProcess)
      ensures Now() == Place(old(Now()), maskManager.blockSize, Move(row, col, 0, digit))
    {
      ghost var s := Now();
      movesManager.RecordMove(Move(row, col, 0, digit));
      board.SetCell(row, col, digit);
      maskManager.UpdateMasks(row, col, digit, true);
      maskManager.PlacingIsSetBits(s.grid, row, col, digit, s.rows, s.cols, s.blocks);
    }

    /** `AddAffectedCells(row, col)`: append the empty cells of the row, the column and the
        block of (row, col), other than (row, col) itself. The board and the masks are only
        read. */
    method AddAffectedCells(row: int, col: int)
      requires Valid() && InBounds(boardSize, row, col)
      modifies this
      ensures Valid() && Now() == old(Now()) && movesManager.moveStack == old(movesManager.moveStack)
      ensures cellsToProcess == old(cellsToProcess) + Affected(board.Cells(), maskManager.blockSize, row, col)
    {
      ghost var g := board.Cells();
      ghost var q0 := cellsToProcess;
      var blockSize := ISqrt(boardSize);
      AddRowPeers(row, col, g);
      ghost var q1 := cellsToProcess;
      AddColumnPeers(row, col, g);
      ghost var q2 := cellsToProcess;
      if blockSize > 0 {
        BlockIndexBound(boardSize, blockSize, row, col);
        MulMono(row / blockSize, blockSize, blockSize);
        MulMono(col / blockSize, blockSize, blockSize);
        MulNonneg(row / blockSize, blockSize);
        MulNonneg(col / blockSize, blockSize);
        var blockStartRow := (row / blockSize) * blockSize;
        var blockStartCol := (col / blockSize) * blockSize;
        AddBlockPeers(row, col, blockStartRow, blockStartCol, blockSize, g);
      }
      AppendThree(q0, q1[|q0|..], q2[|q1|..], cellsToProcess[|q2|..]);
    }

    /** The first loop of `AddAffectedCells`: the empty cells of the row. */
    method AddRowPeers(row: int, col: int, ghost g: Grid)
      requires board.Valid() && g == board.Cells() && InBounds(board.rows, row, col)
      modifies this
      ensures cellsToProcess == old(cellsToProcess) + EmptyOthers(g, RowCells(board.rows, row), row, col)
    {
      ghost var q0 := cellsToProcess;
      ghost var rowCells := RowCells(board.rows, row);
      var c := 0;
      while c < board.rows
        invariant 0 <= c <= board.rows
        invariant cellsToProcess == q0 + EmptyOthers(g, rowCells[..c], row, col)
      {
        RowCellAt(board.rows, row, c);
        ScanStep(g, q0, rowCells, c, row, col, (row, c));
        board.EmptyAt(row, c);
        if c != col && board.GetCell(row, c) == 0 {
          cellsToProcess := cellsToProcess + [(row, c)];
        }
        c := c + 1;
      }
      assert rowCells[..board.rows] == rowCells;
    }

    /** The second loop of `AddAffectedCells`: the empty cells of the column. */
    method AddColumnPeers(row: int, col: int, ghost g: Grid)
      requires board.Valid() && g == board.Cells() && InBounds(board.rows, row, col)
      modifies this
      ensures cellsToProcess == old(cellsToProcess) + EmptyOthers(g, ColCells(board.rows, col), row, col)
    {
      ghost var q0 := cellsToProcess;
      ghost var colCells := ColCells(board.rows, col);
      var r := 0;
      while r < board.rows
        invariant 0 <= r <= board.rows
        invariant cellsToProcess == q0 + EmptyOthers(g, colCells[..r], row, col)
      {
        ColCellAt(board.rows, col, r);
        ScanStep(g, q0, colCells, r, row, col, (r, col));
        board.EmptyAt(r, col);
        if r != row && board.GetCell(r, col) == 0 {
          cellsToProcess := cellsToProcess + [(r, col)];
        }
        r := r + 1;
      }
      assert colCells[..board.rows] == colCells;
    }

    /** The third loop of `AddAffectedCells`: the empty cells of the block, row by row. */
    method AddBlockPeers(row: int, col: int, blockStartRow: int, blockStartCol: int, blockSize: nat, ghost g: Grid)
      requires board.Valid() && g == board.Cells()
      requires 0 <= blockStartRow && blockStartRow + blockSize <= board.rows
      requires 0 <= blockStartCol && blockStartCol + blockSize <= board.rows
      modifies this
      ensures cellsToProcess == old(cellsToProcess) +
        EmptyOthers(g, BlockRows(blockStartRow, blockStartCol, blockSize, blockSize), row, col)
    {
      ghost var q0 := cellsToProcess;
      var r := 0;
      while r < blockSize
        invariant 0 <= r <= blockSize
        invariant cellsToProcess == q0 + EmptyOthers(g, BlockRows(blockStartRow, blockStartCol, blockSize, r), row, col)
      {
        AddBlockRow(row, col, blockStartRow, blockStartCol, blockSize, r, g);
        BlockRowsStep(g, q0, blockStartRow, blockStartCol, blockSize, r, row, col);
        r := r + 1;
      }
    }

    /** The inner loop of the block part of `AddAffectedCells`, over row r of the block. */
    method AddBlockRow(row: int, col: int, blockStartRow: int, blockStartCol: int, blockSize: nat, r: int, ghost g: Grid)
      requires board.Valid() && g == board.Cells() && 0 <= r < blockSize
      requires 0 <= blockStartRow && blockStartRow + blockSize <= board.rows
      requires 0 <= blockStartCol && blockStartCol + blockSize <= board.rows
      modifies this
      ensures cellsToProcess == old(cellsToProcess) +
        EmptyOthers(g, Segment(blockStartRow + r, blockStartCol, blockSize), row, col)
    {
      ghost var q := cellsToProcess;
      ghost var cells := Segment(blockStartRow + r, blockStartCol, blockSize);
      var c := 0;
      while c < blockSize
        invariant 0 <= c <= blockSize
        invariant cellsToProcess == q + EmptyOthers(g, cells[..c], row, col)
      {
        var currentRow := blockStartRow + r;
        var currentCol := blockStartCol + c;
        SegmentAt(currentRow, blockStartCol, blockSize, c);
        ScanStep(g, q, cells, c, row, col, (currentRow, currentCol));
        board.EmptyAt(currentRow, currentCol);
        if (currentRow != row || currentCol != col) && board.GetCell(currentRow, currentCol) == 0 {
          cellsToProcess := cellsToProcess + [(currentRow, currentCol)];
        }
        c := c + 1;
      }
      assert cells[..blockSize] == cells;
    }
  }
}
