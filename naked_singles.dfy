/** `NakedSinglesHeuristic`: fill every empty cell that has exactly one available digit.
    A scan of the whole board is followed by a work queue of the cells whose available
    digits a placement may have reduced, so that when the queue runs dry no naked single
    is left anywhere on the board. */
module NakedSingles {
  import opened Bits
  import opened Rules
  import opened Moves
  import opened Trail
  import opened Masks
  import opened Progress
  import opened Deductions
  import opened HeuristicBase

  /** No cell visited so far (before (row, col) in row-major order) and not waiting in the
      queue q is a naked single. */
  ghost predicate Settled(s: Snapshot, bs: nat, q: seq<Cell>, row: int, col: int)
  {
    forall r, c :: InBounds(|s.grid|, r, c) && Before(r, c, row, col) && (r, c) !in q ==> !NakedAt(s, bs, r, c)
  }

  /** A placement leaves the available digits of every cell outside its row, column and
      block as they were. */
  lemma AvailUnaffected(s: Snapshot, bs: nat, m: Move, r: int, c: int)
    requires CanPlace(s, bs, m) && InBounds(|s.grid|, r, c) && !Peers(bs, (r, c), (m.row, m.col))
    ensures Avail(Place(s, bs, m), bs, r, c) == Avail(s, bs, r, c)
  {
  }

  /** After a placement, the cells that can have become naked singles are the empty peers
      of the placed cell, which `AddAffectedCells` queues. */
  lemma PlaceSettles(s: Snapshot, bs: nat, q: seq<Cell>, rest: seq<Cell>, row: int, col: int, m: Move)
    requires CanPlace(s, bs, m) && Settled(s, bs, q, row, col)
    requires forall cell :: cell in q ==> cell in rest || cell == (m.row, m.col)
    ensures var t := Place(s, bs, m);
      Settled(t, bs, rest + Affected(t.grid, bs, m.row, m.col), row, col) && !NakedAt(t, bs, m.row, m.col)
  {
    var t := Place(s, bs, m);
    var q' := rest + Affected(t.grid, bs, m.row, m.col);
    AffectedPeers(t.grid, bs, m.row, m.col);
    forall r, c | InBounds(|t.grid|, r, c) && Before(r, c, row, col) && (r, c) !in q'
      ensures !NakedAt(t, bs, r, c)
    {
      if (r, c) != (m.row, m.col) && t.grid[r][c] == 0 {
        assert !Peers(bs, (r, c), (m.row, m.col));
        AvailUnaffected(s, bs, m, r, c);
      }
    }
  }

  /** A cell that is no naked single may leave the queue. */
  lemma KeepSettled(s: Snapshot, bs: nat, q: seq<Cell>, rest: seq<Cell>, row: int, col: int, cell: Cell)
    requires Settled(s, bs, q, row, col) && !NakedAt(s, bs, cell.0, cell.1)
    requires forall x :: x in q ==> x in rest || x == cell
    ensures Settled(s, bs, rest, row, col)
  {
  }

  /** Moving past a cell that is no naked single. */
  lemma SettledNext(s: Snapshot, bs: nat, q: seq<Cell>, row: int, col: int)
    requires Settled(s, bs, q, row, col) && !NakedAt(s, bs, row, col)
    ensures Settled(s, bs, q, row, col + 1)
  {
  }

  lemma SettledRowEnd(s: Snapshot, bs: nat, q: seq<Cell>, row: int)
    requires Settled(s, bs, q, row, |s.grid|)
    ensures Settled(s, bs, q, row + 1, 0)
  {
  }

  /** With every cell visited and the queue empty, no naked single is left. */
  lemma SettledAll(s: Snapshot, bs: nat)
    requires Settled(s, bs, [], |s.grid|, 0)
    ensures !HasNaked(s, bs)
  {
  }

  /** Placing the digit of a naked single extends a trail of forced placements, keeps the
      masks in agreement with the board and fills one more cell. The first such placement
      happens on the state the trail started from. */
  lemma NakedStep(s0: Snapshot, st0: seq<Move>, s1: Snapshot, st1: seq<Move>, bs: nat, r: int, c: int, progress: bool)
    requires Advanced(s0, st0, s1, st1, bs, true) && Agree(s1, bs) && NakedAt(s1, bs, r, c)
    requires (progress <==> |st1| > |st0|) && (progress ==> HasNaked(s0, bs))
    ensures Avail(s1, bs, r, c) != 0
    ensures var m := Move(r, c, 0, LowestDigit(Avail(s1, bs, r, c)));
      CanPlace(s1, bs, m) && Advanced(s0, st0, Place(s1, bs, m), st1 + [m], bs, true) &&
      Agree(Place(s1, bs, m), bs) && HasNaked(s0, bs) &&
      EmptyCount(Place(s1, bs, m).grid) < EmptyCount(s1.grid)
  {
    NakedForced(s1, bs, r, c);
    var m := Move(r, c, 0, LowestDigit(Avail(s1, bs, r, c)));
    AdvanceStep(s0, st0, s1, st1, bs, true, m);
    PlaceAgree(s1, bs, m);
    EmptyCountUpdate(s1.grid, r, c, m.newValue);
    if !progress {
      NothingPushed(s0, st0, s1, st1, bs, true);
    }
  }

  class NakedSinglesHeuristic {
    const base: Heuristic

    /** The shared objects fit together and every queued cell lies on the board. */
    ghost predicate Valid()
      reads base, base.board, base.maskManager, base.maskManager.rowMask, base.maskManager.colMask,
            base.maskManager.blockMask
    {
      base.Valid() && base.QueueOnBoard()
    }

    constructor (board: Board.SudokuBoard, maskManager: MaskManager, movesManager: MovesLog.MovesManager)
      requires board.Valid() && maskManager.Valid() && board.rows == maskManager.boardSize
      ensures Valid() && fresh(base) && base.cellsToProcess == []
      ensures base.board == board && base.maskManager == maskManager && base.movesManager == movesManager
    {
      base := new Heuristic(board, maskManager, movesManager);
    }

    /** `MakeMove(row, col)`: when the available mask of the cell has exactly one bit, record
        `Move(row, col, 0, digit)` for the digit of that bit, write it and set its bits;
        otherwise (no bit, or several) change nothing. */
    method MakeMove(row: int, col: int) returns (placed: bool)
      requires base.Valid() && InBounds(base.boardSize, row, col)
      modifies base.board.board, base.maskManager.rowMask, base.maskManager.colMask, base.maskManager.blockMask,
               base.movesManager
      ensures base.Valid() && base.cellsToProcess == old(base.cellsToProcess)
      ensures placed <==> PopCount(Avail(old(base.Now()), base.maskManager.blockSize, row, col)) == 1
      ensures placed ==>
        var avail := Avail(old(base.Now()), base.maskManager.blockSize, row, col);
        avail != 0 &&
        var m := Move(row, col, 0, LowestDigit(avail));
        base.movesManager.moveStack == old(base.movesManager.moveStack) + [m] &&
        base.Now() == Place(old(base.Now()), base.maskManager.blockSize, m)
      ensures !placed ==> base.Now() == old(base.Now()) && base.movesManager.moveStack == old(base.movesManager.moveStack)
    {
      var available := base.maskManager.GetAvailableDigits(row, col);
      base.AvailableNow(row, col);
      if available == 0 {
        CountBitsOfZero(WordBits);
        return false;
      }
      if PopCount(available) == 1 {
        var digit := TrailingZeroCount(available) + 1;
        base.RecordAndPlace(row, col, digit);
        return true;
      }
      return false;
    }

    /** `TryMove(row, col)`: on an empty cell that is a naked single, place its digit and
        queue the affected cells; a filled cell, or one that is no naked single, is left
        alone. */
    method TryMove(row: int, col: int) returns (moved: bool)
      requires Valid() && InBounds(base.boardSize, row, col)
      modifies base, base.board.board, base.maskManager.rowMask, base.maskManager.colMask, base.maskManager.blockMask,
               base.movesManager
      ensures Valid()
      ensures moved <==> NakedAt(old(base.Now()), base.maskManager.blockSize, row, col)
      ensures moved ==>
        var s, bs := old(base.Now()), base.maskManager.blockSize;
        Avail(s, bs, row, col) != 0 &&
        var m := Move(row, col, 0, LowestDigit(Avail(s, bs, row, col)));
        base.movesManager.moveStack == old(base.movesManager.moveStack) + [m] &&
        base.Now() == Place(s, bs, m) &&
        base.cellsToProcess == old(base.cellsToProcess) + Affected(base.Now().grid, bs, row, col)
      ensures !moved ==>
        base.Now() == old(base.Now()) && base.movesManager.moveStack == old(base.movesManager.moveStack) &&
        base.cellsToProcess == old(base.cellsToProcess)
    {
      if base.board.GetCell(row, col) == 0 {
        var placed := MakeMove(row, col);
        if placed {
          CountBitsOfZero(WordBits);
          ghost var t, queue := base.Now(), base.cellsToProcess;
          base.AddAffectedCells(row, col);
          ghost var affected := Affected(t.grid, base.maskManager.blockSize, row, col);
          assert base.cellsToProcess == queue + affected;
          AffectedPeers(t.grid, base.maskManager.blockSize, row, col);
          assert CellsOnBoard(base.boardSize, affected) by {
            forall i | 0 <= i < |affected| ensures InBounds(base.boardSize, affected[i].0, affected[i].1) {
              assert affected[i] in affected;
            }
          }
          CellsOnBoardAppend(base.boardSize, queue, affected);
          return true;
        }
      }
      return false;
    }

    /** `Apply`: scan every cell, then drain the queue. Returns whether anything was
        placed. Every placement is a forced one, the masks keep describing the board, and
        afterwards no naked single is left. */
    method Apply() returns (progressMade: bool)
      requires Valid() && Agree(base.Now(), base.maskManager.blockSize)
      modifies base, base.board.board, base.maskManager.rowMask, base.maskManager.colMask, base.maskManager.blockMask,
               base.movesManager
      ensures Valid() && Agree(base.Now(), base.maskManager.blockSize) && base.cellsToProcess == []
      ensures Advanced(old(base.Now()), old(base.movesManager.moveStack), base.Now(), base.movesManager.moveStack,
                       base.maskManager.blockSize, true)
      ensures progressMade <==> |base.movesManager.moveStack| > |old(base.movesManager.moveStack)|
      ensures progressMade <==> HasNaked(old(base.Now()), base.maskManager.blockSize)
      ensures !HasNaked(base.Now(), base.maskManager.blockSize)
    {
      ghost var bs := base.maskManager.blockSize;
      ghost var s0, st0 := base.Now(), base.movesManager.moveStack;
      Unmoved(s0, st0, bs, true);
      progressMade := false;
      var row := 0;
      while row < base.boardSize
        invariant 0 <= row <= base.boardSize && Valid() && Agree(base.Now(), bs)
        invariant Advanced(s0, st0, base.Now(), base.movesManager.moveStack, bs, true)
        invariant progressMade <==> |base.movesManager.moveStack| > |st0|
        invariant progressMade ==> HasNaked(s0, bs)
        invariant Settled(base.Now(), bs, base.cellsToProcess, row, 0)
      {
        progressMade := ScanRow(row, progressMade, s0, st0);
        SettledRowEnd(base.Now(), bs, base.cellsToProcess, row);
        row := row + 1;
      }
      while |base.cellsToProcess| > 0
        invariant Valid() && Agree(base.Now(), bs)
        invariant Advanced(s0, st0, base.Now(), base.movesManager.moveStack, bs, true)
        invariant progressMade <==> |base.movesManager.moveStack| > |st0|
        invariant progressMade ==> HasNaked(s0, bs)
        invariant Settled(base.Now(), bs, base.cellsToProcess, base.boardSize, 0)
        decreases EmptyCount(base.Now().grid), |base.cellsToProcess|
      {
        progressMade := ProcessNext(progressMade, s0, st0);
      }
      SettledAll(base.Now(), bs);
      if !progressMade {
        NothingPushed(s0, st0, base.Now(), base.movesManager.moveStack, bs, true);
      }
    }

    /** The inner loop of the scan in `Apply`: visit the cells of one row. */
    method ScanRow(row: int, progress: bool, ghost s0: Snapshot, ghost st0: seq<Move>) returns (progressMade: bool)
      requires 0 <= row < base.boardSize && Valid() && Agree(base.Now(), base.maskManager.blockSize)
      requires Advanced(s0, st0, base.Now(), base.movesManager.moveStack, base.maskManager.blockSize, true)
      requires (progress <==> |base.movesManager.moveStack| > |st0|) && (progress ==> HasNaked(s0, base.maskManager.blockSize))
      requires Settled(base.Now(), base.maskManager.blockSize, base.cellsToProcess, row, 0)
      modifies base, base.board.board, base.maskManager.rowMask, base.maskManager.colMask, base.maskManager.blockMask,
               base.movesManager
      ensures Valid() && Agree(base.Now(), base.maskManager.blockSize)
      ensures Advanced(s0, st0, base.Now(), base.movesManager.moveStack, base.maskManager.blockSize, true)
      ensures (progressMade <==> |base.movesManager.moveStack| > |st0|) && (progressMade ==> HasNaked(s0, base.maskManager.blockSize))
      ensures Settled(base.Now(), base.maskManager.blockSize, base.cellsToProcess, row, base.boardSize)
    {
      progressMade := progress;
      var col := 0;
      while col < base.boardSize
        invariant 0 <= col <= base.boardSize && Valid() && Agree(base.Now(), base.maskManager.blockSize)
        invariant Advanced(s0, st0, base.Now(), base.movesManager.moveStack, base.maskManager.blockSize, true)
        invariant progressMade <==> |base.movesManager.moveStack| > |st0|
        invariant progressMade ==> HasNaked(s0, base.maskManager.blockSize)
        invariant Settled(base.Now(), base.maskManager.blockSize, base.cellsToProcess, row, col)
      {
        ghost var q := base.cellsToProcess;
        progressMade := Visit(row, col, progressMade, s0, st0, q, q, row, col);
        SettledNext(base.Now(), base.maskManager.blockSize, base.cellsToProcess, row, col);
        col := col + 1;
      }
    }

    /** One turn of the queue loop in `Apply`: dequeue a cell and try it. */
    method ProcessNext(progress: bool, ghost s0: Snapshot, ghost st0: seq<Move>) returns (progressMade: bool)
      requires Valid() && Agree(base.Now(), base.maskManager.blockSize) && |base.cellsToProcess| > 0
      requires Advanced(s0, st0, base.Now(), base.movesManager.moveStack, base.maskManager.blockSize, true)
      requires (progress <==> |base.movesManager.moveStack| > |st0|) && (progress ==> HasNaked(s0, base.maskManager.blockSize))
      requires Settled(base.Now(), base.maskManager.blockSize, base.cellsToProcess, base.boardSize, 0)
      modifies base, base.board.board, base.maskManager.rowMask, base.maskManager.colMask, base.maskManager.blockMask,
               base.movesManager
      ensures Valid() && Agree(base.Now(), base.maskManager.blockSize)
      ensures Advanced(s0, st0, base.Now(), base.movesManager.moveStack, base.maskManager.blockSize, true)
      ensures (progressMade <==> |base.movesManager.moveStack| > |st0|) && (progressMade ==> HasNaked(s0, base.maskManager.blockSize))
      ensures Settled(base.Now(), base.maskManager.blockSize, base.cellsToProcess, base.boardSize, 0)
      ensures EmptyCount(base.Now().grid) < old(EmptyCount(base.Now().grid)) ||
        (base.Now() == old(base.Now()) && |base.cellsToProcess| < old(|base.cellsToProcess|))
    {
      ghost var q := base.cellsToProcess;
      var cell := base.cellsToProcess[0];
      base.cellsToProcess := base.cellsToProcess[1..];
      assert q == [cell] + base.cellsToProcess;
      progressMade := Visit(cell.0, cell.1, progress, s0, st0, q, base.cellsToProcess, base.boardSize, 0);
    }

    /** `TryMove` inside `Apply`, with what the loops keep: the trail, the progress flag,
        and the cells that are settled. q is the queue the settled cells are counted
        against and rest the queue without the visited cell. */
    method Visit(row: int, col: int, progress: bool, ghost s0: Snapshot, ghost st0: seq<Move>,
                 ghost q: seq<Cell>, ghost rest: seq<Cell>, ghost scanRow: int, ghost scanCol: int)
      returns (progressMade: bool)
      requires Valid() && InBounds(base.boardSize, row, col) && Agree(base.Now(), base.maskManager.blockSize)
      requires Advanced(s0, st0, base.Now(), base.movesManager.moveStack, base.maskManager.blockSize, true)
      requires (progress <==> |base.movesManager.moveStack| > |st0|) && (progress ==> HasNaked(s0, base.maskManager.blockSize))
      requires base.cellsToProcess == rest && Settled(base.Now(), base.maskManager.blockSize, q, scanRow, scanCol)
      requires forall x :: x in q ==> x in rest || x == (row, col)
      modifies base, base.board.board, base.maskManager.rowMask, base.maskManager.colMask, base.maskManager.blockMask,
               base.movesManager
      ensures Valid() && Agree(base.Now(), base.maskManager.blockSize)
      ensures Advanced(s0, st0, base.Now(), base.movesManager.moveStack, base.maskManager.blockSize, true)
      ensures (progressMade <==> |base.movesManager.moveStack| > |st0|) && (progressMade ==> HasNaked(s0, base.maskManager.blockSize))
      ensures Settled(base.Now(), base.maskManager.blockSize, base.cellsToProcess, scanRow, scanCol)
      ensures !NakedAt(base.Now(), base.maskManager.blockSize, row, col)
      ensures EmptyCount(base.Now().grid) < old(EmptyCount(base.Now().grid)) ||
        (base.Now() == old(base.Now()) && base.cellsToProcess == rest)
    {
      ghost var bs := base.maskManager.blockSize;
      ghost var s1, st1 := base.Now(), base.movesManager.moveStack;
      var moved := TryMove(row, col);
      if moved {
        NakedStep(s0, st0, s1, st1, bs, row, col, progress);
        PlaceSettles(s1, bs, q, rest, scanRow, scanCol, Move(row, col, 0, LowestDigit(Avail(s1, bs, row, col))));
        progressMade := true;
      } else {
        KeepSettled(s1, bs, q, rest, scanRow, scanCol, (row, col));
        progressMade := progress;
      }
    }
  }
}
