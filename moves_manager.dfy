/** `MovesManager`: the stack of moves made since the search started, undone newest first
    when the search backtracks. */
module MovesLog {
  import opened Rules
  import opened Moves
  import opened Trail
  import opened Masks
  import opened Board

  function Min(a: int, b: int): int
  {
    if a <= b then a else b
  }

  /** UndoAll where it is defined, and s elsewhere: a loop invariant without proof
      obligations of its own. */
  ghost function UndoneTo(s: Snapshot, bs: int, ms: seq<Move>): Snapshot
  {
    if Shaped(s, bs) && OnBoard(|s.grid|, ms) then UndoAll(s, bs, ms) else s
  }

  /** Undoing the suffix of st from k is undoing the suffix from k + 1, then st[k]. */
  lemma UndoSuffix(s: Snapshot, bs: int, st: seq<Move>, k: int)
    requires Shaped(s, bs) && OnBoard(|s.grid|, st) && 0 <= k < |st|
    ensures InBounds(|s.grid|, st[k].row, st[k].col) && Shaped(UndoneTo(s, bs, st[k + 1..]), bs)
    ensures |UndoneTo(s, bs, st[k + 1..]).grid| == |s.grid|
    ensures UndoneTo(s, bs, st[k..]) == Undo(UndoneTo(s, bs, st[k + 1..]), bs, st[k])
  {
    assert st[k..][1..] == st[k + 1..] && st[k..][0] == st[k];
  }

  class MovesManager {
    /** The stack, bottom first: the top of the stack is the last element. */
    var moveStack: seq<Move>

    constructor ()
      ensures moveStack == []
    {
      moveStack := [];
    }

    /** `RecordMove`: push the move on top of the stack. */
    method RecordMove(move: Move)
      modifies this
      ensures moveStack == old(moveStack) + [move]
      ensures Count() == old(Count()) + 1 && moveStack[Count() - 1] == move
    {
      moveStack := moveStack + [move];
    }

    /** `Count`: the number of recorded moves. */
    function Count(): nat
      reads this
    {
      |moveStack|
    }

    /** `UndoMoves`: pop moves until only `returnPoint` are left; each popped move writes
        its old value back into its cell, clears the bit of its new value when that is
        non-zero and sets the bit of its old value when that is non-zero. */
    method UndoMoves(returnPoint: int, board: SudokuBoard, maskManager: MaskManager)
      requires 0 <= returnPoint
      requires board.Valid() && maskManager.Valid() && board.rows == maskManager.boardSize
      requires OnBoard(maskManager.boardSize, moveStack)
      modifies this, board.board, maskManager.rowMask, maskManager.colMask, maskManager.blockMask
      ensures maskManager.Valid()
      ensures var k := Min(|old(moveStack)|, returnPoint);
        moveStack == old(moveStack)[..k] &&
        maskManager.State(board.Cells()) ==
          UndoAll(old(maskManager.State(board.Cells())), maskManager.blockSize, old(moveStack)[k..])
    {
      ghost var bs := maskManager.blockSize;
      ghost var s0 := maskManager.State(board.Cells());
      ghost var st0 := moveStack;
      assert st0[|st0|..] == [];
      while |moveStack| > returnPoint
        invariant maskManager.Valid() && |moveStack| <= |st0| && moveStack == st0[..|moveStack|]
        invariant Min(|st0|, returnPoint) <= |moveStack|
        invariant maskManager.State(board.Cells()) == UndoneTo(s0, bs, st0[|moveStack|..])
        decreases |moveStack|
      {
        PopAndUndo(board, maskManager, s0, st0);
      }
    }

    /** One turn of the `UndoMoves` loop: pop the top move and undo it. */
    method PopAndUndo(board: SudokuBoard, maskManager: MaskManager, ghost s0: Snapshot, ghost st0: seq<Move>)
      requires board.Valid() && maskManager.Valid() && board.rows == maskManager.boardSize
      requires Shaped(s0, maskManager.blockSize) && |s0.grid| == maskManager.boardSize && OnBoard(|s0.grid|, st0)
      requires 0 < |moveStack| <= |st0| && moveStack == st0[..|moveStack|]
      requires maskManager.State(board.Cells()) == UndoneTo(s0, maskManager.blockSize, st0[|moveStack|..])
      modifies this, board.board, maskManager.rowMask, maskManager.colMask, maskManager.blockMask
      ensures maskManager.Valid() && moveStack == old(moveStack)[..|old(moveStack)| - 1]
      ensures maskManager.State(board.Cells()) == UndoneTo(s0, maskManager.blockSize, st0[|moveStack|..])
    {
      var top := |moveStack| - 1;
      var move := moveStack[top];
      moveStack := moveStack[..top];
      UndoSuffix(s0, maskManager.blockSize, st0, top);
      UndoOne(board, maskManager, move);
    }
  }

  /** The body of the `UndoMoves` loop for one popped move. */
  method UndoOne(board: SudokuBoard, maskManager: MaskManager, move: Move)
    requires board.Valid() && maskManager.Valid() && board.rows == maskManager.boardSize
    requires InBounds(board.rows, move.row, move.col)
    modifies board.board, maskManager.rowMask, maskManager.colMask, maskManager.blockMask
    ensures maskManager.Valid()
    ensures maskManager.State(board.Cells()) ==
      Undo(old(maskManager.State(board.Cells())), maskManager.blockSize, move)
  {
    ghost var bs := maskManager.blockSize;
    ghost var s := maskManager.State(board.Cells());
    board.SetCell(move.row, move.col, move.oldValue);
    ghost var s1 := Trail.SetCell(s, bs, move.row, move.col, move.oldValue);
    assert maskManager.State(board.Cells()) == s1;
    if move.newValue != 0 {
      maskManager.UpdateMasks(move.row, move.col, move.newValue, false);
      maskManager.UpdateIsBits(s1, move.row, move.col, move.newValue, false);
    }
    ghost var s2 := if move.newValue != 0 then ClearBits(s1, bs, move.row, move.col, move.newValue) else s1;
    assert maskManager.State(board.Cells()) == s2;
    if move.oldValue != 0 {
      maskManager.UpdateMasks(move.row, move.col, move.oldValue, true);
      maskManager.UpdateIsBits(s2, move.row, move.col, move.oldValue, true);
    }
  }
}
