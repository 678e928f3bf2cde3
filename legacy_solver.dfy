/** The older `SudokuSolver` driver: naked singles only, and a depth-first search that
    branches on the first empty cell in row-major order, without checking first that
    every empty cell still has a digit. The rest is the bit-mask solver's search: digits
    from the lowest up, the heuristics after every guess, and a rollback to the branch's
    checkpoint when a branch fails. */
module LegacySolver {
  import opened Bits
  import opened Rules
  import opened Moves
  import opened Trail
  import opened Masks
  import opened Progress
  import opened Errors
  import opened HeuristicBase
  import opened HeuristicList
  import opened SolverUtils
  import opened Validation
  import opened Arith
  import opened Search
  import opened Deductions
  import Board
  import MovesLog
  import MaxSolver

  /** `FindEmptyCell`'s answer on the n x n cells of g: the first empty cell in row-major
      order, or (-1, -1) with found false when there is none. */
  ghost predicate FirstEmpty(g: Grid, n: int, row: int, col: int, found: bool)
  {
    (found <==> HasEmpty(g, n)) &&
    (!found ==> row == -1 && col == -1) &&
    (found ==>
      InBounds(n, row, col) && IsEmptyCell(g, row, col) &&
      forall r, c :: InBounds(n, r, c) && Before(r, c, row, col) ==> !IsEmptyCell(g, r, c))
  }

  class SudokuSolver {
    const boardSize: nat
    const blockSize: nat
    const board: Board.SudokuBoard
    const maskManager: MaskManager
    const movesManager: MovesLog.MovesManager
    const heuristics: SudokuHeuristics

    /** Board and masks have the solver's sizes. */
    ghost predicate Sized()
      reads this, board, maskManager, maskManager.rowMask, maskManager.colMask, maskManager.blockMask
    {
      Fits(board, maskManager) && boardSize == board.rows && blockSize == maskManager.blockSize
    }

    /** The parts fit together, every logged move lies on the board, and the heuristics
        work on the same parts. */
    ghost predicate Valid()
      reads this, board, maskManager, maskManager.rowMask, maskManager.colMask, maskManager.blockMask,
            movesManager, heuristics
    {
      Sized() && OnBoard(boardSize, movesManager.moveStack) &&
      heuristics.board == board && heuristics.maskManager == maskManager &&
      heuristics.movesManager == movesManager && heuristics.Valid()
    }

    /** Naked singles is the only heuristic in the list. */
    ghost predicate SinglesOnly()
      reads this, heuristics
    {
      KindsOf(heuristics.heuristics) == [NakedSinglesKind]
    }

    /** The board and its masks as a state value. */
    ghost function Now(): (s: Snapshot)
      reads this, board, board.board, maskManager, maskManager.rowMask, maskManager.colMask, maskManager.blockMask
      requires Sized()
      ensures Shaped(s, blockSize) && s.grid == board.Cells()
    {
      StateOf(board, maskManager)
    }

    /** What every public operation keeps: the parts fit, the queue of naked singles lies
        on the board, and the masks describe the board. */
    ghost predicate Ready()
      reads this, board, board.board, maskManager, maskManager.rowMask, maskManager.colMask, maskManager.blockMask,
            movesManager, heuristics, heuristics.Bases()
    {
      Valid() && heuristics.QueuesOnBoard() && Agree(Now(), blockSize)
    }

    /** `SudokuSolver(board)` past its perfect-square test: masks filled from the board, an
        empty move log, and naked singles as the only heuristic. */
    constructor (board: Board.SudokuBoard)
      requires board.Valid() && board.rows <= WordBits && IsPerfectSquare(board.rows) && InRange(board.Cells())
      ensures Ready() && SinglesOnly() && this.board == board && boardSize == board.rows && blockSize == ISqrt(board.rows)
      ensures Now().grid == board.Cells() && movesManager.moveStack == []
      ensures fresh(maskManager) && fresh(maskManager.rowMask) && fresh(maskManager.colMask) &&
              fresh(maskManager.blockMask) && fresh(movesManager) && fresh(heuristics)
      ensures forall h :: h in heuristics.Bases() ==> fresh(h)
    {
      this.board := board;
      boardSize := board.BoardSize();
      blockSize := ISqrt(board.BoardSize());
      var masks := new MaskManager(board.BoardSize());
      masks.UpdateFromBoard(board);
      maskManager := masks;
      var moves := new MovesLog.MovesManager();
      movesManager := moves;
      var list := SinglesList(board, masks, moves);
      heuristics := list;
      new;
      assert Sized();
      assert Valid() && heuristics.QueuesOnBoard();
    }

    /** `Solve`: the heuristics, then the search, then a final duplicate check of the
        filled board. The answer is true with a solution of the board on entry left on the
        board, or false when that board has no solution; what the heuristics placed before
        the search is not rolled back. */
    method Solve() returns (result: bool)
      requires Ready() && SinglesOnly()
      modifies heuristics.Bases(), board.board, maskManager.rowMask, maskManager.colMask, maskManager.blockMask,
               movesManager
      ensures Ready() && heuristics.heuristics == old(heuristics.heuristics)
      ensures Advanced(old(Now()), old(movesManager.moveStack), Now(), movesManager.moveStack, blockSize, false)
      ensures result ==> Solves(board.Cells(), old(board.Cells()), blockSize)
      ensures !result ==> !Solvable(old(board.Cells()), blockSize)
    {
      ghost var s0, st0 := Now(), movesManager.moveStack;
      ApplyHeuristics();
      ghost var s1, st1 := Now(), movesManager.moveStack;
      AdvanceUnforced(s0, st0, s1, st1, blockSize);
      result := SolveRecursive();
      ghost var s2, st2 := Now(), movesManager.moveStack;
      AdvanceTrans(s0, st0, s1, st1, s2, st2, blockSize, false);
      AdvanceFills(s0, st0, s2, st2, blockSize, false);
      if !result {
        forall sol
          ensures Solves(sol, s0.grid, blockSize) <==> Solves(sol, s1.grid, blockSize)
        {
          AdvanceSolutions(s0, st0, s1, st1, blockSize, sol);
        }
        return false;
      }
      var valid := ValidateSolution();
      if valid.Err? {
        if Solvable(s0.grid, blockSize) {
          SolvableNoDuplicates(s0.grid, blockSize);
        }
        return false;
      }
    }

    /** `SolveRecursive`: true when no cell is empty; otherwise each available digit of the
        first empty cell in turn, lowest first, each guess followed by the heuristics and a
        recursive search, and a rollback to the checkpoint when the branch fails. On success
        the board is full; on failure nothing has changed and the board had no solution. */
    method SolveRecursive() returns (solved: bool)
      requires Ready() && SinglesOnly()
      modifies heuristics.Bases(), board.board, maskManager.rowMask, maskManager.colMask, maskManager.blockMask,
               movesManager
      decreases EmptyCount(board.Cells()), 2
      ensures Ready() && heuristics.heuristics == old(heuristics.heuristics)
      ensures Advanced(old(Now()), old(movesManager.moveStack), Now(), movesManager.moveStack, blockSize, false)
      ensures solved ==> Full(board.Cells())
      ensures !solved ==> Now() == old(Now()) && movesManager.moveStack == old(movesManager.moveStack)
      ensures !solved ==> !Solvable(old(board.Cells()), blockSize)
    {
      ghost var s0, st0 := Now(), movesManager.moveStack;
      Unmoved(s0, st0, blockSize, false);
      var row, col, foundEmpty := FindEmptyCell();
      if !foundEmpty {
        NoEmptyFull(Now().grid);
        return true;
      }
      solved := TryCandidates(row, col);
    }

    /** `FindEmptyCell`: the rows in order, each row's columns in order, until an empty
        cell. */
    method FindEmptyCell() returns (row: int, col: int, foundEmpty: bool)
      requires Ready()
      ensures Ready()
      ensures FirstEmpty(board.Cells(), boardSize, row, col, foundEmpty)
    {
      ghost var g := board.Cells();
      var r := 0;
      while r < boardSize
        invariant 0 <= r <= boardSize
        invariant forall r', c' :: InBounds(boardSize, r', c') && r' < r ==> !IsEmptyCell(g, r', c')
      {
        var c := 0;
        while c < boardSize
          invariant 0 <= c <= boardSize
          invariant forall r', c' :: InBounds(boardSize, r', c') && Before(r', c', r, c) ==> !IsEmptyCell(g, r', c')
        {
          if board.GetCell(r, c) == 0 {
            return r, c, true;
          }
          c := c + 1;
        }
        r := r + 1;
      }
      assert !HasEmpty(g, boardSize);
      return -1, -1, false;
    }

    /** `ValidateSolution`: the board's own validation; an error exactly when a row, a
        column or a block of the board repeats a digit. */
    method ValidateSolution() returns (res: Outcome<()>)
      requires Ready()
      ensures Ready()
      ensures res.Ok? <==> NoDuplicates(Now().grid, blockSize)
      ensures res.Err? ==> res.error == InvalidBoard
    {
      res := board.ValidateBoard();
    }

    /** The candidate loop of `SolveRecursive` at the chosen empty cell: each available
        digit in turn, lowest first, until a branch succeeds. When every branch fails,
        nothing has changed and each available digit has been ruled out, so the board has
        no solution. */
    method TryCandidates(row: int, col: int) returns (solved: bool)
      requires Ready() && SinglesOnly()
      requires InBounds(boardSize, row, col) && board.Cells()[row][col] == 0
      modifies heuristics.Bases(), board.board, maskManager.rowMask, maskManager.colMask, maskManager.blockMask,
               movesManager
      decreases EmptyCount(board.Cells()), 1
      ensures Ready() && heuristics.heuristics == old(heuristics.heuristics)
      ensures solved ==> Full(board.Cells())
      ensures solved ==> Advanced(old(Now()), old(movesManager.moveStack), Now(), movesManager.moveStack, blockSize, false)
      ensures !solved ==> Now() == old(Now()) && movesManager.moveStack == old(movesManager.moveStack)
      ensures !solved ==> !Solvable(old(board.Cells()), blockSize)
    {
      ghost var s0, st0 := Now(), movesManager.moveStack;
      var availableDigits := maskManager.GetAvailableDigits(row, col);
      AvailableState(board, maskManager, row, col);
      ghost var avail0 := availableDigits;
      var checkpoint := movesManager.Count();
      TriedStart(s0.grid, blockSize, row, col, avail0);
      while availableDigits != 0
        invariant Ready() && heuristics.heuristics == old(heuristics.heuristics)
        invariant Now() == s0 && movesManager.moveStack == st0
        invariant Tried(s0.grid, blockSize, row, col, avail0, availableDigits)
        decreases availableDigits
      {
        var bit := And(availableDigits, Neg(availableDigits));
        NextCandidate(availableDigits);
        ghost var taken := availableDigits;
        availableDigits := And(availableDigits, Dec(availableDigits));
        var digit := TrailingZeroCount(bit) + 1;
        AvailablePlaces(s0, blockSize, row, col, digit);
        var branchSolved := TryDigit(row, col, digit, checkpoint, s0, st0);
        if branchSolved {
          return true;
        }
        TriedStep(s0.grid, blockSize, row, col, avail0, taken);
      }
      TriedAll(s0.grid, blockSize, row, col, avail0);
      AllRefuted(s0, blockSize, row, col);
      return false;
    }

    /** One turn of the candidate loop of `SolveRecursive`: record the guess, place it, run
        the heuristics, search on; when the search fails, undo every move above the
        checkpoint, which rules the digit out of the cell. */
    method TryDigit(row: int, col: int, digit: int, checkpoint: int, ghost s0: Snapshot, ghost st0: seq<Move>)
      returns (solved: bool)
      requires Ready() && SinglesOnly()
      requires Now() == s0 && movesManager.moveStack == st0 && checkpoint == |st0|
      requires CanPlace(s0, blockSize, Move(row, col, 0, digit))
      modifies heuristics.Bases(), board.board, maskManager.rowMask, maskManager.colMask, maskManager.blockMask,
               movesManager
      decreases EmptyCount(board.Cells()), 0
      ensures Ready() && heuristics.heuristics == old(heuristics.heuristics)
      ensures solved ==> Full(board.Cells())
      ensures solved ==> Advanced(s0, st0, Now(), movesManager.moveStack, blockSize, false)
      ensures !solved ==> Now() == s0 && movesManager.moveStack == st0
      ensures !solved ==> Refuted(s0.grid, blockSize, row, col, digit)
    {
      var move := Move(row, col, 0, digit);
      Guess(move);
      ghost var s1, st1 := Now(), movesManager.moveStack;
      Unmoved(s0, st0, blockSize, false);
      AdvanceStep(s0, st0, s0, st0, blockSize, false, move);
      ApplyHeuristics();
      ghost var s2, st2 := Now(), movesManager.moveStack;
      AdvanceFills(s1, st1, s2, st2, blockSize, true);
      AdvanceFills(s0, st0, s1, st1, blockSize, false);
      solved := SolveRecursive();
      if !solved {
        GuessRefuted(s0, st1, s2, st2, blockSize, move);
        AdvanceUnforced(s1, st1, s2, st2, blockSize);
        AdvanceTrans(s0, st0, s1, st1, s2, st2, blockSize, false);
        Backtrack(checkpoint, s0, st0);
      } else {
        AdvanceUnforced(s1, st1, s2, st2, blockSize);
        AdvanceTrans(s0, st0, s1, st1, s2, st2, blockSize, false);
        AdvanceTrans(s0, st0, s2, st2, Now(), movesManager.moveStack, blockSize, false);
      }
    }

    /** `RecordMove(new Move(row, col, 0, digit))` followed by `PlaceDigit`. */
    method Guess(move: Move)
      requires Ready() && CanPlace(Now(), blockSize, move)
      modifies board.board, maskManager.rowMask, maskManager.colMask, maskManager.blockMask, movesManager
      ensures Ready() && heuristics.heuristics == old(heuristics.heuristics)
      ensures Now() == Place(old(Now()), blockSize, move)
      ensures movesManager.moveStack == old(movesManager.moveStack) + [move]
    {
      movesManager.RecordMove(move);
      PlaceDigit(move.row, move.col, move.newValue);
    }

    /** `PlaceDigit`: the cell takes the digit and the digit's bit is set in the masks of
        its row, column and block; the move log is left alone. A digit available at an
        empty cell keeps the masks describing the board. */
    method PlaceDigit(row: int, col: int, digit: int)
      requires Ready() && InBounds(boardSize, row, col)
      modifies board.board, maskManager.rowMask, maskManager.colMask, maskManager.blockMask
      ensures Valid() && heuristics.QueuesOnBoard() && heuristics.heuristics == old(heuristics.heuristics)
      ensures Now() == Place(old(Now()), blockSize, Move(row, col, 0, digit))
      ensures CanPlace(old(Now()), blockSize, Move(row, col, 0, digit)) ==> Agree(Now(), blockSize)
    {
      SolverUtils.PlaceDigit(board, maskManager, row, col, digit);
    }

    /** `ApplyHeuristics`: `ApplyAll` until a pass places nothing. With naked singles alone
        nothing throws, and every placement is forced. */
    method ApplyHeuristics()
      requires Ready() && SinglesOnly()
      modifies heuristics.Bases(), board.board, maskManager.rowMask, maskManager.colMask, maskManager.blockMask,
               movesManager
      ensures Ready() && heuristics.heuristics == old(heuristics.heuristics)
      ensures Advanced(old(Now()), old(movesManager.moveStack), Now(), movesManager.moveStack, blockSize, true)
      ensures Quiet([NakedSinglesKind], Now(), blockSize)
    {
      ghost var s0, st0 := Now(), movesManager.moveStack;
      var _ := SolverUtils.ApplyHeuristics(heuristics);
      AdvanceOnBoard(s0, st0, Now(), movesManager.moveStack, blockSize, true);
    }

    /** `UndoMoves(checkpoint, board, maskManager)` after a failed branch: the moves above
        the checkpoint are the trail of the branch, so undoing them restores the state the
        branch started from. */
    method Backtrack(checkpoint: int, ghost s0: Snapshot, ghost st0: seq<Move>)
      requires Ready() && checkpoint == |st0| && Agree(s0, blockSize)
      requires Advanced(s0, st0, Now(), movesManager.moveStack, blockSize, false)
      modifies board.board, maskManager.rowMask, maskManager.colMask, maskManager.blockMask, movesManager
      ensures Ready() && Now() == s0 && movesManager.moveStack == st0
      ensures heuristics.heuristics == old(heuristics.heuristics)
    {
      ghost var s1, st1 := Now(), movesManager.moveStack;
      AdvanceRollback(s0, st0, s1, st1, blockSize, false);
      movesManager.UndoMoves(checkpoint, board, maskManager);
      assert MovesLog.Min(|st1|, checkpoint) == |st0|;
      assert movesManager.moveStack == st0;
      assert forall i :: 0 <= i < |st0| ==> st0[i] == st1[i];
    }
  }

  /** The constructor's heuristics: a fresh list holding naked singles alone. */
  method SinglesList(board: Board.SudokuBoard, maskManager: MaskManager, movesManager: MovesLog.MovesManager)
    returns (list: SudokuHeuristics)
    requires Fits(board, maskManager)
    ensures list.Valid() && list.QueuesOnBoard() && fresh(list)
    ensures list.board == board && list.maskManager == maskManager && list.movesManager == movesManager
    ensures forall h :: h in list.Bases() ==> fresh(h)
    ensures KindsOf(list.heuristics) == [NakedSinglesKind]
  {
    list := new SudokuHeuristics(board, maskManager, movesManager);
    MaxSolver.AddNakedSingles(list);
  }

  /** `new SudokuSolver(board)`: `InvalidInputException` exactly when the board size is not
      a perfect square. */
  method NewSolver(board: Board.SudokuBoard) returns (res: Outcome<SudokuSolver>)
    requires board.Valid() && board.rows <= WordBits && InRange(board.Cells())
    ensures res.Err? <==> !IsPerfectSquare(board.rows)
    ensures res.Err? ==> res.error == InvalidInput
    ensures res.Ok? ==> res.value.Ready() && res.value.SinglesOnly() && res.value.board == board
    ensures res.Ok? ==> res.value.movesManager.moveStack == []
  {
    var blockSize := ISqrt(board.BoardSize());
    if blockSize * blockSize != board.BoardSize() {
      return Err(InvalidInput);
    }
    var solver := new SudokuSolver(board);
    return Ok(solver);
  }
}
