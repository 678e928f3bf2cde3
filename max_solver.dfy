/** `SudokuSolver`, the driver of the bit-mask solver: the heuristics of the configured
    level first, then a depth-first search that branches on the empty cell with the
    fewest available digits, tries those digits from the lowest up, runs the heuristics
    after every guess, and rolls the move log back to the branch's checkpoint when a
    branch fails. */
module MaxSolver {
  import opened Bits
  import opened Rules
  import opened Moves
  import opened Trail
  import opened Masks
  import opened Progress
  import opened Errors
  import opened AlgorithmLevels
  import opened HeuristicBase
  import opened NakedSingles
  import opened HiddenSingles
  import opened NakedPairs
  import opened HeuristicList
  import opened SolverUtils
  import opened Validation
  import opened Arith
  import opened Search
  import opened Deductions
  import Board
  import MovesLog

  /** The level `ConfigureAlgorithmLevel` works with: `Default` is replaced by the level
      the board size calls for. */
  function EffectiveLevel(level: AlgorithmLevel, boardSize: int): (l: AlgorithmLevel)
    ensures l != Default
    ensures level != Default ==> l == level
  {
    if level == Default then GetDefaultAlgorithmLevel(boardSize) else level
  }

  /** The heuristics a level installs, in order: naked singles always, hidden singles from
      level 2 on, naked pairs at level 3. */
  function LevelKinds(level: AlgorithmLevel): (ks: seq<Kind>)
    ensures 1 <= |ks| <= 3 && ks[0] == NakedSinglesKind
    ensures HiddenSinglesKind in ks <==> level.AtLeast(Level2)
    ensures NakedPairsKind in ks <==> level == Level3
    ensures NakedPairsKind in ks ==> ks[|ks| - 1] == NakedPairsKind
  {
    [NakedSinglesKind] + (if level.AtLeast(Level2) then [HiddenSinglesKind] else []) +
    (if level.AtLeast(Level3) then [NakedPairsKind] else [])
  }

  /** The solver may throw `NotImplementedException` from naked pairs exactly at level 3,
      and under `Default` exactly on boards larger than 16 x 16. */
  lemma NakedPairsInstalled(level: AlgorithmLevel, boardSize: int)
    ensures NakedPairsKind in LevelKinds(EffectiveLevel(level, boardSize)) <==>
      level == Level3 || (level == Default && boardSize > 16)
  {
  }

  class SudokuSolver {
    const boardSize: nat
    const blockSize: nat
    const board: Board.SudokuBoard
    const maskManager: MaskManager
    const movesManager: MovesLog.MovesManager
    var heuristics: SudokuHeuristics

    /** Board and masks have the solver's sizes. */
    ghost predicate Sized()
      reads this, board, maskManager, maskManager.rowMask, maskManager.colMask, maskManager.blockMask
    {
      Fits(board, maskManager) && boardSize == board.rows && blockSize == maskManager.blockSize
    }

    /** Board, masks and move log fit together and every logged move lies on the board. */
    ghost predicate Parts()
      reads this, board, maskManager, maskManager.rowMask, maskManager.colMask, maskManager.blockMask,
            movesManager
    {
      Sized() && OnBoard(boardSize, movesManager.moveStack)
    }

    /** The parts fit together and the heuristics work on them. */
    ghost predicate Valid()
      reads this, board, maskManager, maskManager.rowMask, maskManager.colMask, maskManager.blockMask,
            movesManager, heuristics
    {
      Parts() && heuristics.board == board && heuristics.maskManager == maskManager &&
      heuristics.movesManager == movesManager && heuristics.Valid()
    }

    /** The board and its masks as a state value. */
    ghost function Now(): (s: Snapshot)
      reads this, board, board.board, maskManager, maskManager.rowMask, maskManager.colMask, maskManager.blockMask
      requires Sized()
      ensures Shaped(s, blockSize) && s.grid == board.Cells()
    {
      StateOf(board, maskManager)
    }

    /** What every public operation keeps: the parts fit, the queues of the heuristics lie
        on the board, and the masks describe the board. */
    ghost predicate Ready()
      reads this, board, board.board, maskManager, maskManager.rowMask, maskManager.colMask, maskManager.blockMask,
            movesManager, heuristics, heuristics.Bases()
    {
      Valid() && heuristics.QueuesOnBoard() && Agree(Now(), blockSize)
    }

    /** `SudokuSolver(board, level)` past its perfect-square test: masks filled from the
        board, an empty move log, and the heuristics of the level. */
    constructor (board: Board.SudokuBoard, level: AlgorithmLevel)
      requires board.Valid() && board.rows <= WordBits && IsPerfectSquare(board.rows) && InRange(board.Cells())
      ensures Ready() && this.board == board && boardSize == board.rows && blockSize == ISqrt(board.rows)
      ensures Now().grid == board.Cells() && movesManager.moveStack == []
      ensures KindsOf(heuristics.heuristics) == LevelKinds(EffectiveLevel(level, board.rows))
      ensures fresh(maskManager) && fresh(maskManager.rowMask) && fresh(maskManager.colMask) &&
              fresh(maskManager.blockMask) && fresh(movesManager) && fresh(heuristics)
      ensures forall h :: h in heuristics.Bases() ==> fresh(h)
    {
      this.board := board;
      boardSize := board.BoardSize();
      blockSize := ISqrt(board.BoardSize());
      var masks := new MaskManager(board.BoardSize());
      masks.UpdateFromBoard(board);
      maskManager := masks;
      var moves := new MovesLog.MovesManager();
      movesManager := moves;
      heuristics := new SudokuHeuristics(board, masks, moves);
      new;
      ConfigureAlgorithmLevel(level);
    }

    /** `ConfigureAlgorithmLevel`: a fresh list holding naked singles, then hidden singles
        from level 2 on and naked pairs at level 3, with `Default` standing for the level
        of the board size. */
    method ConfigureAlgorithmLevel(level: AlgorithmLevel)
      requires Parts()
      modifies this
      ensures Valid() && heuristics.QueuesOnBoard() && fresh(heuristics)
      ensures forall h :: h in heuristics.Bases() ==> fresh(h)
      ensures KindsOf(heuristics.heuristics) == LevelKinds(EffectiveLevel(level, boardSize))
    {
      var effective := level;
      if level == Default {
        effective := GetDefaultAlgorithmLevel(boardSize);
      }
      heuristics := BuildHeuristics(board, maskManager, movesManager, effective);
    }
    /** `Solve`: the heuristics, then the search, then a final duplicate check of the
        filled board. A naked pairs heuristic in the list throws out of the first call of
        the heuristics. Otherwise the answer is true with a solution of the board on
        entry left on the board, or false when that board has no solution; what the
        heuristics placed before the search is not rolled back. */
    method Solve() returns (res: Outcome<bool>)
      requires Ready()
      modifies heuristics.Bases(), board.board, maskManager.rowMask, maskManager.colMask, maskManager.blockMask,
               movesManager
      ensures Ready()
      ensures Advanced(old(Now()), old(movesManager.moveStack), Now(), movesManager.moveStack, blockSize, false)
      ensures res.Err? <==> NakedPairsKind in KindsOf(heuristics.heuristics)
      ensures res.Err? ==> res.error == NotImplemented
      ensures res == Ok(true) ==> Solves(board.Cells(), old(board.Cells()), blockSize)
      ensures res == Ok(false) ==> !Solvable(old(board.Cells()), blockSize)
    {
      ghost var s0, st0 := Now(), movesManager.moveStack;
      var applied := RunHeuristics();
      ghost var s1, st1 := Now(), movesManager.moveStack;
      AdvanceUnforced(s0, st0, s1, st1, blockSize);
      if applied.Err? {
        return Err(applied.error);
      }
      var result := SolveRecursive();
      ghost var s2, st2 := Now(), movesManager.moveStack;
      AdvanceTrans(s0, st0, s1, st1, s2, st2, blockSize, false);
      AdvanceFills(s0, st0, s2, st2, blockSize, false);
      if !result {
        forall sol
          ensures Solves(sol, s0.grid, blockSize) <==> Solves(sol, s1.grid, blockSize)
        {
          AdvanceSolutions(s0, st0, s1, st1, blockSize, sol);
        }
        return Ok(false);
      }
      var valid := CheckSolution();
      if valid.Err? {
        if Solvable(s0.grid, blockSize) {
          SolvableNoDuplicates(s0.grid, blockSize);
        }
        return Ok(false);
      }
      return Ok(true);
    }

    /** `SolveRecursive`: false at once when some empty cell has no available digit; true
        when no cell is empty; otherwise each available digit of the cell with the fewest
        of them in turn, lowest first, each guess followed by the heuristics and a
        recursive search, and a rollback to the checkpoint when the branch fails. On
        success the board is full; on failure nothing has changed and the board had no
        solution. */
    method SolveRecursive() returns (solved: bool)
      requires Ready() && NakedPairsKind !in KindsOf(heuristics.heuristics)
      modifies heuristics.Bases(), board.board, maskManager.rowMask, maskManager.colMask, maskManager.blockMask,
               movesManager
      decreases EmptyCount(board.Cells()), 2
      ensures Ready() && heuristics.heuristics == old(heuristics.heuristics)
      ensures Advanced(old(Now()), old(movesManager.moveStack), Now(), movesManager.moveStack, blockSize, false)
      ensures solved ==> Full(board.Cells())
      ensures !solved ==> Now() == old(Now()) && movesManager.moveStack == old(movesManager.moveStack)
      ensures !solved ==> !Solvable(old(board.Cells()), blockSize)
    {
      ghost var s0, st0 := Now(), movesManager.moveStack;
      Unmoved(s0, st0, blockSize, false);
      var ok := CheckCells();
      if !ok {
        return false;
      }
      var row, col, foundEmpty := PickCell();
      if !foundEmpty {
        return true;
      }
      solved := TryCandidates(row, col);
    }

    /** `ValidateSolution(board)` as `Solve` reads it: an error exactly when a row, a column
        or a block of the board repeats a digit. */
    method CheckSolution() returns (res: Outcome<()>)
      requires Ready()
      ensures Ready()
      ensures res.Ok? <==> NoDuplicates(Now().grid, blockSize)
      ensures res.Err? ==> res.error == InvalidBoard
    {
      res := ValidateSolution(board);
    }

    /** `EveryCellHasAvailableDigitsCheck(board, maskManager, boardSize)` as the search reads
        it: a failed check means that the board has no solution. */
    method CheckCells() returns (ok: bool)
      requires Ready()
      ensures Ready()
      ensures ok <==> !Stuck(Now(), blockSize, boardSize)
      ensures !ok ==> !Solvable(Now().grid, blockSize)
    {
      ok := EveryCellHasAvailableDigitsCheck(board, maskManager, boardSize);
    }

    /** `FindMinimumEmptyCell(board, maskManager, boardSize)` as the search reads it: an
        empty cell when there is one, and otherwise a full board. */
    method PickCell() returns (row: int, col: int, foundEmpty: bool)
      requires Ready()
      ensures Ready()
      ensures MinimumCell(Now(), blockSize, boardSize, row, col, foundEmpty)
      ensures foundEmpty ==> InBounds(boardSize, row, col) && Now().grid[row][col] == 0
      ensures !foundEmpty ==> Full(Now().grid)
    {
      row, col, foundEmpty := FindMinimumEmptyCell(board, maskManager, boardSize);
      if !foundEmpty {
        NoEmptyFull(Now().grid);
      }
    }

    /** The candidate loop of `SolveRecursive` at the chosen empty cell: each available
        digit in turn, lowest first, until a branch succeeds. When every branch fails,
        nothing has changed and each available digit has been ruled out, so the board has
        no solution. */
    method TryCandidates(row: int, col: int) returns (solved: bool)
      requires Ready() && NakedPairsKind !in KindsOf(heuristics.heuristics)
      requires InBounds(boardSize, row, col) && board.Cells()[row][col] == 0
      modifies heuristics.Bases(), board.board, maskManager.rowMask, maskManager.colMask, maskManager.blockMask,
               movesManager
      decreases EmptyCount(board.Cells()), 1
      ensures Ready() && heuristics.heuristics == old(heuristics.heuristics)
      ensures solved ==> Full(board.Cells())
      ensures solved ==> Advanced(old(Now()), old(movesManager.moveStack), Now(), movesManager.moveStack, blockSize, false)
      ensures !solved ==> Now() == old(Now()) && movesManager.moveStack == old(movesManager.moveStack)
      ensures !solved ==> !Solvable(old(board.Cells()), blockSize)
    {
      ghost var s0, st0 := Now(), movesManager.moveStack;
      var availableDigits := maskManager.GetAvailableDigits(row, col);
      AvailableState(board, maskManager, row, col);
      ghost var avail0 := availableDigits;
      var checkpoint := movesManager.Count();
      TriedStart(s0.grid, blockSize, row, col, avail0);
      while availableDigits != 0
        invariant Ready() && heuristics.heuristics == old(heuristics.heuristics)
        invariant Now() == s0 && movesManager.moveStack == st0
        invariant Tried(s0.grid, blockSize, row, col, avail0, availableDigits)
        decreases availableDigits
      {
        var bit := And(availableDigits, Neg(availableDigits));
        NextCandidate(availableDigits);
        ghost var taken := availableDigits;
        availableDigits := And(availableDigits, Dec(availableDigits));
        var digit := TrailingZeroCount(bit) + 1;
        AvailablePlaces(s0, blockSize, row, col, digit);
        var branchSolved := TryDigit(row, col, digit, checkpoint, s0, st0);
        if branchSolved {
          return true;
        }
        TriedStep(s0.grid, blockSize, row, col, avail0, taken);
      }
      TriedAll(s0.grid, blockSize, row, col, avail0);
      AllRefuted(s0, blockSize, row, col);
      return false;
    }

    /** One turn of the candidate loop of `SolveRecursive`: record the guess, place it, run
        the heuristics, search on; when the search fails, undo every move above the
        checkpoint, which rules the digit out of the cell. */
    method TryDigit(row: int, col: int, digit: int, checkpoint: int, ghost s0: Snapshot, ghost st0: seq<Move>)
      returns (solved: bool)
      requires Ready() && NakedPairsKind !in KindsOf(heuristics.heuristics)
      requires Now() == s0 && movesManager.moveStack == st0 && checkpoint == |st0|
      requires CanPlace(s0, blockSize, Move(row, col, 0, digit))
      modifies heuristics.Bases(), board.board, maskManager.rowMask, maskManager.colMask, maskManager.blockMask,
               movesManager
      decreases EmptyCount(board.Cells()), 0
      ensures Ready() && heuristics.heuristics == old(heuristics.heuristics)
      ensures solved ==> Full(board.Cells())
      ensures solved ==> Advanced(s0, st0, Now(), movesManager.moveStack, blockSize, false)
      ensures !solved ==> Now() == s0 && movesManager.moveStack == st0
      ensures !solved ==> Refuted(s0.grid, blockSize, row, col, digit)
    {
      var move := Move(row, col, 0, digit);
      Guess(move);
      ghost var s1, st1 := Now(), movesManager.moveStack;
      Unmoved(s0, st0, blockSize, false);
      AdvanceStep(s0, st0, s0, st0, blockSize, false, move);
      var _ := RunHeuristics();
      ghost var s2, st2 := Now(), movesManager.moveStack;
      AdvanceFills(s1, st1, s2, st2, blockSize, true);
      AdvanceFills(s0, st0, s1, st1, blockSize, false);
      solved := SolveRecursive();
      if !solved {
        GuessRefuted(s0, st1, s2, st2, blockSize, move);
        AdvanceUnforced(s1, st1, s2, st2, blockSize);
        AdvanceTrans(s0, st0, s1, st1, s2, st2, blockSize, false);
        Backtrack(checkpoint, s0, st0);
      } else {
        AdvanceUnforced(s1, st1, s2, st2, blockSize);
        AdvanceTrans(s0, st0, s1, st1, s2, st2, blockSize, false);
        AdvanceTrans(s0, st0, s2, st2, Now(), movesManager.moveStack, blockSize, false);
      }
    }

    /** `RecordMove(new Move(row, col, 0, digit))` followed by `PlaceDigit`. */
    method Guess(move: Move)
      requires Ready() && CanPlace(Now(), blockSize, move)
      modifies board.board, maskManager.rowMask, maskManager.colMask, maskManager.blockMask, movesManager
      ensures Ready() && heuristics.heuristics == old(heuristics.heuristics)
      ensures Now() == Place(old(Now()), blockSize, move)
      ensures movesManager.moveStack == old(movesManager.moveStack) + [move]
    {
      movesManager.RecordMove(move);
      PlaceDigit(board, maskManager, move.row, move.col, move.newValue);
    }

    /** `ApplyHeuristics(heuristics)` as the solver calls it: the result says whether a naked
        pairs heuristic threw; every placement is forced. */
    method RunHeuristics() returns (res: Outcome<()>)
      requires Ready()
      modifies heuristics.Bases(), board.board, maskManager.rowMask, maskManager.colMask, maskManager.blockMask,
               movesManager
      ensures Ready() && heuristics.heuristics == old(heuristics.heuristics)
      ensures Advanced(old(Now()), old(movesManager.moveStack), Now(), movesManager.moveStack, blockSize, true)
      ensures res.Err? <==> NakedPairsKind in KindsOf(heuristics.heuristics)
      ensures res.Err? ==> res.error == NotImplemented
    {
      ghost var s0, st0 := Now(), movesManager.moveStack;
      res := ApplyHeuristics(heuristics);
      AdvanceOnBoard(s0, st0, Now(), movesManager.moveStack, blockSize, true);
    }

    /** `UndoMoves(checkpoint, board, maskManager)` after a failed branch: the moves above
        the checkpoint are the trail of the branch, so undoing them restores the state the
        branch started from. */
    method Backtrack(checkpoint: int, ghost s0: Snapshot, ghost st0: seq<Move>)
      requires Ready() && checkpoint == |st0| && Agree(s0, blockSize)
      requires Advanced(s0, st0, Now(), movesManager.moveStack, blockSize, false)
      modifies board.board, maskManager.rowMask, maskManager.colMask, maskManager.blockMask, movesManager
      ensures Ready() && Now() == s0 && movesManager.moveStack == st0
      ensures heuristics.heuristics == old(heuristics.heuristics)
    {
      ghost var s1, st1 := Now(), movesManager.moveStack;
      AdvanceRollback(s0, st0, s1, st1, blockSize, false);
      movesManager.UndoMoves(checkpoint, board, maskManager);
      assert MovesLog.Min(|st1|, checkpoint) == |st0|;
      assert movesManager.moveStack == st0;
      assert forall i :: 0 <= i < |st0| ==> st0[i] == st1[i];
    }
  }

  /** `new SudokuSolver(board, level)`: `InvalidInputException` exactly when the board size
      is not a perfect square. */
  method NewSolver(board: Board.SudokuBoard, level: AlgorithmLevel) returns (res: Outcome<SudokuSolver>)
    requires board.Valid() && board.rows <= WordBits && InRange(board.Cells())
    ensures res.Err? <==> !IsPerfectSquare(board.rows)
    ensures res.Err? ==> res.error == InvalidInput
    ensures res.Ok? ==> res.value.Ready() && res.value.board == board && res.value.movesManager.moveStack == []
    ensures res.Ok? ==> KindsOf(res.value.heuristics.heuristics) == LevelKinds(EffectiveLevel(level, board.rows))
  {
    var blockSize := ISqrt(board.BoardSize());
    if blockSize * blockSize != board.BoardSize() {
      return Err(InvalidInput);
    }
    var solver := new SudokuSolver(board, level);
    return Ok(solver);
  }

  /** The list `ConfigureAlgorithmLevel` builds for a level that is not `Default`. */
  method BuildHeuristics(board: Board.SudokuBoard, maskManager: MaskManager, movesManager: MovesLog.MovesManager,
                         level: AlgorithmLevel)
    returns (list: SudokuHeuristics)
    requires Fits(board, maskManager)
    ensures list.Valid() && list.QueuesOnBoard() && fresh(list)
    ensures list.board == board && list.maskManager == maskManager && list.movesManager == movesManager
    ensures forall h :: h in list.Bases() ==> fresh(h)
    ensures KindsOf(list.heuristics) == LevelKinds(level)
  {
    list := new SudokuHeuristics(board, maskManager, movesManager);
    AddNakedSingles(list);
    if level.AtLeast(Level2) {
      AddHiddenSingles(list);
    }
    if level.AtLeast(Level3) {
      AddNakedPairs(list);
    }
  }

  /** `AddHeuristic(new NakedSinglesHeuristic(board, maskManager, movesManager))`. */
  method AddNakedSingles(list: SudokuHeuristics)
    requires list.Valid() && list.QueuesOnBoard()
    modifies list
    ensures list.Valid() && list.QueuesOnBoard()
    ensures KindsOf(list.heuristics) == KindsOf(old(list.heuristics)) + [NakedSinglesKind]
    ensures forall h :: h in list.Bases() ==> h in old(list.Bases()) || fresh(h)
  {
    var h := new NakedSinglesHeuristic(list.board, list.maskManager, list.movesManager);
    list.AddHeuristic(NakedSinglesApplier(h));
    assert list.heuristics == old(list.heuristics) + [NakedSinglesApplier(h)];
  }

  /** `AddHeuristic(new HiddenSinglesHeuristic(board, maskManager, movesManager))`. */
  method AddHiddenSingles(list: SudokuHeuristics)
    requires list.Valid() && list.QueuesOnBoard()
    modifies list
    ensures list.Valid() && list.QueuesOnBoard()
    ensures KindsOf(list.heuristics) == KindsOf(old(list.heuristics)) + [HiddenSinglesKind]
    ensures forall h :: h in list.Bases() ==> h in old(list.Bases()) || fresh(h)
  {
    var h := new HiddenSinglesHeuristic(list.board, list.maskManager, list.movesManager);
    list.AddHeuristic(HiddenSinglesApplier(h));
    assert list.heuristics == old(list.heuristics) + [HiddenSinglesApplier(h)];
  }

  /** `AddHeuristic(new NakedPairsHeuristic(board, maskManager, movesManager))`. */
  method AddNakedPairs(list: SudokuHeuristics)
    requires list.Valid() && list.QueuesOnBoard()
    modifies list
    ensures list.Valid() && list.QueuesOnBoard()
    ensures KindsOf(list.heuristics) == KindsOf(old(list.heuristics)) + [NakedPairsKind]
    ensures forall h :: h in list.Bases() ==> h in old(list.Bases()) || fresh(h)
  {
    var h := new NakedPairsHeuristic(list.board, list.maskManager, list.movesManager);
    list.AddHeuristic(NakedPairsApplier(h));
    assert list.heuristics == old(list.heuristics) + [NakedPairsApplier(h)];
  }
}
