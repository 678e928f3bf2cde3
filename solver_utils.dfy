/** `SudokuSolverUtils`: the steps the search driver is built from. The board and its
    masks are read through `StateOf`, the state value the rest of the model reasons on. */
module SolverUtils {
  import opened Bits
  import opened Rules
  import opened Moves
  import opened Trail
  import opened Masks
  import opened Progress
  import opened Deductions
  import opened Errors
  import opened AlgorithmLevels
  import opened HeuristicList
  import opened Arith
  import opened Validation
  import Board

  /** `int.MaxValue`, the running minimum before any cell is seen. */
  const IntMax := 0x7fff_ffff

  /** The board and the masks have the same size. */
  ghost predicate Fits(board: Board.SudokuBoard, maskManager: MaskManager)
    reads board, maskManager, maskManager.rowMask, maskManager.colMask, maskManager.blockMask
  {
    board.Valid() && maskManager.Valid() && board.rows == maskManager.boardSize
  }

  /** The board and its masks as a state value. */
  ghost function StateOf(board: Board.SudokuBoard, maskManager: MaskManager): (s: Snapshot)
    reads board, board.board, maskManager, maskManager.rowMask, maskManager.colMask, maskManager.blockMask
    requires Fits(board, maskManager)
    ensures Shaped(s, maskManager.blockSize) && s.grid == board.Cells() && |s.grid| == board.rows
  {
    maskManager.State(board.Cells())
  }

  /** The number of digits still available at (r, c). */
  ghost function Options(s: Snapshot, bs: int, r: int, c: int): nat
    requires Shaped(s, bs) && InBounds(|s.grid|, r, c)
  {
    PopCount(Avail(s, bs, r, c))
  }

  /** (r, c) is empty and no digit is available there. */
  ghost predicate StuckAt(s: Snapshot, bs: int, r: int, c: int)
  {
    Shaped(s, bs) && InBounds(|s.grid|, r, c) && s.grid[r][c] == 0 && Avail(s, bs, r, c) == 0
  }

  /** Some empty cell of the first n rows and columns has no available digit. */
  ghost predicate Stuck(s: Snapshot, bs: int, n: int)
  {
    exists r, c :: InBounds(n, r, c) && StuckAt(s, bs, r, c)
  }

  /** Some cell of the first n rows and columns is empty. */
  ghost predicate HasEmpty(g: Grid, n: int)
  {
    exists r, c :: InBounds(n, r, c) && IsEmptyCell(g, r, c)
  }

  /** A grid without an empty cell is full. */
  lemma NoEmptyFull(g: Grid)
    requires IsGrid(g) && !HasEmpty(g, |g|)
    ensures Full(g)
  {
    forall r, c | 0 <= r < |g| && 0 <= c < |g[r]|
      ensures g[r][c] != 0
    {
      assert InBounds(|g|, r, c) && !IsEmptyCell(g, r, c);
    }
  }

  /** `EveryCellHasAvailableDigitsCheck`: false exactly when an empty cell has no digit
      left; filled cells are not looked at. Such a cell has no candidate, so a board whose
      masks describe it then has no solution. */
  method EveryCellHasAvailableDigitsCheck(board: Board.SudokuBoard, maskManager: MaskManager, boardSize: int)
    returns (ok: bool)
    requires Fits(board, maskManager) && boardSize <= board.rows
    ensures ok <==> !Stuck(StateOf(board, maskManager), maskManager.blockSize, boardSize)
    ensures !ok && Agree(StateOf(board, maskManager), maskManager.blockSize) ==>
      !Solvable(board.Cells(), maskManager.blockSize)
  {
    ghost var s := StateOf(board, maskManager);
    ghost var bs := maskManager.blockSize;
    var i := 0;
    while i < boardSize
      invariant 0 <= i && (i <= boardSize || i == 0)
      invariant forall r, c :: 0 <= r < i && 0 <= c < boardSize ==> !StuckAt(s, bs, r, c)
    {
      var j := 0;
      while j < boardSize
        invariant 0 <= j <= boardSize
        invariant forall r, c :: 0 <= r < i && 0 <= c < boardSize ==> !StuckAt(s, bs, r, c)
        invariant forall c :: 0 <= c < j ==> !StuckAt(s, bs, i, c)
      {
        if board.GetCell(i, j) == 0 {
          if maskManager.GetAvailableDigits(i, j) == 0 {
            assert StuckAt(s, bs, i, j);
            if Agree(s, bs) {
              EmptyWithoutDigits(s, bs, i, j);
            }
            return false;
          }
        }
        j := j + 1;
      }
      forall r, c | 0 <= r < i + 1 && 0 <= c < boardSize
        ensures !StuckAt(s, bs, r, c)
      {
        if r == i {
          assert c < j;
        }
      }
      i := i + 1;
    }
    return true;
  }

  /** `GetDefaultAlgorithmLevel`: level 2 up to 16 x 16, level 3 above; never `Default`. */
  function GetDefaultAlgorithmLevel(boardSize: int): (level: AlgorithmLevel)
    ensures level != Default
    ensures level == Level2 <==> boardSize <= 16
    ensures level == Level3 <==> boardSize > 16
  {
    if boardSize <= 16 then Level2 else Level3
  }

  /** `ApplyHeuristics`: `ApplyAll` again and again until a pass makes no progress. It
      ends because every pass with progress fills an empty cell. Afterwards no heuristic
      of the list has anything left to place, so a second call changes nothing: a list
      that is already quiet is left exactly as it is. A naked pairs heuristic in the list
      throws out of the first pass. */
  method ApplyHeuristics(heuristics: SudokuHeuristics) returns (res: Outcome<()>)
    requires heuristics.Valid() && heuristics.QueuesOnBoard() && Agree(heuristics.Now(), heuristics.maskManager.blockSize)
    modifies heuristics.Bases(), heuristics.board.board, heuristics.maskManager.rowMask,
             heuristics.maskManager.colMask, heuristics.maskManager.blockMask, heuristics.movesManager
    ensures heuristics.Valid() && heuristics.QueuesOnBoard() && Agree(heuristics.Now(), heuristics.maskManager.blockSize)
    ensures Advanced(old(heuristics.Now()), old(heuristics.movesManager.moveStack), heuristics.Now(),
                     heuristics.movesManager.moveStack, heuristics.maskManager.blockSize, true)
    ensures res.Ok? <==> NakedPairsKind !in KindsOf(heuristics.heuristics)
    ensures res.Ok? ==> Quiet(KindsOf(heuristics.heuristics), heuristics.Now(), heuristics.maskManager.blockSize)
    ensures Quiet(KindsOf(heuristics.heuristics), old(heuristics.Now()), heuristics.maskManager.blockSize) ==>
      heuristics.Now() == old(heuristics.Now()) && heuristics.movesManager.moveStack == old(heuristics.movesManager.moveStack)
    ensures res.Err? ==> res.error == NotImplemented
  {
    ghost var bs := heuristics.maskManager.blockSize;
    ghost var ks := KindsOf(heuristics.heuristics);
    ghost var s0, st0 := heuristics.Now(), heuristics.movesManager.moveStack;
    Unmoved(s0, st0, bs, true);
    var progress := true;
    while progress
      invariant heuristics.Valid() && heuristics.QueuesOnBoard() && Agree(heuristics.Now(), bs)
      invariant KindsOf(heuristics.heuristics) == ks
      invariant Advanced(s0, st0, heuristics.Now(), heuristics.movesManager.moveStack, bs, true)
      invariant !progress ==> Quiet(ks, heuristics.Now(), bs)
      invariant Quiet(ks, s0, bs) ==> heuristics.Now() == s0 && heuristics.movesManager.moveStack == st0
      decreases EmptyCount(heuristics.Now().grid) + (if progress then 1 else 0)
    {
      var r := ApplyPass(heuristics, ks, s0, st0);
      if r.Err? {
        return Err(r.error);
      }
      progress := r.value;
    }
    return Ok(());
  }

  /** One turn of the loop of `ApplyHeuristics`, which started at s0 with the log st0:
      `ApplyAll` once. A pass without progress leaves the list quiet, one with progress
      fills at least one cell, and a list quiet at s0 is still at s0. */
  method ApplyPass(heuristics: SudokuHeuristics, ghost ks: seq<Kind>, ghost s0: Snapshot, ghost st0: seq<Move>)
    returns (r: Outcome<bool>)
    requires heuristics.Valid() && heuristics.QueuesOnBoard() && Agree(heuristics.Now(), heuristics.maskManager.blockSize)
    requires ks == KindsOf(heuristics.heuristics)
    requires Advanced(s0, st0, heuristics.Now(), heuristics.movesManager.moveStack, heuristics.maskManager.blockSize, true)
    requires Quiet(ks, s0, heuristics.maskManager.blockSize) ==>
      heuristics.Now() == s0 && heuristics.movesManager.moveStack == st0
    modifies heuristics.Bases(), heuristics.board.board, heuristics.maskManager.rowMask,
             heuristics.maskManager.colMask, heuristics.maskManager.blockMask, heuristics.movesManager
    ensures heuristics.Valid() && heuristics.QueuesOnBoard() && Agree(heuristics.Now(), heuristics.maskManager.blockSize)
    ensures heuristics.heuristics == old(heuristics.heuristics)
    ensures Advanced(s0, st0, heuristics.Now(), heuristics.movesManager.moveStack, heuristics.maskManager.blockSize, true)
    ensures Quiet(ks, s0, heuristics.maskManager.blockSize) ==>
      heuristics.Now() == s0 && heuristics.movesManager.moveStack == st0
    ensures r.Ok? <==> NakedPairsKind !in ks
    ensures r.Err? ==> r.error == NotImplemented
    ensures r == Ok(false) ==> Quiet(ks, heuristics.Now(), heuristics.maskManager.blockSize)
    ensures r.Ok? ==>
      EmptyCount(heuristics.Now().grid) + (if r.value then 1 else 0) <= EmptyCount(old(heuristics.Now()).grid)
  {
    ghost var bs := heuristics.maskManager.blockSize;
    ghost var s, st := heuristics.Now(), heuristics.movesManager.moveStack;
    ghost var passes;
    r, passes := heuristics.ApplyAll();
    ghost var t, tt := heuristics.Now(), heuristics.movesManager.moveStack;
    AdvanceTrans(s0, st0, s, st, t, tt, bs, true);
    if r.Err? {
      PairsNeverQuiet(ks, s0, bs);
      return;
    }
    AdvanceFills(s, st, t, tt, bs, true);
  }

  /** `PlaceDigit`: write the digit and set its bits; no move is recorded. A board that the
      masks describe stays described when the digit is one the cell may take. */
  method PlaceDigit(board: Board.SudokuBoard, maskManager: MaskManager, row: int, col: int, digit: int)
    requires Fits(board, maskManager) && InBounds(board.rows, row, col)
    modifies board.board, maskManager.rowMask, maskManager.colMask, maskManager.blockMask
    ensures Fits(board, maskManager)
    ensures StateOf(board, maskManager) == Place(old(StateOf(board, maskManager)), maskManager.blockSize, Move(row, col, 0, digit))
    ensures Agree(old(StateOf(board, maskManager)), maskManager.blockSize) &&
            CanPlace(old(StateOf(board, maskManager)), maskManager.blockSize, Move(row, col, 0, digit)) ==>
            Agree(StateOf(board, maskManager), maskManager.blockSize)
  {
    ghost var s := StateOf(board, maskManager);
    board.SetCell(row, col, digit);
    maskManager.UpdateMasks(row, col, digit, true);
    maskManager.PlacingIsSetBits(s.grid, row, col, digit, s.rows, s.cols, s.blocks);
    if Agree(s, maskManager.blockSize) && CanPlace(s, maskManager.blockSize, Move(row, col, 0, digit)) {
      PlaceAgree(s, maskManager.blockSize, Move(row, col, 0, digit));
    }
  }

  /** `GetAvailableDigits` reads the available digits of the state. */
  lemma AvailableState(board: Board.SudokuBoard, maskManager: MaskManager, row: int, col: int)
    requires Fits(board, maskManager) && InBounds(board.rows, row, col)
    ensures maskManager.GetAvailableDigits(row, col) == Avail(StateOf(board, maskManager), maskManager.blockSize, row, col)
  {
  }

  /** How `FindMinimumEmptyCell` ranks an empty cell: by its number of available digits,
      except that a single digit ranks as well as none, since the scan stops at the first
      cell with a single digit. */
  ghost function Rank(s: Snapshot, bs: int, r: int, c: int): nat
    requires Shaped(s, bs) && InBounds(|s.grid|, r, c)
  {
    if Options(s, bs, r, c) <= 1 then 1 else Options(s, bs, r, c)
  }

  /** What `FindMinimumEmptyCell` returns: (-1, -1, false) when no cell of the first n rows
      and columns is empty, and otherwise the first empty cell in row-major order whose
      rank is least. */
  ghost predicate MinimumCell(s: Snapshot, bs: int, n: int, row: int, col: int, found: bool)
  {
    Shaped(s, bs) && 0 <= n <= |s.grid| &&
    (found <==> HasEmpty(s.grid, n)) &&
    (!found ==> row == -1 && col == -1) &&
    (found ==>
      InBounds(n, row, col) && s.grid[row][col] == 0 &&
      (forall r, c :: InBounds(n, r, c) && s.grid[r][c] == 0 ==> Rank(s, bs, r, c) >= Rank(s, bs, row, col)) &&
      (forall r, c :: InBounds(n, r, c) && s.grid[r][c] == 0 && Before(r, c, row, col) ==>
        Rank(s, bs, r, c) > Rank(s, bs, row, col)))
  }

  /** The scan of `FindMinimumEmptyCell` has looked at every cell before (i, j): `m` is the
      count of the cell it holds, never 1, and that cell ranks least among those seen and
      strictly below the empty cells before it. */
  ghost predicate Scanned(s: Snapshot, bs: int, n: int, i: int, j: int, row: int, col: int, m: int, found: bool)
  {
    Shaped(s, bs) && 0 <= n <= |s.grid| && 0 <= i <= n && 0 <= j <= n &&
    (!found ==> (row == -1 && col == -1 && m == IntMax &&
      forall r, c :: InBounds(n, r, c) && Before(r, c, i, j) ==> s.grid[r][c] != 0)) &&
    (found ==>
      InBounds(n, row, col) && s.grid[row][col] == 0 && Before(row, col, i, j) &&
      m == Options(s, bs, row, col) && m != 1 &&
      (forall r, c :: InBounds(n, r, c) && Before(r, c, i, j) && s.grid[r][c] == 0 ==>
        Rank(s, bs, r, c) >= Rank(s, bs, row, col)) &&
      (forall r, c :: InBounds(n, r, c) && s.grid[r][c] == 0 && Before(r, c, row, col) ==>
        Rank(s, bs, r, c) > Rank(s, bs, row, col)))
  }

  lemma ScanStart(s: Snapshot, bs: int, n: int)
    requires Shaped(s, bs) && 0 <= n <= |s.grid|
    ensures Scanned(s, bs, n, 0, 0, -1, -1, IntMax, false)
  {
  }

  /** A filled cell changes nothing. */
  lemma ScanFilled(s: Snapshot, bs: int, n: int, i: int, j: int, row: int, col: int, m: int, found: bool)
    requires Scanned(s, bs, n, i, j, row, col, m, found) && i < n && j < n && s.grid[i][j] != 0
    ensures Scanned(s, bs, n, i, j + 1, row, col, m, found)
  {
  }

  /** An empty cell with a single digit and fewer digits than the one held ends the scan
      with the result. */
  lemma ScanStop(s: Snapshot, bs: int, n: int, i: int, j: int, row: int, col: int, m: int, found: bool)
    requires Scanned(s, bs, n, i, j, row, col, m, found) && i < n && j < n && s.grid[i][j] == 0
    requires Options(s, bs, i, j) < m && Options(s, bs, i, j) == 1
    ensures MinimumCell(s, bs, n, i, j, true)
  {
    assert InBounds(n, i, j) && IsEmptyCell(s.grid, i, j);
    forall r, c | InBounds(n, r, c) && s.grid[r][c] == 0 && Before(r, c, i, j)
      ensures Rank(s, bs, r, c) > Rank(s, bs, i, j)
    {
      assert Before(r, c, i, j);
    }
  }

  /** An empty cell with fewer digits than the one held, but not a single one, replaces it. */
  lemma ScanTake(s: Snapshot, bs: int, n: int, i: int, j: int, row: int, col: int, m: int, found: bool)
    requires Scanned(s, bs, n, i, j, row, col, m, found) && i < n && j < n && s.grid[i][j] == 0
    requires Options(s, bs, i, j) < m && Options(s, bs, i, j) != 1
    ensures Scanned(s, bs, n, i, j + 1, i, j, Options(s, bs, i, j), true)
  {
    assert Rank(s, bs, i, j) < m;
    if found {
      forall r, c | InBounds(n, r, c) && s.grid[r][c] == 0 && Before(r, c, i, j)
        ensures Rank(s, bs, r, c) > Rank(s, bs, i, j)
      {
        assert Rank(s, bs, r, c) >= Rank(s, bs, row, col) == m;
      }
    }
    forall r, c | InBounds(n, r, c) && Before(r, c, i, j + 1) && s.grid[r][c] == 0
      ensures Rank(s, bs, r, c) >= Rank(s, bs, i, j)
    {
      if (r, c) != (i, j) {
        assert Before(r, c, i, j);
      }
    }
  }

  /** An empty cell with at least as many digits as the one held leaves it held. */
  lemma ScanKeep(s: Snapshot, bs: int, n: int, i: int, j: int, row: int, col: int, m: int, found: bool)
    requires Scanned(s, bs, n, i, j, row, col, m, found) && i < n && j < n && s.grid[i][j] == 0
    requires Options(s, bs, i, j) >= m
    ensures Scanned(s, bs, n, i, j + 1, row, col, m, true)
  {
    CountBitsBound(Avail(s, bs, i, j), WordBits);
  }

  /** The end of a row is the start of the next. */
  lemma ScanRow(s: Snapshot, bs: int, n: int, i: int, row: int, col: int, m: int, found: bool)
    requires Scanned(s, bs, n, i, n, row, col, m, found) && i < n
    ensures Scanned(s, bs, n, i + 1, 0, row, col, m, found)
  {
  }

  /** A scan of every row has the result. */
  lemma ScanEnd(s: Snapshot, bs: int, n: int, row: int, col: int, m: int, found: bool)
    requires Scanned(s, bs, n, n, 0, row, col, m, found)
    ensures MinimumCell(s, bs, n, row, col, found)
  {
    if found {
      assert InBounds(n, row, col) && IsEmptyCell(s.grid, row, col);
    }
  }

  /** One row of the scan of `FindMinimumEmptyCell`. */
  method ScanRowCells(board: Board.SudokuBoard, maskManager: MaskManager, boardSize: int, i: int,
                      row0: int, col0: int, minCount0: int, found0: bool, ghost s: Snapshot)
    returns (row: int, col: int, minCount: int, foundEmpty: bool, done: bool)
    requires Fits(board, maskManager) && 0 <= i < boardSize <= board.rows && s == StateOf(board, maskManager)
    requires Scanned(s, maskManager.blockSize, boardSize, i, 0, row0, col0, minCount0, found0)
    ensures done ==> foundEmpty && MinimumCell(s, maskManager.blockSize, boardSize, row, col, true)
    ensures !done ==> Scanned(s, maskManager.blockSize, boardSize, i + 1, 0, row, col, minCount, foundEmpty)
  {
    row, col, minCount, foundEmpty, done := row0, col0, minCount0, found0, false;
    var j := 0;
    while j < boardSize
      invariant 0 <= j <= boardSize
      invariant Scanned(s, maskManager.blockSize, boardSize, i, j, row, col, minCount, foundEmpty)
    {
      row, col, minCount, foundEmpty, done := ScanCell(board, maskManager, boardSize, i, j, row, col, minCount, foundEmpty, s);
      if done {
        return;
      }
      j := j + 1;
    }
    ScanRow(s, maskManager.blockSize, boardSize, i, row, col, minCount, foundEmpty);
  }

  /** The body of the inner loop of `FindMinimumEmptyCell`, for cell (i, j). */
  method ScanCell(board: Board.SudokuBoard, maskManager: MaskManager, boardSize: int, i: int, j: int,
                  row0: int, col0: int, minCount0: int, found0: bool, ghost s: Snapshot)
    returns (row: int, col: int, minCount: int, foundEmpty: bool, done: bool)
    requires Fits(board, maskManager) && 0 <= i < boardSize <= board.rows && 0 <= j < boardSize
    requires s == StateOf(board, maskManager)
    requires Scanned(s, maskManager.blockSize, boardSize, i, j, row0, col0, minCount0, found0)
    ensures done ==> foundEmpty && MinimumCell(s, maskManager.blockSize, boardSize, row, col, true)
    ensures !done ==> Scanned(s, maskManager.blockSize, boardSize, i, j + 1, row, col, minCount, foundEmpty)
  {
    ghost var bs := maskManager.blockSize;
    row, col, minCount, foundEmpty, done := row0, col0, minCount0, found0, false;
    if board.GetCell(i, j) == 0 {
      foundEmpty := true;
      var available := maskManager.GetAvailableDigits(i, j);
      var count := PopCount(available);
      AvailableState(board, maskManager, i, j);
      assert count == Options(s, bs, i, j);
      if count < minCount {
        if count == 1 {
          ScanStop(s, bs, boardSize, i, j, row0, col0, minCount0, found0);
        } else {
          ScanTake(s, bs, boardSize, i, j, row0, col0, minCount0, found0);
        }
        minCount := count;
        row, col := i, j;
      } else {
        ScanKeep(s, bs, boardSize, i, j, row0, col0, minCount0, found0);
      }
      done := minCount == 1;
    } else {
      ScanFilled(s, bs, boardSize, i, j, row0, col0, minCount0, found0);
    }
  }

  /** `FindMinimumEmptyCell`: the empty cell with the fewest available digits, the first in
      row-major order among equals, and (-1, -1, false) when no cell is empty. The scan stops
      at the first cell with a single digit, so it ranks a single digit as well as none. */
  method FindMinimumEmptyCell(board: Board.SudokuBoard, maskManager: MaskManager, boardSize: int)
    returns (row: int, col: int, foundEmpty: bool)
    requires Fits(board, maskManager) && 0 <= boardSize <= board.rows
    ensures MinimumCell(StateOf(board, maskManager), maskManager.blockSize, boardSize, row, col, foundEmpty)
  {
    ghost var s := StateOf(board, maskManager);
    ghost var bs := maskManager.blockSize;
    var minCount := IntMax;
    row, col, foundEmpty := -1, -1, false;
    ScanStart(s, bs, boardSize);
    var i := 0;
    while i < boardSize
      invariant 0 <= i <= boardSize
      invariant Scanned(s, bs, boardSize, i, 0, row, col, minCount, foundEmpty)
    {
      var done;
      row, col, minCount, foundEmpty, done := ScanRowCells(board, maskManager, boardSize, i, row, col, minCount, foundEmpty, s);
      if done {
        return row, col, true;
      }
      i := i + 1;
    }
    ScanEnd(s, bs, boardSize, row, col, minCount, foundEmpty);
  }

  /** Every cell is before or after every other. */
  lemma BeforeTotal(r1: int, c1: int, r2: int, c2: int)
    ensures (r1, c1) == (r2, c2) || Before(r1, c1, r2, c2) || Before(r2, c2, r1, c1)
    ensures !(Before(r1, c1, r2, c2) && Before(r2, c2, r1, c1))
  {
  }

  /** The result of `FindMinimumEmptyCell` is determined by the state. */
  lemma MinimumCellUnique(s: Snapshot, bs: int, n: int, r1: int, c1: int, f1: bool, r2: int, c2: int, f2: bool)
    requires MinimumCell(s, bs, n, r1, c1, f1) && MinimumCell(s, bs, n, r2, c2, f2)
    ensures r1 == r2 && c1 == c2 && f1 == f2
  {
    if f1 {
      BeforeTotal(r1, c1, r2, c2);
    }
  }

  /** A mask holds no digit exactly when it is zero. */
  lemma PopCountZero(x: nat)
    requires IsWord(x)
    ensures PopCount(x) == 0 <==> x == 0
  {
    PopCountDigits(x);
    if x != 0 {
      LowestDigitLeast(x);
      assert LowestDigit(x) in Digits(x);
    } else {
      forall d | d in Digits(0)
        ensures false
      {
        ZeroBits(d - 1);
      }
      assert Digits(0) == {};
    }
  }

  /** When no empty cell is stuck, the result has the fewest available digits of all empty
      cells, and strictly fewer than every empty cell before it. A stuck cell leaves a result
      with at most one digit. */
  lemma MinimumCellFewest(s: Snapshot, bs: int, n: int, row: int, col: int)
    requires MinimumCell(s, bs, n, row, col, true)
    ensures Stuck(s, bs, n) ==> Options(s, bs, row, col) <= 1
    ensures !Stuck(s, bs, n) ==> forall r, c :: InBounds(n, r, c) && s.grid[r][c] == 0 ==>
      Options(s, bs, row, col) <= Options(s, bs, r, c)
    ensures !Stuck(s, bs, n) ==> forall r, c :: InBounds(n, r, c) && s.grid[r][c] == 0 && Before(r, c, row, col) ==>
      Options(s, bs, row, col) < Options(s, bs, r, c)
  {
    if Stuck(s, bs, n) {
      var r, c :| InBounds(n, r, c) && StuckAt(s, bs, r, c);
      PopCountZero(Avail(s, bs, r, c));
      assert Rank(s, bs, r, c) == 1;
    } else {
      forall r, c | InBounds(n, r, c) && s.grid[r][c] == 0
        ensures Options(s, bs, r, c) >= 1
      {
        assert !StuckAt(s, bs, r, c);
        PopCountZero(Avail(s, bs, r, c));
      }
      PopCountZero(Avail(s, bs, row, col));
    }
  }

  /** `ValidateSolution`: the board's own validation; it fails exactly when a row, a column
      or a block repeats a digit. */
  method ValidateSolution(board: Board.SudokuBoard) returns (res: Outcome<()>)
    requires board.Valid() && IsPerfectSquare(board.rows)
    ensures res.Ok? <==> NoDuplicates(board.Cells(), ISqrt(board.rows))
    ensures res.Err? ==> res.error == InvalidBoard
  {
    res := board.ValidateBoard();
  }
}
