/** `HiddenSinglesHeuristic`: for every row, then every column, then every block, and for
    every digit, count the empty cells of the unit where the digit is available; when
    there is exactly one, place the digit there. Each count is taken on the board as the
    earlier placements of the same call left it. */
module HiddenSingles {
  import opened Arith
  import opened Bits
  import opened Rules
  import opened Moves
  import opened Trail
  import opened Masks
  import opened Progress
  import opened Deductions
  import opened HeuristicBase

  /** One more cell of a count loop. */
  lemma CountStep(s: Snapshot, bs: int, cells: seq<Cell>, k: int, d: int)
    requires 0 <= k < |cells|
    ensures CountAvail(s, bs, cells[..k + 1], d) ==
      CountAvail(s, bs, cells[..k], d) + (if Takes(s, bs, cells[k], d) then 1 else 0)
    ensures LastAvail(s, bs, cells[..k + 1], d) ==
      if Takes(s, bs, cells[k], d) then cells[k] else LastAvail(s, bs, cells[..k], d)
  {
    assert cells[..k + 1][..k] == cells[..k];
  }

  /** The one cell of a count of one lies in its unit. */
  lemma TargetInUnit(s: Snapshot, bs: int, u: Unit, d: int)
    requires Geometry(|s.grid|, bs) && ValidUnit(|s.grid|, bs, u)
    requires CountAvail(s, bs, UnitCells(|s.grid|, bs, u), d) == 1
    ensures var t := LastAvail(s, bs, UnitCells(|s.grid|, bs, u), d);
      InBounds(|s.grid|, t.0, t.1) && InUnit(bs, u, t)
  {
    var cells := UnitCells(|s.grid|, bs, u);
    CountAvailOne(s, bs, cells, d);
    UnitCellsFacts(|s.grid|, bs, u);
  }

  /** One digit of a pass over unit u: from the count on state s1, either the one cell
      that takes the digit gets it (and `after` is true) or nothing changes (and `after`
      is `before`). Either way the pass stands before the next digit. */
  lemma PassStep(s0: Snapshot, st0: seq<Move>, s1: Snapshot, st1: seq<Move>, s2: Snapshot, st2: seq<Move>,
                 bs: int, u: Unit, d: int, count: nat, before: bool, after: bool)
    requires PassedTo(s0, st0, s1, st1, bs, u, d, before) && d <= |s1.grid|
    requires count == CountAvail(s1, bs, UnitCells(|s1.grid|, bs, u), d)
    requires count == 1 ==> var t := LastAvail(s1, bs, UnitCells(|s1.grid|, bs, u), d);
      InBounds(|s1.grid|, t.0, t.1) &&
      st2 == st1 + [Move(t.0, t.1, 0, d)] && s2 == Place(s1, bs, Move(t.0, t.1, 0, d)) && after
    requires count != 1 ==> s2 == s1 && st2 == st1 && after == before
    ensures PassedTo(s0, st0, s2, st2, bs, u, d + 1, after)
  {
    if !before {
      NothingPushed(s0, st0, s1, st1, bs, true);
    }
    if count == 1 {
      assert HiddenIn(s1, bs, u, d);
      HiddenForced(s1, bs, u, d);
      var t := LastAvail(s1, bs, UnitCells(|s1.grid|, bs, u), d);
      AdvanceStep(s0, st0, s1, st1, bs, true, Move(t.0, t.1, 0, d));
      PlaceAgree(s1, bs, Move(t.0, t.1, 0, d));
    } else {
      assert !HiddenIn(s1, bs, u, d);
    }
  }

  /** A pass over unit u past its last digit: what it placed is a hidden single of the
      state it started from, what it left is `UnitPass` of that state, and when it placed
      nothing, u held no hidden single. */
  lemma PassEnd(s0: Snapshot, st0: seq<Move>, s: Snapshot, st: seq<Move>, bs: int, u: Unit, progress: bool)
    requires PassedTo(s0, st0, s, st, bs, u, |s.grid| + 1, progress)
    ensures Advanced(s0, st0, s, st, bs, true) && Agree(s, bs)
    ensures (progress <==> |st| > |st0|) && (progress ==> HasHidden(s0, bs))
    ensures !progress ==> UnitClear(s0, bs, u)
    ensures (s, st) == UnitPass((s0, st0), bs, u, 1)
  {
  }

  /** What a sweep from (s0, st0) to (s, st) keeps: only forced placements, the masks
      describing the board, and a flag that is true exactly when something was placed,
      which then was a hidden single of s0. */
  ghost predicate Swept(s0: Snapshot, st0: seq<Move>, s: Snapshot, st: seq<Move>, bs: int, progress: bool)
  {
    Advanced(s0, st0, s, st, bs, true) && Agree(s, bs) &&
    (progress <==> |st| > |st0|) && (progress ==> HasHidden(s0, bs))
  }

  /** Two sweeps one after the other make one, with the flags combined by `||`; when the
      first placed nothing, the second started from s0. */
  lemma Chain(s0: Snapshot, st0: seq<Move>, s1: Snapshot, st1: seq<Move>, s2: Snapshot, st2: seq<Move>,
              bs: int, before: bool, step: bool)
    requires Swept(s0, st0, s1, st1, bs, before) && Swept(s1, st1, s2, st2, bs, step)
    ensures Swept(s0, st0, s2, st2, bs, before || step)
    ensures !before ==> s1 == s0
  {
    AdvanceTrans(s0, st0, s1, st1, s2, st2, bs, true);
    if !before {
      NothingPushed(s0, st0, s1, st1, bs, true);
    }
  }

  /** A state with the move stack beside it: what a pass reads and leaves. */
  type Trace = (Snapshot, seq<Move>)

  /** The digit loop of a unit pass from digit d on: a count of one places the digit in
      the last (and only) cell that takes it and pushes the move; any other count leaves
      both alone. Each count is taken on the state the earlier digits left. */
  ghost function UnitPass(p: Trace, bs: int, u: Unit, d: int): (q: Trace)
    requires Shaped(p.0, bs) && ValidUnit(|p.0.grid|, bs, u)
    ensures Shaped(q.0, bs) && |q.0.grid| == |p.0.grid|
    decreases |p.0.grid| + 1 - d
  {
    var n := |p.0.grid|;
    if d > n then p
    else
      var cells := UnitCells(n, bs, u);
      if CountAvail(p.0, bs, cells, d) == 1 then
        TargetInUnit(p.0, bs, u, d);
        var t := LastAvail(p.0, bs, cells, d);
        var m := Move(t.0, t.1, 0, d);
        UnitPass((Place(p.0, bs, m), p.1 + [m]), bs, u, d + 1)
      else UnitPass(p, bs, u, d + 1)
  }

  /** The row pass of `Apply` from row r on. */
  ghost function RowsPass(p: Trace, bs: int, r: int): (q: Trace)
    requires Shaped(p.0, bs) && 0 <= r
    ensures Shaped(q.0, bs) && |q.0.grid| == |p.0.grid|
    decreases |p.0.grid| - r
  {
    if r >= |p.0.grid| then p else RowsPass(UnitPass(p, bs, RowUnit(r), 1), bs, r + 1)
  }

  /** The column pass of `Apply` from column c on. */
  ghost function ColsPass(p: Trace, bs: int, c: int): (q: Trace)
    requires Shaped(p.0, bs) && 0 <= c
    ensures Shaped(q.0, bs) && |q.0.grid| == |p.0.grid|
    decreases |p.0.grid| - c
  {
    if c >= |p.0.grid| then p else ColsPass(UnitPass(p, bs, ColUnit(c), 1), bs, c + 1)
  }

  /** The block pass of `Apply` from block (br, bc) on, row-major. */
  ghost function BlocksPass(p: Trace, bs: int, br: int, bc: int): (q: Trace)
    requires Shaped(p.0, bs) && 0 <= br && 0 <= bc
    ensures Shaped(q.0, bs) && |q.0.grid| == |p.0.grid|
    decreases bs - br, bs - bc
  {
    if br >= bs then p
    else if bc >= bs then BlocksPass(p, bs, br + 1, 0)
    else BlocksPass(UnitPass(p, bs, BlockUnit(br, bc), 1), bs, br, bc + 1)
  }

  /** All of `Apply`: every row, then every column, then every block. */
  ghost function HiddenPass(p: Trace, bs: int): (q: Trace)
    requires Shaped(p.0, bs)
    ensures Shaped(q.0, bs) && |q.0.grid| == |p.0.grid|
  {
    BlocksPass(ColsPass(RowsPass(p, bs, 0), bs, 0), bs, 0, 0)
  }

  /** Where a pass over unit u stands before digit d, having started from (s0, st0):
      only forced placements so far, the masks describing the board, the flag telling
      whether anything was placed (then s0 held a hidden single; if not, no digit before d
      is a hidden single of u in s0), and the rest of the pass leading where the whole
      pass from s0 leads. */
  ghost predicate PassedTo(s0: Snapshot, st0: seq<Move>, s: Snapshot, st: seq<Move>, bs: int, u: Unit, d: int,
                           progress: bool)
  {
    Shaped(s0, bs) && ValidUnit(|s0.grid|, bs, u) && Advanced(s0, st0, s, st, bs, true) && Agree(s, bs) &&
    |s.grid| == |s0.grid| && 1 <= d &&
    (progress <==> |st| > |st0|) && (progress ==> HasHidden(s0, bs)) &&
    (!progress ==> forall e :: e < d ==> !HiddenIn(s0, bs, u, e)) &&
    UnitPass((s, st), bs, u, d) == UnitPass((s0, st0), bs, u, 1)
  }

  /** No digit is a hidden single of unit u. */
  ghost predicate UnitClear(s: Snapshot, bs: int, u: Unit)
  {
    forall d :: !HiddenIn(s, bs, u, d)
  }

  /** No row before row k, no column before column k, no block before (br, bc) in
      row-major order holds a hidden single. */
  ghost predicate RowsClear(s: Snapshot, bs: int, k: int)
  {
    forall r :: 0 <= r < k ==> UnitClear(s, bs, RowUnit(r))
  }

  ghost predicate ColsClear(s: Snapshot, bs: int, k: int)
  {
    forall c :: 0 <= c < k ==> UnitClear(s, bs, ColUnit(c))
  }

  ghost predicate BlocksClear(s: Snapshot, bs: int, br: int, bc: int)
  {
    forall a, b :: (0 <= a < br && 0 <= b < bs) || (a == br && 0 <= b < bc) ==> UnitClear(s, bs, BlockUnit(a, b))
  }

  /** Where the row loop of `Apply` stands before row `row`, having started from
      (s0, st0): the sweep so far, every earlier row clear when nothing was placed, and
      the rest of the row pass leading where the whole one does. */
  ghost predicate RowsAt(s0: Snapshot, st0: seq<Move>, s: Snapshot, st: seq<Move>, bs: int, row: int, progress: bool)
  {
    Swept(s0, st0, s, st, bs, progress) && 0 <= row &&
    (!progress ==> RowsClear(s0, bs, row)) &&
    RowsPass((s, st), bs, row) == RowsPass((s0, st0), bs, 0)
  }

  /** Where the column loop stands before column `col`, the column pass having started
      from `start`. */
  ghost predicate ColsAt(s0: Snapshot, st0: seq<Move>, start: Trace, s: Snapshot, st: seq<Move>, bs: int, col: int,
                         progress: bool)
  {
    Swept(s0, st0, s, st, bs, progress) && 0 <= col && Shaped(start.0, bs) &&
    (!progress ==> RowsClear(s0, bs, |s0.grid|) && ColsClear(s0, bs, col)) &&
    ColsPass((s, st), bs, col) == ColsPass(start, bs, 0)
  }

  /** Where the block loops stand before block (br, bc), the block pass having started
      from `start`. */
  ghost predicate BlocksAt(s0: Snapshot, st0: seq<Move>, start: Trace, s: Snapshot, st: seq<Move>, bs: int,
                           br: int, bc: int, progress: bool)
  {
    Swept(s0, st0, s, st, bs, progress) && 0 <= br && 0 <= bc && Shaped(start.0, bs) &&
    (!progress ==> RowsClear(s0, bs, |s0.grid|) && ColsClear(s0, bs, |s0.grid|) && BlocksClear(s0, bs, br, bc)) &&
    BlocksPass((s, st), bs, br, bc) == BlocksPass(start, bs, 0, 0)
  }

  /** One row of the row loop: from the loop's standing before the row and what
      `ApplyHiddenSinglesRow` promises, its standing after it. */
  lemma RowsStep(s0: Snapshot, st0: seq<Move>, s1: Snapshot, st1: seq<Move>, s2: Snapshot, st2: seq<Move>,
                 bs: int, row: int, before: bool, p: bool)
    requires RowsAt(s0, st0, s1, st1, bs, row, before) && row < |s1.grid|
    requires Swept(s1, st1, s2, st2, bs, p) && (!p ==> UnitClear(s1, bs, RowUnit(row)))
    requires (s2, st2) == UnitPass((s1, st1), bs, RowUnit(row), 1)
    ensures RowsAt(s0, st0, s2, st2, bs, row + 1, before || p)
  {
    Chain(s0, st0, s1, st1, s2, st2, bs, before, p);
  }

  /** The row loop done: the board is `RowsPass` of where it started, and the column
      loop starts from there. */
  lemma RowsDone(s0: Snapshot, st0: seq<Move>, s: Snapshot, st: seq<Move>, bs: int, progress: bool)
    requires RowsAt(s0, st0, s, st, bs, |s.grid|, progress)
    ensures (s, st) == RowsPass((s0, st0), bs, 0)
    ensures ColsAt(s0, st0, (s, st), s, st, bs, 0, progress)
  {
  }

  /** One column of the column loop. */
  lemma ColsStep(s0: Snapshot, st0: seq<Move>, start: Trace, s1: Snapshot, st1: seq<Move>, s2: Snapshot, st2: seq<Move>,
                 bs: int, col: int, before: bool, p: bool)
    requires ColsAt(s0, st0, start, s1, st1, bs, col, before) && col < |s1.grid|
    requires Swept(s1, st1, s2, st2, bs, p) && (!p ==> UnitClear(s1, bs, ColUnit(col)))
    requires (s2, st2) == UnitPass((s1, st1), bs, ColUnit(col), 1)
    ensures ColsAt(s0, st0, start, s2, st2, bs, col + 1, before || p)
  {
    Chain(s0, st0, s1, st1, s2, st2, bs, before, p);
  }

  /** The column loop done: the board is `ColsPass` of where it started, and the block
      loops start from there. */
  lemma ColsDone(s0: Snapshot, st0: seq<Move>, start: Trace, s: Snapshot, st: seq<Move>, bs: int, progress: bool)
    requires ColsAt(s0, st0, start, s, st, bs, |s.grid|, progress)
    ensures (s, st) == ColsPass(start, bs, 0)
    ensures BlocksAt(s0, st0, (s, st), s, st, bs, 0, 0, progress)
  {
  }

  /** One block of the block loops. */
  lemma BlocksStep(s0: Snapshot, st0: seq<Move>, start: Trace, s1: Snapshot, st1: seq<Move>, s2: Snapshot, st2: seq<Move>,
                   bs: int, br: int, bc: int, before: bool, p: bool)
    requires BlocksAt(s0, st0, start, s1, st1, bs, br, bc, before) && br < bs && bc < bs
    requires Swept(s1, st1, s2, st2, bs, p) && (!p ==> UnitClear(s1, bs, BlockUnit(br, bc)))
    requires (s2, st2) == UnitPass((s1, st1), bs, BlockUnit(br, bc), 1)
    ensures BlocksAt(s0, st0, start, s2, st2, bs, br, bc + 1, before || p)
  {
    Chain(s0, st0, s1, st1, s2, st2, bs, before, p);
  }

  /** The end of a row of blocks: the next row starts at its first block. */
  lemma BlockRowPassed(s0: Snapshot, st0: seq<Move>, start: Trace, s: Snapshot, st: seq<Move>, bs: int, br: int,
                       progress: bool)
    requires BlocksAt(s0, st0, start, s, st, bs, br, bs, progress) && br < bs
    ensures BlocksAt(s0, st0, start, s, st, bs, br + 1, 0, progress)
  {
  }

  /** The block loops done: the board is `BlocksPass` of where they started; when nothing
      was placed, the board is the one the sweep started from, which held no hidden
      single. */
  lemma BlocksDone(s0: Snapshot, st0: seq<Move>, start: Trace, s: Snapshot, st: seq<Move>, bs: int, progress: bool)
    requires BlocksAt(s0, st0, start, s, st, bs, bs, 0, progress)
    ensures (s, st) == BlocksPass(start, bs, 0, 0)
    ensures !progress ==> !HasHidden(s0, bs) && s == s0 && st == st0
  {
    if !progress {
      ClearAll(s0, bs);
      NothingPushed(s0, st0, s, st, bs, true);
    }
  }

  /** Every unit checked without a hidden single: there is none. */
  lemma ClearAll(s: Snapshot, bs: int)
    requires RowsClear(s, bs, |s.grid|) && ColsClear(s, bs, |s.grid|) && BlocksClear(s, bs, bs, 0)
    ensures !HasHidden(s, bs)
  {
    forall u, d ensures !HiddenIn(s, bs, u, d) {
      match u
      case RowUnit(r) =>
        if 0 <= r < |s.grid| {
          assert UnitClear(s, bs, u);
        }
      case ColUnit(c) =>
        if 0 <= c < |s.grid| {
          assert UnitClear(s, bs, u);
        }
      case BlockUnit(a, b) =>
        if 0 <= a < bs && 0 <= b < bs {
          assert UnitClear(s, bs, u);
        }
    }
  }

  class HiddenSinglesHeuristic {
    const base: Heuristic

    ghost predicate Valid()
      reads base, base.board, base.maskManager, base.maskManager.rowMask, base.maskManager.colMask,
            base.maskManager.blockMask
    {
      base.Valid()
    }

    constructor (board: Board.SudokuBoard, maskManager: MaskManager, movesManager: MovesLog.MovesManager)
      requires board.Valid() && maskManager.Valid() && board.rows == maskManager.boardSize
      ensures Valid() && fresh(base) && base.cellsToProcess == []
      ensures base.board == board && base.maskManager == maskManager && base.movesManager == movesManager
    {
      base := new Heuristic(board, maskManager, movesManager);
    }

    /** The test of the count loops, `GetCell(r, c) == 0` and then
        `(available & maskDigit) != 0`, is `Takes` on the current state. */
    lemma TakesNow(row: int, col: int, digit: int)
      requires base.Valid() && InBounds(base.boardSize, row, col) && 1 <= digit <= base.boardSize
      ensures Takes(base.Now(), base.maskManager.blockSize, (row, col), digit) <==>
        base.board.GetCell(row, col) == 0 && And(base.maskManager.GetAvailableDigits(row, col), DigitBit(digit)) != 0
    {
      base.AvailableNow(row, col);
      TestDigit(base.maskManager.GetAvailableDigits(row, col), digit);
    }

    /** `Apply`: the row pass, the column pass and the block pass, each over all its units,
        whatever the earlier ones did. Every placement is a forced one, the masks keep
        describing the board, the result is true exactly when something was placed, which
        happens exactly when the board held a hidden single on entry, and the new board and
        move stack are `HiddenPass` of the old ones. */
    method Apply() returns (progressMade: bool)
      requires base.Valid() && Agree(base.Now(), base.maskManager.blockSize)
      modifies base.board.board, base.maskManager.rowMask, base.maskManager.colMask, base.maskManager.blockMask,
               base.movesManager
      ensures base.Valid() && Agree(base.Now(), base.maskManager.blockSize)
      ensures Advanced(old(base.Now()), old(base.movesManager.moveStack), base.Now(), base.movesManager.moveStack,
                       base.maskManager.blockSize, true)
      ensures progressMade <==> |base.movesManager.moveStack| > |old(base.movesManager.moveStack)|
      ensures progressMade <==> HasHidden(old(base.Now()), base.maskManager.blockSize)
      ensures !progressMade ==> base.Now() == old(base.Now()) && base.movesManager.moveStack == old(base.movesManager.moveStack)
      ensures (base.Now(), base.movesManager.moveStack) ==
        HiddenPass((old(base.Now()), old(base.movesManager.moveStack)), base.maskManager.blockSize)
    {
      ghost var bs := base.maskManager.blockSize;
      ghost var s0, st0 := base.Now(), base.movesManager.moveStack;
      Unmoved(s0, st0, bs, true);
      progressMade := ApplyRows(s0, st0);
      RowsDone(s0, st0, base.Now(), base.movesManager.moveStack, bs, progressMade);
      ghost var afterRows := (base.Now(), base.movesManager.moveStack);
      progressMade := ApplyColumns(s0, st0, afterRows, progressMade);
      ColsDone(s0, st0, afterRows, base.Now(), base.movesManager.moveStack, bs, progressMade);
      ghost var afterCols := (base.Now(), base.movesManager.moveStack);
      progressMade := ApplyBlocks(s0, st0, afterCols, progressMade);
      BlocksDone(s0, st0, afterCols, base.Now(), base.movesManager.moveStack, bs, progressMade);
    }

    /** The row loop of `Apply`, over rows 0 .. boardSize - 1. */
    method ApplyRows(ghost s0: Snapshot, ghost st0: seq<Move>) returns (progressMade: bool)
      requires base.Valid() && RowsAt(s0, st0, base.Now(), base.movesManager.moveStack, base.maskManager.blockSize, 0, false)
      modifies base.board.board, base.maskManager.rowMask, base.maskManager.colMask, base.maskManager.blockMask,
               base.movesManager
      ensures base.Valid()
      ensures RowsAt(s0, st0, base.Now(), base.movesManager.moveStack, base.maskManager.blockSize, base.boardSize, progressMade)
    {
      ghost var bs := base.maskManager.blockSize;
      progressMade := false;
      var row := 0;
      while row < base.boardSize
        invariant row <= base.boardSize && base.Valid()
        invariant RowsAt(s0, st0, base.Now(), base.movesManager.moveStack, bs, row, progressMade)
      {
        progressMade := SweepRow(s0, st0, row, progressMade);
        row := row + 1;
      }
    }

    /** The column loop of `Apply`, over columns 0 .. boardSize - 1, from where the row
        loop left the board. */
    method ApplyColumns(ghost s0: Snapshot, ghost st0: seq<Move>, ghost start: Trace, before: bool)
      returns (progressMade: bool)
      requires base.Valid()
      requires ColsAt(s0, st0, start, base.Now(), base.movesManager.moveStack, base.maskManager.blockSize, 0, before)
      modifies base.board.board, base.maskManager.rowMask, base.maskManager.colMask, base.maskManager.blockMask,
               base.movesManager
      ensures base.Valid()
      ensures ColsAt(s0, st0, start, base.Now(), base.movesManager.moveStack, base.maskManager.blockSize, base.boardSize,
                     progressMade)
    {
      ghost var bs := base.maskManager.blockSize;
      progressMade := before;
      var col := 0;
      while col < base.boardSize
        invariant col <= base.boardSize && base.Valid()
        invariant ColsAt(s0, st0, start, base.Now(), base.movesManager.moveStack, bs, col, progressMade)
      {
        progressMade := SweepColumn(s0, st0, start, col, progressMade);
        col := col + 1;
      }
    }

    /** The block loops of `Apply`, over block rows and, within each, block columns
        0 .. blockSize - 1, from where the column loop left the board. */
    method ApplyBlocks(ghost s0: Snapshot, ghost st0: seq<Move>, ghost start: Trace, before: bool)
      returns (progressMade: bool)
      requires base.Valid()
      requires BlocksAt(s0, st0, start, base.Now(), base.movesManager.moveStack, base.maskManager.blockSize, 0, 0, before)
      modifies base.board.board, base.maskManager.rowMask, base.maskManager.colMask, base.maskManager.blockMask,
               base.movesManager
      ensures base.Valid()
      ensures BlocksAt(s0, st0, start, base.Now(), base.movesManager.moveStack, base.maskManager.blockSize,
                       base.maskManager.blockSize, 0, progressMade)
    {
      ghost var bs := base.maskManager.blockSize;
      progressMade := before;
      var blockSize := ISqrt(base.boardSize);
      var blockRow := 0;
      while blockRow < blockSize
        invariant blockRow <= blockSize == bs && base.Valid()
        invariant BlocksAt(s0, st0, start, base.Now(), base.movesManager.moveStack, bs, blockRow, 0, progressMade)
      {
        progressMade := ApplyBlockRow(s0, st0, start, blockRow, blockSize, progressMade);
        BlockRowPassed(s0, st0, start, base.Now(), base.movesManager.moveStack, bs, blockRow, progressMade);
        blockRow := blockRow + 1;
      }
    }

    /** The inner block loop of `Apply`, over the blocks of block row `blockRow`. */
    method ApplyBlockRow(ghost s0: Snapshot, ghost st0: seq<Move>, ghost start: Trace, blockRow: int, blockSize: int,
                         before: bool) returns (progressMade: bool)
      requires base.Valid() && blockSize == base.maskManager.blockSize && blockRow < blockSize
      requires BlocksAt(s0, st0, start, base.Now(), base.movesManager.moveStack, blockSize, blockRow, 0, before)
      modifies base.board.board, base.maskManager.rowMask, base.maskManager.colMask, base.maskManager.blockMask,
               base.movesManager
      ensures base.Valid()
      ensures BlocksAt(s0, st0, start, base.Now(), base.movesManager.moveStack, blockSize, blockRow, blockSize, progressMade)
    {
      progressMade := before;
      var blockCol := 0;
      while blockCol < blockSize
        invariant blockCol <= blockSize && base.Valid()
        invariant BlocksAt(s0, st0, start, base.Now(), base.movesManager.moveStack, blockSize, blockRow, blockCol, progressMade)
      {
        progressMade := SweepBlock(s0, st0, start, blockRow, blockCol, progressMade);
        blockCol := blockCol + 1;
      }
    }

    /** One turn of the row loop of `Apply`, `if (ApplyHiddenSinglesRow(row))
        progressMade = true;`: from where the loop stands before the row to where it
        stands after it. */
    method SweepRow(ghost s0: Snapshot, ghost st0: seq<Move>, row: int, before: bool) returns (after: bool)
      requires base.Valid() && row < base.boardSize
      requires RowsAt(s0, st0, base.Now(), base.movesManager.moveStack, base.maskManager.blockSize, row, before)
      modifies base.board.board, base.maskManager.rowMask, base.maskManager.colMask, base.maskManager.blockMask,
               base.movesManager
      ensures base.Valid()
      ensures RowsAt(s0, st0, base.Now(), base.movesManager.moveStack, base.maskManager.blockSize, row + 1, after)
    {
      ghost var s1, st1 := base.Now(), base.movesManager.moveStack;
      var p := ApplyHiddenSinglesRow(row);
      RowsStep(s0, st0, s1, st1, base.Now(), base.movesManager.moveStack, base.maskManager.blockSize, row, before, p);
      after := before || p;
    }

    /** One turn of the column loop of `Apply`. */
    method SweepColumn(ghost s0: Snapshot, ghost st0: seq<Move>, ghost start: Trace, col: int, before: bool)
      returns (after: bool)
      requires base.Valid() && col < base.boardSize
      requires ColsAt(s0, st0, start, base.Now(), base.movesManager.moveStack, base.maskManager.blockSize, col, before)
      modifies base.board.board, base.maskManager.rowMask, base.maskManager.colMask, base.maskManager.blockMask,
               base.movesManager
      ensures base.Valid()
      ensures ColsAt(s0, st0, start, base.Now(), base.movesManager.moveStack, base.maskManager.blockSize, col + 1, after)
    {
      ghost var s1, st1 := base.Now(), base.movesManager.moveStack;
      var p := ApplyHiddenSinglesColumn(col);
      ColsStep(s0, st0, start, s1, st1, base.Now(), base.movesManager.moveStack, base.maskManager.blockSize, col, before, p);
      after := before || p;
    }

    /** One turn of the inner block loop of `Apply`. */
    method SweepBlock(ghost s0: Snapshot, ghost st0: seq<Move>, ghost start: Trace, blockRow: int, blockCol: int,
                      before: bool) returns (after: bool)
      requires base.Valid() && blockRow < base.maskManager.blockSize && blockCol < base.maskManager.blockSize
      requires BlocksAt(s0, st0, start, base.Now(), base.movesManager.moveStack, base.maskManager.blockSize,
                        blockRow, blockCol, before)
      modifies base.board.board, base.maskManager.rowMask, base.maskManager.colMask, base.maskManager.blockMask,
               base.movesManager
      ensures base.Valid()
      ensures BlocksAt(s0, st0, start, base.Now(), base.movesManager.moveStack, base.maskManager.blockSize,
                       blockRow, blockCol + 1, after)
    {
      ghost var s1, st1 := base.Now(), base.movesManager.moveStack;
      var p := ApplyHiddenSinglesBlock(blockRow, blockCol);
      BlocksStep(s0, st0, start, s1, st1, base.Now(), base.movesManager.moveStack, base.maskManager.blockSize,
                 blockRow, blockCol, before, p);
      after := before || p;
    }

    /** `ApplyHiddenSinglesRow(row)`: one count per digit, on the cells of the row from
        left to right, and a placement for every count of one. The result is true exactly
        when something was placed; when nothing was, the row held no hidden single. */
    method ApplyHiddenSinglesRow(row: int) returns (progress: bool)
      requires base.Valid() && Agree(base.Now(), base.maskManager.blockSize) && 0 <= row < base.boardSize
      modifies base.board.board, base.maskManager.rowMask, base.maskManager.colMask, base.maskManager.blockMask,
               base.movesManager
      ensures base.Valid() && Agree(base.Now(), base.maskManager.blockSize)
      ensures Advanced(old(base.Now()), old(base.movesManager.moveStack), base.Now(), base.movesManager.moveStack,
                       base.maskManager.blockSize, true)
      ensures progress <==> |base.movesManager.moveStack| > |old(base.movesManager.moveStack)|
      ensures progress ==> HasHidden(old(base.Now()), base.maskManager.blockSize)
      ensures !progress ==> UnitClear(old(base.Now()), base.maskManager.blockSize, RowUnit(row))
      ensures (base.Now(), base.movesManager.moveStack) ==
        UnitPass((old(base.Now()), old(base.movesManager.moveStack)), base.maskManager.blockSize, RowUnit(row), 1)
    {
      ghost var bs := base.maskManager.blockSize;
      ghost var s0, st0 := base.Now(), base.movesManager.moveStack;
      Unmoved(s0, st0, bs, true);
      progress := false;
      var digit := 1;
      while digit <= base.boardSize
        invariant digit <= base.boardSize + 1 && base.Valid()
        invariant PassedTo(s0, st0, base.Now(), base.movesManager.moveStack, bs, RowUnit(row), digit, progress)
      {
        var count, targetCol := CountRow(row, digit);
        if count == 1 {
          TargetInUnit(base.Now(), bs, RowUnit(row), digit);
        }
        progress := PlaceSingle(s0, st0, RowUnit(row), digit, count, row, targetCol, progress);
        digit := digit + 1;
      }
      PassEnd(s0, st0, base.Now(), base.movesManager.moveStack, bs, RowUnit(row), progress);
    }

    /** `ApplyHiddenSinglesColumn(col)`: the same, on the cells of the column from top to
        bottom. */
    method ApplyHiddenSinglesColumn(col: int) returns (progress: bool)
      requires base.Valid() && Agree(base.Now(), base.maskManager.blockSize) && 0 <= col < base.boardSize
      modifies base.board.board, base.maskManager.rowMask, base.maskManager.colMask, base.maskManager.blockMask,
               base.movesManager
      ensures base.Valid() && Agree(base.Now(), base.maskManager.blockSize)
      ensures Advanced(old(base.Now()), old(base.movesManager.moveStack), base.Now(), base.movesManager.moveStack,
                       base.maskManager.blockSize, true)
      ensures progress <==> |base.movesManager.moveStack| > |old(base.movesManager.moveStack)|
      ensures progress ==> HasHidden(old(base.Now()), base.maskManager.blockSize)
      ensures !progress ==> UnitClear(old(base.Now()), base.maskManager.blockSize, ColUnit(col))
      ensures (base.Now(), base.movesManager.moveStack) ==
        UnitPass((old(base.Now()), old(base.movesManager.moveStack)), base.maskManager.blockSize, ColUnit(col), 1)
    {
      ghost var bs := base.maskManager.blockSize;
      ghost var s0, st0 := base.Now(), base.movesManager.moveStack;
      Unmoved(s0, st0, bs, true);
      progress := false;
      var digit := 1;
      while digit <= base.boardSize
        invariant digit <= base.boardSize + 1 && base.Valid()
        invariant PassedTo(s0, st0, base.Now(), base.movesManager.moveStack, bs, ColUnit(col), digit, progress)
      {
        var count, targetRow := CountColumn(col, digit);
        if count == 1 {
          TargetInUnit(base.Now(), bs, ColUnit(col), digit);
        }
        progress := PlaceSingle(s0, st0, ColUnit(col), digit, count, targetRow, col, progress);
        digit := digit + 1;
      }
      PassEnd(s0, st0, base.Now(), base.movesManager.moveStack, bs, ColUnit(col), progress);
    }

    /** `ApplyHiddenSinglesBlock(blockRow, blockCol)`: the same, on the cells of rows
        startRow .. startRow + blockSize - 1 and columns startCol .. startCol + blockSize - 1,
        row by row. */
    method ApplyHiddenSinglesBlock(blockRow: int, blockCol: int) returns (progress: bool)
      requires base.Valid() && Agree(base.Now(), base.maskManager.blockSize)
      requires 0 <= blockRow < base.maskManager.blockSize && 0 <= blockCol < base.maskManager.blockSize
      modifies base.board.board, base.maskManager.rowMask, base.maskManager.colMask, base.maskManager.blockMask,
               base.movesManager
      ensures base.Valid() && Agree(base.Now(), base.maskManager.blockSize)
      ensures Advanced(old(base.Now()), old(base.movesManager.moveStack), base.Now(), base.movesManager.moveStack,
                       base.maskManager.blockSize, true)
      ensures progress <==> |base.movesManager.moveStack| > |old(base.movesManager.moveStack)|
      ensures progress ==> HasHidden(old(base.Now()), base.maskManager.blockSize)
      ensures !progress ==> UnitClear(old(base.Now()), base.maskManager.blockSize, BlockUnit(blockRow, blockCol))
      ensures (base.Now(), base.movesManager.moveStack) ==
        UnitPass((old(base.Now()), old(base.movesManager.moveStack)), base.maskManager.blockSize, BlockUnit(blockRow, blockCol), 1)
    {
      ghost var bs := base.maskManager.blockSize;
      ghost var s0, st0 := base.Now(), base.movesManager.moveStack;
      Unmoved(s0, st0, bs, true);
      progress := false;
      var blockSize := ISqrt(base.boardSize);
      var startRow := blockRow * blockSize;
      var startCol := blockCol * blockSize;
      var digit := 1;
      while digit <= base.boardSize
        invariant digit <= base.boardSize + 1 && base.Valid()
        invariant PassedTo(s0, st0, base.Now(), base.movesManager.moveStack, bs, BlockUnit(blockRow, blockCol), digit, progress)
      {
        var count, targetRow, targetCol := CountBlock(blockRow, blockCol, startRow, startCol, blockSize, digit);
        progress := PlaceSingle(s0, st0, BlockUnit(blockRow, blockCol), digit, count, targetRow, targetCol, progress);
        digit := digit + 1;
      }
      PassEnd(s0, st0, base.Now(), base.movesManager.moveStack, bs, BlockUnit(blockRow, blockCol), progress);
    }

    /** The `if (count == 1)` block of the three unit passes: record the move, set the
        cell, update the masks. The count and the target are those of unit u for the digit
        on the current state; what the block leaves is the next step of `UnitPass`. */
    method PlaceSingle(ghost s0: Snapshot, ghost st0: seq<Move>, ghost u: Unit, digit: int, count: nat,
                       targetRow: int, targetCol: int, before: bool) returns (after: bool)
      requires base.Valid() && digit <= base.boardSize
      requires PassedTo(s0, st0, base.Now(), base.movesManager.moveStack, base.maskManager.blockSize, u, digit, before)
      requires count == CountAvail(base.Now(), base.maskManager.blockSize, UnitCells(base.boardSize, base.maskManager.blockSize, u), digit)
      requires count == 1 ==> (targetRow, targetCol) == LastAvail(base.Now(), base.maskManager.blockSize, UnitCells(base.boardSize, base.maskManager.blockSize, u), digit)
      modifies base.board.board, base.maskManager.rowMask, base.maskManager.colMask, base.maskManager.blockMask,
               base.movesManager
      ensures base.Valid() && PassedTo(s0, st0, base.Now(), base.movesManager.moveStack, base.maskManager.blockSize, u, digit + 1, after)
    {
      ghost var bs := base.maskManager.blockSize;
      ghost var s1, st1 := base.Now(), base.movesManager.moveStack;
      after := before;
      if count == 1 {
        TargetInUnit(s1, bs, u, digit);
        base.RecordAndPlace(targetRow, targetCol, digit);
        after := true;
      }
      PassStep(s0, st0, s1, st1, base.Now(), base.movesManager.moveStack, bs, u, digit, count, before, after);
    }

    /** The count loop of `ApplyHiddenSinglesRow`: how many cells of the row take the
        digit, and the column of the last of them (-1 when there is none). */
    method CountRow(row: int, digit: int) returns (count: nat, targetCol: int)
      requires base.Valid() && 0 <= row < base.boardSize && 1 <= digit <= base.boardSize
      ensures count == CountAvail(base.Now(), base.maskManager.blockSize, RowCells(base.boardSize, row), digit)
      ensures targetCol == LastAvail(base.Now(), base.maskManager.blockSize, RowCells(base.boardSize, row), digit).1
    {
      ghost var s, bs := base.Now(), base.maskManager.blockSize;
      ghost var cells := RowCells(base.boardSize, row);
      count, targetCol := 0, -1;
      var maskDigit := ShiftOne(digit - 1);
      var col := 0;
      while col < base.boardSize
        invariant 0 <= col <= base.boardSize
        invariant count == CountAvail(s, bs, cells[..col], digit)
        invariant targetCol == LastAvail(s, bs, cells[..col], digit).1
      {
        RowCellAt(base.boardSize, row, col);
        CountStep(s, bs, cells, col, digit);
        TakesNow(row, col, digit);
        if base.board.GetCell(row, col) == 0 {
          var available := base.maskManager.GetAvailableDigits(row, col);
          if And(available, maskDigit) != 0 {
            count := count + 1;
            targetCol := col;
          }
        }
        col := col + 1;
      }
      assert cells[..col] == cells;
    }

    /** The count loop of `ApplyHiddenSinglesColumn`, over the cells of the column. */
    method CountColumn(col: int, digit: int) returns (count: nat, targetRow: int)
      requires base.Valid() && 0 <= col < base.boardSize && 1 <= digit <= base.boardSize
      ensures count == CountAvail(base.Now(), base.maskManager.blockSize, ColCells(base.boardSize, col), digit)
      ensures targetRow == LastAvail(base.Now(), base.maskManager.blockSize, ColCells(base.boardSize, col), digit).0
    {
      ghost var s, bs := base.Now(), base.maskManager.blockSize;
      ghost var cells := ColCells(base.boardSize, col);
      count, targetRow := 0, -1;
      var maskDigit := ShiftOne(digit - 1);
      var row := 0;
      while row < base.boardSize
        invariant 0 <= row <= base.boardSize
        invariant count == CountAvail(s, bs, cells[..row], digit)
        invariant targetRow == LastAvail(s, bs, cells[..row], digit).0
      {
        ColCellAt(base.boardSize, col, row);
        CountStep(s, bs, cells, row, digit);
        TakesNow(row, col, digit);
        if base.board.GetCell(row, col) == 0 {
          var available := base.maskManager.GetAvailableDigits(row, col);
          if And(available, maskDigit) != 0 {
            count := count + 1;
            targetRow := row;
          }
        }
        row := row + 1;
      }
      assert cells[..row] == cells;
    }

    /** The nested count loops of `ApplyHiddenSinglesBlock`, over the cells of block
        (blockRow, blockCol) row by row: how many take the digit, and the last of them
        ((-1, -1) when there is none). */
    method CountBlock(blockRow: int, blockCol: int, startRow: int, startCol: int, blockSize: int, digit: int)
      returns (count: nat, targetRow: int, targetCol: int)
      requires base.Valid() && 1 <= digit <= base.boardSize && blockSize == base.maskManager.blockSize
      requires 0 <= blockRow < blockSize && 0 <= blockCol < blockSize
      requires startRow == blockRow * blockSize && startCol == blockCol * blockSize
      ensures count == CountAvail(base.Now(), blockSize, BlockCells(blockSize, blockRow, blockCol), digit)
      ensures (targetRow, targetCol) == LastAvail(base.Now(), blockSize, BlockCells(blockSize, blockRow, blockCol), digit)
    {
      ghost var s := base.Now();
      ghost var cells := BlockCells(blockSize, blockRow, blockCol);
      count, targetRow, targetCol := 0, -1, -1;
      var maskDigit := ShiftOne(digit - 1);
      var r := startRow;
      ghost var i: nat, k: nat := 0, 0;
      while r < startRow + blockSize
        invariant r == startRow + i && i <= blockSize && k == i * blockSize && k <= |cells|
        invariant count == CountAvail(s, blockSize, cells[..k], digit)
        invariant (targetRow, targetCol) == LastAvail(s, blockSize, cells[..k], digit)
      {
        var c := startCol;
        ghost var j: nat := 0;
        while c < startCol + blockSize
          invariant c == startCol + j && j <= blockSize && k == i * blockSize + j && k <= |cells|
          invariant count == CountAvail(s, blockSize, cells[..k], digit)
          invariant (targetRow, targetCol) == LastAvail(s, blockSize, cells[..k], digit)
        {
          BlockScanAt(blockSize, blockRow, blockCol, i, j, k, r, c);
          count, targetRow, targetCol := CountCell(s, cells, k, r, c, digit, maskDigit, count, targetRow, targetCol);
          c, j, k := c + 1, j + 1, k + 1;
        }
        NextRow(i, blockSize, k);
        r, i := r + 1, i + 1;
      }
      BlockScanEnd(blockSize, blockRow, blockCol, i, k);
      assert cells[..k] == cells;
    }

    /** The body of the count loops of `ApplyHiddenSinglesBlock`: cell k of `cells`, that
        is (r, c), counted after the cells before it. */
    method CountCell(ghost s: Snapshot, ghost cells: seq<Cell>, ghost k: int, r: int, c: int, digit: int, maskDigit: nat,
                     count0: nat, targetRow0: int, targetCol0: int)
      returns (count: nat, targetRow: int, targetCol: int)
      requires base.Valid() && 1 <= digit <= base.boardSize && maskDigit == DigitBit(digit)
      requires s == base.Now() && InBounds(base.boardSize, r, c) && 0 <= k < |cells| && cells[k] == (r, c)
      requires count0 == CountAvail(s, base.maskManager.blockSize, cells[..k], digit)
      requires (targetRow0, targetCol0) == LastAvail(s, base.maskManager.blockSize, cells[..k], digit)
      ensures count == CountAvail(s, base.maskManager.blockSize, cells[..k + 1], digit)
      ensures (targetRow, targetCol) == LastAvail(s, base.maskManager.blockSize, cells[..k + 1], digit)
    {
      CountStep(s, base.maskManager.blockSize, cells, k, digit);
      TakesNow(r, c, digit);
      count, targetRow, targetCol := count0, targetRow0, targetCol0;
      if base.board.GetCell(r, c) == 0 {
        var available := base.maskManager.GetAvailableDigits(r, c);
        if And(available, maskDigit) != 0 {
          count := count + 1;
          targetRow, targetCol := r, c;
        }
      }
    }
  }
}
