/** The solver's state as a value: the board with its row, column and block masks.
    Placing a move and undoing it are functions on this value, so the rollback the
    move log performs can be stated and proved once, independently of the classes
    that hold the state. */
module Trail {
  import opened Arith
  import opened Bits
  import opened Rules
  import opened Moves

  datatype Snapshot = Snapshot(grid: Grid, rows: seq<nat>, cols: seq<nat>, blocks: seq<nat>)

  /** Sizes fit together and every mask is a 32-bit pattern. */
  ghost predicate Shaped(s: Snapshot, bs: int)
  {
    var n := |s.grid|;
    IsGrid(s.grid) && Geometry(n, bs) && n <= WordBits &&
    |s.rows| == n && |s.cols| == n && |s.blocks| == n &&
    (forall i :: 0 <= i < n ==> IsWord(s.rows[i]) && IsWord(s.cols[i]) && IsWord(s.blocks[i]))
  }

  /** The masks describe the board: digit d is set in the mask of a row, column or
      block exactly when some cell of it holds d. */
  ghost predicate Agree(s: Snapshot, bs: int)
  {
    Shaped(s, bs) && InRange(s.grid) &&
    forall i, d :: 0 <= i < |s.grid| && 1 <= d <= WordBits ==>
      (Has(s.rows[i], d) <==> RowHas(s.grid, i, d)) &&
      (Has(s.cols[i], d) <==> ColHas(s.grid, i, d)) &&
      (Has(s.blocks[i], d) <==> BlockHas(s.grid, bs, i, d))
  }

  /** `UpdateMasks(row, col, digit, isPlacing: true)`. */
  ghost function SetBits(s: Snapshot, bs: int, r: int, c: int, d: int): (t: Snapshot)
    requires Shaped(s, bs) && InBounds(|s.grid|, r, c)
    ensures Shaped(t, bs) && t.grid == s.grid
  {
    BlockIndexBound(|s.grid|, bs, r, c);
    DigitBitWord(d);
    var b := BlockIndex(bs, r, c);
    WordOr(s.rows[r], DigitBit(d));
    WordOr(s.cols[c], DigitBit(d));
    WordOr(s.blocks[b], DigitBit(d));
    s.(rows := s.rows[r := Or(s.rows[r], DigitBit(d))],
       cols := s.cols[c := Or(s.cols[c], DigitBit(d))],
       blocks := s.blocks[b := Or(s.blocks[b], DigitBit(d))])
  }

  /** `UpdateMasks(row, col, digit, isPlacing: false)`. */
  ghost function ClearBits(s: Snapshot, bs: int, r: int, c: int, d: int): (t: Snapshot)
    requires Shaped(s, bs) && InBounds(|s.grid|, r, c)
    ensures Shaped(t, bs) && t.grid == s.grid
  {
    BlockIndexBound(|s.grid|, bs, r, c);
    DigitBitWord(d);
    var b := BlockIndex(bs, r, c);
    WordAnd(s.rows[r], Not(DigitBit(d)));
    WordAnd(s.cols[c], Not(DigitBit(d)));
    WordAnd(s.blocks[b], Not(DigitBit(d)));
    s.(rows := s.rows[r := And(s.rows[r], Not(DigitBit(d)))],
       cols := s.cols[c := And(s.cols[c], Not(DigitBit(d)))],
       blocks := s.blocks[b := And(s.blocks[b], Not(DigitBit(d)))])
  }

  /** `SetCell(row, col, v)`. */
  ghost function SetCell(s: Snapshot, bs: int, r: int, c: int, v: int): (t: Snapshot)
    requires Shaped(s, bs) && InBounds(|s.grid|, r, c)
    ensures Shaped(t, bs) && |t.grid| == |s.grid|
  {
    s.(grid := Update(s.grid, r, c, v))
  }

  /** What the solver does for a recorded move: write the new value, then set its bits. */
  ghost function Place(s: Snapshot, bs: int, m: Move): (t: Snapshot)
    requires Shaped(s, bs) && InBounds(|s.grid|, m.row, m.col)
    ensures Shaped(t, bs) && |t.grid| == |s.grid|
  {
    SetBits(SetCell(s, bs, m.row, m.col, m.newValue), bs, m.row, m.col, m.newValue)
  }

  /** One step of `UndoMoves`: write the old value back, clear the new value's bits when
      it is non-zero, set the old value's bits when it is non-zero. */
  ghost function Undo(s: Snapshot, bs: int, m: Move): (t: Snapshot)
    requires Shaped(s, bs) && InBounds(|s.grid|, m.row, m.col)
    ensures Shaped(t, bs) && |t.grid| == |s.grid|
  {
    var s1 := SetCell(s, bs, m.row, m.col, m.oldValue);
    var s2 := if m.newValue != 0 then ClearBits(s1, bs, m.row, m.col, m.newValue) else s1;
    if m.oldValue != 0 then SetBits(s2, bs, m.row, m.col, m.oldValue) else s2
  }

  /** A placement the solver may make: a digit 1..n written into an empty cell whose row,
      column and block masks do not hold it yet. */
  ghost predicate CanPlace(s: Snapshot, bs: int, m: Move)
  {
    Shaped(s, bs) && InBounds(|s.grid|, m.row, m.col) &&
    m.oldValue == 0 && s.grid[m.row][m.col] == 0 && 1 <= m.newValue <= |s.grid| &&
    0 <= BlockIndex(bs, m.row, m.col) < |s.grid| &&
    !Has(s.rows[m.row], m.newValue) && !Has(s.cols[m.col], m.newValue) &&
    !Has(s.blocks[BlockIndex(bs, m.row, m.col)], m.newValue)
  }

  /** ms is a sequence of placements applied one after the other from s; when `forced`
      holds, each one puts into its cell the digit every solution has there. */
  ghost predicate ValidTrail(s: Snapshot, bs: int, ms: seq<Move>, forced: bool)
    decreases |ms|
  {
    Shaped(s, bs) &&
    (|ms| == 0 ||
     (CanPlace(s, bs, ms[0]) && (forced ==> Forced(s.grid, bs, ms[0].row, ms[0].col, ms[0].newValue)) &&
      ValidTrail(Place(s, bs, ms[0]), bs, ms[1..], forced)))
  }

  /** The state after applying the placements of ms, oldest first. */
  ghost function Replay(s: Snapshot, bs: int, ms: seq<Move>, forced: bool): (t: Snapshot)
    requires ValidTrail(s, bs, ms, forced)
    ensures Shaped(t, bs) && |t.grid| == |s.grid|
    decreases |ms|
  {
    if |ms| == 0 then s else Replay(Place(s, bs, ms[0]), bs, ms[1..], forced)
  }

  /** The moves whose cells lie on the board. */
  predicate OnBoard(n: int, ms: seq<Move>)
  {
    forall i :: 0 <= i < |ms| ==> InBounds(n, ms[i].row, ms[i].col)
  }

  /** `UndoMoves` applied to all of ms: the newest move is undone first. */
  ghost function UndoAll(s: Snapshot, bs: int, ms: seq<Move>): (t: Snapshot)
    requires Shaped(s, bs) && OnBoard(|s.grid|, ms)
    ensures Shaped(t, bs) && |t.grid| == |s.grid|
    decreases |ms|
  {
    if |ms| == 0 then s else Undo(UndoAll(s, bs, ms[1..]), bs, ms[0])
  }

  // ---------------------------------------------------------------------------
  // Rollback exactness

  /** Clearing a bit that was just set gives the mask back, when the bit was clear before. */
  lemma SetClearBit(x: nat, d: int)
    requires IsWord(x) && 1 <= d <= WordBits && !Has(x, d)
    ensures IsWord(Or(x, DigitBit(d))) && And(Or(x, DigitBit(d)), Not(DigitBit(d))) == x
  {
    DigitBitWord(d);
    var y := Or(x, DigitBit(d));
    WordOr(x, DigitBit(d));
    WordAnd(y, Not(DigitBit(d)));
    forall e | 1 <= e <= WordBits
      ensures Has(And(y, Not(DigitBit(d))), e) <==> Has(x, e)
    {
      HasAnd(y, Not(DigitBit(d)), e);
      HasNot(DigitBit(d), e);
      HasOr(x, DigitBit(d), e);
      HasDigitBit(d, e);
    }
    DigitsDetermine(And(y, Not(DigitBit(d))), x);
  }

  lemma MaskRestore(ms: seq<nat>, i: int, d: int)
    requires 0 <= i < |ms| && IsWord(ms[i]) && 1 <= d <= WordBits && !Has(ms[i], d)
    ensures var up := ms[i := Or(ms[i], DigitBit(d))];
      up[i := And(up[i], Not(DigitBit(d)))] == ms
  {
    SetClearBit(ms[i], d);
  }

  lemma GridRestore(g: Grid, r: int, c: int, d: int)
    requires 0 <= r < |g| && 0 <= c < |g[r]| && g[r][c] == 0
    ensures Update(Update(g, r, c, d), r, c, 0) == g
  {
    assert Update(Update(g, r, c, d), r, c, 0)[r] == g[r];
  }

  /** Undoing a placement restores the state it was made in. */
  lemma UndoPlace(s: Snapshot, bs: int, m: Move)
    requires CanPlace(s, bs, m)
    ensures Undo(Place(s, bs, m), bs, m) == s
  {
    var (r, c, d) := (m.row, m.col, m.newValue);
    var b := BlockIndex(bs, r, c);
    MaskRestore(s.rows, r, d);
    MaskRestore(s.cols, c, d);
    MaskRestore(s.blocks, b, d);
    GridRestore(s.grid, r, c, d);
  }

  lemma {:induction false} TrailOnBoard(s: Snapshot, bs: int, ms: seq<Move>, forced: bool)
    requires ValidTrail(s, bs, ms, forced)
    ensures OnBoard(|s.grid|, ms)
    decreases |ms|
  {
    if |ms| > 0 {
      TrailOnBoard(Place(s, bs, ms[0]), bs, ms[1..], forced);
      assert forall i :: 1 <= i < |ms| ==> ms[i] == ms[1..][i - 1];
    }
  }

  /** Rollback exactness: undoing, newest first, every placement of a trail returns to
      the state the trail started from. */
  lemma {:induction false} Rollback(s: Snapshot, bs: int, ms: seq<Move>, forced: bool)
    requires ValidTrail(s, bs, ms, forced)
    ensures Shaped(Replay(s, bs, ms, forced), bs) && |Replay(s, bs, ms, forced).grid| == |s.grid|
    ensures OnBoard(|s.grid|, ms) && UndoAll(Replay(s, bs, ms, forced), bs, ms) == s
    decreases |ms|
  {
    TrailOnBoard(s, bs, ms, forced);
    if |ms| > 0 {
      var t := Place(s, bs, ms[0]);
      Rollback(t, bs, ms[1..], forced);
      UndoPlace(s, bs, ms[0]);
    }
  }

  // ---------------------------------------------------------------------------
  // Building trails

  lemma TrailSingle(s: Snapshot, bs: int, m: Move, forced: bool)
    requires CanPlace(s, bs, m) && (forced ==> Forced(s.grid, bs, m.row, m.col, m.newValue))
    ensures ValidTrail(s, bs, [m], forced) && Replay(s, bs, [m], forced) == Place(s, bs, m)
  {
    assert [m][1..] == [];
  }

  /** Two trails one after the other form a trail. */
  lemma {:induction false} TrailConcat(s: Snapshot, bs: int, a: seq<Move>, b: seq<Move>, forced: bool)
    requires ValidTrail(s, bs, a, forced) && ValidTrail(Replay(s, bs, a, forced), bs, b, forced)
    ensures ValidTrail(s, bs, a + b, forced)
    ensures Replay(s, bs, a + b, forced) == Replay(Replay(s, bs, a, forced), bs, b, forced)
    decreases |a|
  {
    if |a| > 0 {
      assert (a + b)[0] == a[0];
      assert (a + b)[1..] == a[1..] + b;
      TrailConcat(Place(s, bs, a[0]), bs, a[1..], b, forced);
    } else {
      assert a + b == b;
    }
  }

  /** A forced trail is a trail. */
  lemma {:induction false} ForcedTrail(s: Snapshot, bs: int, ms: seq<Move>)
    requires ValidTrail(s, bs, ms, true)
    ensures ValidTrail(s, bs, ms, false) && Replay(s, bs, ms, false) == Replay(s, bs, ms, true)
    decreases |ms|
  {
    if |ms| > 0 {
      ForcedTrail(Place(s, bs, ms[0]), bs, ms[1..]);
    }
  }

  // ---------------------------------------------------------------------------
  // Masks that agree with the board

  /** Setting the bits of digit d, which now occurs in the cell's row, column and block,
      keeps the masks in agreement with the board. */
  lemma PlaceAgree(s: Snapshot, bs: int, m: Move)
    requires Agree(s, bs) && InBounds(|s.grid|, m.row, m.col) && s.grid[m.row][m.col] == 0
    requires 1 <= m.newValue <= |s.grid|
    ensures Agree(Place(s, bs, m), bs)
  {
    var n := |s.grid|;
    var (r, c, d) := (m.row, m.col, m.newValue);
    var t := Place(s, bs, m);
    BlockIndexBound(n, bs, r, c);
    var b := BlockIndex(bs, r, c);
    forall i, e | 0 <= i < n && 1 <= e <= WordBits
      ensures (Has(t.rows[i], e) <==> RowHas(t.grid, i, e)) &&
        (Has(t.cols[i], e) <==> ColHas(t.grid, i, e)) &&
        (Has(t.blocks[i], e) <==> BlockHas(t.grid, bs, i, e))
    {
      HasDigitBit(d, e);
      HasOr(s.rows[i], DigitBit(d), e);
      HasOr(s.cols[i], DigitBit(d), e);
      HasOr(s.blocks[i], DigitBit(d), e);
      RowHasUpdate(s.grid, r, c, d, i, e);
      ColHasUpdate(s.grid, r, c, d, i, e);
      BlockHasUpdate(s.grid, bs, r, c, d, i, e);
    }
  }

  /** With agreeing masks, "no mask of the cell holds d" is "d is a candidate of the cell". */
  lemma AgreeCandidate(s: Snapshot, bs: int, r: int, c: int, d: int)
    requires Agree(s, bs) && InBounds(|s.grid|, r, c)
    ensures 0 <= BlockIndex(bs, r, c) < |s.grid|
    ensures (1 <= d <= |s.grid| && !Has(s.rows[r], d) && !Has(s.cols[c], d) &&
      !Has(s.blocks[BlockIndex(bs, r, c)], d)) <==> IsCandidate(s.grid, bs, r, c, d)
  {
    BlockIndexBound(|s.grid|, bs, r, c);
  }

  /** Replaying a trail keeps the masks in agreement with the board. */
  lemma {:induction false} TrailAgree(s: Snapshot, bs: int, ms: seq<Move>, forced: bool)
    requires Agree(s, bs) && ValidTrail(s, bs, ms, forced)
    ensures Agree(Replay(s, bs, ms, forced), bs)
    decreases |ms|
  {
    if |ms| > 0 {
      PlaceAgree(s, bs, ms[0]);
      TrailAgree(Place(s, bs, ms[0]), bs, ms[1..], forced);
    }
  }

  /** A trail only fills empty cells, one per move, and creates no duplicate. */
  lemma {:induction false} TrailFills(s: Snapshot, bs: int, ms: seq<Move>, forced: bool)
    requires Agree(s, bs) && ValidTrail(s, bs, ms, forced)
    ensures var t := Replay(s, bs, ms, forced);
      Extends(t.grid, s.grid) && EmptyCount(t.grid) + |ms| == EmptyCount(s.grid) &&
      (NoDuplicates(s.grid, bs) ==> NoDuplicates(t.grid, bs))
    decreases |ms|
  {
    if |ms| > 0 {
      var m := ms[0];
      var p := Place(s, bs, m);
      PlaceAgree(s, bs, m);
      UpdateExtends(s.grid, m.row, m.col, m.newValue);
      EmptyCountUpdate(s.grid, m.row, m.col, m.newValue);
      AgreeCandidate(s, bs, m.row, m.col, m.newValue);
      if NoDuplicates(s.grid, bs) {
        CandidateKeepsNoDuplicates(s.grid, bs, m.row, m.col, m.newValue);
      }
      TrailFills(p, bs, ms[1..], forced);
      ExtendsTrans(Replay(p, bs, ms[1..], forced).grid, p.grid, s.grid);
    }
  }

  /** A forced trail keeps exactly the solutions of the board it starts from. */
  lemma {:induction false} ForcedTrailSolutions(s: Snapshot, bs: int, ms: seq<Move>, sol: Grid)
    requires ValidTrail(s, bs, ms, true)
    ensures Solves(sol, s.grid, bs) <==> Solves(sol, Replay(s, bs, ms, true).grid, bs)
    decreases |ms|
  {
    if |ms| > 0 {
      var m := ms[0];
      GuessSplitsSolutions(s.grid, bs, m.row, m.col, m.newValue, sol);
      ForcedTrailSolutions(Place(s, bs, m), bs, ms[1..], sol);
    }
  }
}
