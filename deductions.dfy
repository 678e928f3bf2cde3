/** What the heuristics look for, stated on the state model: a naked single is an empty
    cell with exactly one available digit, a hidden single a digit available in exactly
    one empty cell of a row, column or block. With masks that describe the board, both
    force their digit in every solution. */
module Deductions {
  import opened Bits
  import opened Rules
  import opened Moves
  import opened Trail
  import opened Masks

  /** An empty cell whose available mask has exactly one bit. */
  ghost predicate NakedAt(s: Snapshot, bs: int, r: int, c: int)
  {
    Shaped(s, bs) && InBounds(|s.grid|, r, c) && s.grid[r][c] == 0 && PopCount(Avail(s, bs, r, c)) == 1
  }

  ghost predicate HasNaked(s: Snapshot, bs: int)
  {
    exists r, c :: NakedAt(s, bs, r, c)
  }

  /** `cell` is empty and d is available there. */
  ghost predicate Takes(s: Snapshot, bs: int, cell: Cell, d: int)
  {
    Shaped(s, bs) && InBounds(|s.grid|, cell.0, cell.1) && s.grid[cell.0][cell.1] == 0 &&
    Has(Avail(s, bs, cell.0, cell.1), d)
  }

  /** How many cells of `cells` take d: the `count` of the hidden-singles scans. */
  ghost function CountAvail(s: Snapshot, bs: int, cells: seq<Cell>, d: int): nat
  {
    if |cells| == 0 then 0
    else CountAvail(s, bs, cells[..|cells| - 1], d) + (if Takes(s, bs, cells[|cells| - 1], d) then 1 else 0)
  }

  /** The last cell of `cells` that takes d, or (-1, -1): the `target` of those scans. */
  ghost function LastAvail(s: Snapshot, bs: int, cells: seq<Cell>, d: int): Cell
  {
    if |cells| == 0 then (-1, -1)
    else if Takes(s, bs, cells[|cells| - 1], d) then cells[|cells| - 1]
    else LastAvail(s, bs, cells[..|cells| - 1], d)
  }

  /** Digit d is available in exactly one empty cell of unit u. */
  ghost predicate HiddenIn(s: Snapshot, bs: int, u: Unit, d: int)
  {
    ValidUnit(|s.grid|, bs, u) && 1 <= d <= |s.grid| && CountAvail(s, bs, UnitCells(|s.grid|, bs, u), d) == 1
  }

  ghost predicate HasHidden(s: Snapshot, bs: int)
  {
    exists u, d :: HiddenIn(s, bs, u, d)
  }

  lemma {:induction false} CountAvailZero(s: Snapshot, bs: int, cells: seq<Cell>, d: int)
    ensures CountAvail(s, bs, cells, d) == 0 <==> forall i :: 0 <= i < |cells| ==> !Takes(s, bs, cells[i], d)
    decreases |cells|
  {
    if |cells| > 0 {
      var front := cells[..|cells| - 1];
      CountAvailZero(s, bs, front, d);
      assert forall i :: 0 <= i < |front| ==> front[i] == cells[i];
    }
  }

  /** With a count of one, the target is the one cell that takes the digit. */
  lemma {:induction false} CountAvailOne(s: Snapshot, bs: int, cells: seq<Cell>, d: int)
    requires CountAvail(s, bs, cells, d) == 1
    ensures var t := LastAvail(s, bs, cells, d);
      t in cells && Takes(s, bs, t, d) &&
      forall i :: 0 <= i < |cells| && Takes(s, bs, cells[i], d) ==> cells[i] == t
    decreases |cells|
  {
    var front := cells[..|cells| - 1];
    assert forall i :: 0 <= i < |front| ==> front[i] == cells[i];
    if Takes(s, bs, cells[|cells| - 1], d) {
      CountAvailZero(s, bs, front, d);
    } else {
      CountAvailOne(s, bs, front, d);
    }
  }

  lemma {:induction false} CountBitsOfZero(w: nat)
    ensures CountBits(0, w) == 0
  {
    if w > 0 {
      CountBitsOfZero(w - 1);
      ZeroBits(w - 1);
    }
  }

  /** The available digits are the candidates when the masks describe the board. */
  lemma AvailCandidates(s: Snapshot, bs: int, r: int, c: int)
    requires Agree(s, bs) && InBounds(|s.grid|, r, c)
    ensures forall d :: Has(Avail(s, bs, r, c), d) <==> IsCandidate(s.grid, bs, r, c, d)
  {
    forall d
      ensures Has(Avail(s, bs, r, c), d) <==> IsCandidate(s.grid, bs, r, c, d)
    {
      AgreeCandidate(s, bs, r, c, d);
    }
  }

  /** The digit of a naked single may be placed, and every solution has it there. */
  lemma NakedForced(s: Snapshot, bs: int, r: int, c: int)
    requires Agree(s, bs) && NakedAt(s, bs, r, c)
    ensures Avail(s, bs, r, c) != 0
    ensures var d := LowestDigit(Avail(s, bs, r, c));
      CanPlace(s, bs, Move(r, c, 0, d)) && Forced(s.grid, bs, r, c, d)
  {
    var avail := Avail(s, bs, r, c);
    CountBitsOfZero(WordBits);
    var d := LowestDigit(avail);
    SingleDigit(avail);
    AvailablePlaces(s, bs, r, c, d);
    NakedSingleOf(s, bs, r, c, d);
  }

  lemma NakedSingleOf(s: Snapshot, bs: int, r: int, c: int, d: int)
    requires Agree(s, bs) && InBounds(|s.grid|, r, c) && s.grid[r][c] == 0
    requires forall e :: Has(Avail(s, bs, r, c), e) <==> e == d
    ensures Forced(s.grid, bs, r, c, d)
  {
    assert Has(Avail(s, bs, r, c), d);
    AvailCandidates(s, bs, r, c);
    assert Candidates(s.grid, bs, r, c) == {d};
    NakedSingleForced(s.grid, bs, r, c, d);
  }

  /** An available digit of an empty cell may be placed there. */
  lemma AvailablePlaces(s: Snapshot, bs: int, r: int, c: int, d: int)
    requires Shaped(s, bs) && InBounds(|s.grid|, r, c) && s.grid[r][c] == 0 && Has(Avail(s, bs, r, c), d)
    ensures CanPlace(s, bs, Move(r, c, 0, d))
  {
  }

  /** The digit of a hidden single may be placed in its one cell, and every solution has
      it there. */
  lemma HiddenForced(s: Snapshot, bs: int, u: Unit, d: int)
    requires Agree(s, bs) && HiddenIn(s, bs, u, d)
    ensures var t := LastAvail(s, bs, UnitCells(|s.grid|, bs, u), d);
      CanPlace(s, bs, Move(t.0, t.1, 0, d)) && Forced(s.grid, bs, t.0, t.1, d)
  {
    var n := |s.grid|;
    var cells := UnitCells(n, bs, u);
    CountAvailOne(s, bs, cells, d);
    var t := LastAvail(s, bs, cells, d);
    AvailCandidates(s, bs, t.0, t.1);
    forall i | 0 <= i < |cells| && cells[i] != t && IsEmptyCell(s.grid, cells[i].0, cells[i].1)
      ensures !IsCandidate(s.grid, bs, cells[i].0, cells[i].1, d)
    {
      UnitCellsFacts(n, bs, u);
      AvailCandidates(s, bs, cells[i].0, cells[i].1);
    }
    assert HiddenSingle(s.grid, bs, u, t.0, t.1, d);
    HiddenSingleForced(s.grid, bs, u, t.0, t.1, d);
  }

  /** An empty cell without available digits makes the board unsolvable. */
  lemma EmptyWithoutDigits(s: Snapshot, bs: int, r: int, c: int)
    requires Agree(s, bs) && InBounds(|s.grid|, r, c) && s.grid[r][c] == 0 && Avail(s, bs, r, c) == 0
    ensures !Solvable(s.grid, bs)
  {
    AvailCandidates(s, bs, r, c);
    forall d ensures !IsCandidate(s.grid, bs, r, c, d) {
      if 1 <= d {
        ZeroBits(d - 1);
      }
    }
    assert Candidates(s.grid, bs, r, c) == {};
    NoCandidateNoSolution(s.grid, bs, r, c);
  }
}
