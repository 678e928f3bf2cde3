/** What the backtracking search of both solver drivers relies on: a guess whose branch
    ends in a board without solution rules its digit out of the cell, and a cell whose
    available digits are all ruled out leaves the board without a solution. */
module Search {
  import opened Bits
  import opened Rules
  import opened Moves
  import opened Trail
  import opened Masks
  import opened Progress
  import opened Deductions

  /** No solution of g has d at (r, c). */
  ghost predicate Refuted(g: Grid, bs: int, r: int, c: int, d: int)
  {
    InBounds(|g|, r, c) && forall sol :: Solves(sol, g, bs) ==> sol[r][c] != d
  }

  /** A guess m at an empty cell of s0, followed by a trail of forced placements that ends
      in a board without solution, rules the guessed digit out of that cell. */
  lemma GuessRefuted(s0: Snapshot, st1: seq<Move>, s2: Snapshot, st2: seq<Move>, bs: int, m: Move)
    requires CanPlace(s0, bs, m)
    requires Advanced(Place(s0, bs, m), st1, s2, st2, bs, true) && !Solvable(s2.grid, bs)
    ensures Refuted(s0.grid, bs, m.row, m.col, m.newValue)
  {
    var s1 := Place(s0, bs, m);
    assert s1.grid == Update(s0.grid, m.row, m.col, m.newValue);
    forall sol | Solves(sol, s0.grid, bs)
      ensures sol[m.row][m.col] != m.newValue
    {
      GuessSplitsSolutions(s0.grid, bs, m.row, m.col, m.newValue, sol);
      AdvanceSolutions(s1, st1, s2, st2, bs, sol);
    }
  }

  /** When every digit available at the empty cell (r, c) is ruled out, the board has no
      solution: a solution would put one of those digits there. */
  lemma AllRefuted(s: Snapshot, bs: int, r: int, c: int)
    requires Agree(s, bs) && InBounds(|s.grid|, r, c) && s.grid[r][c] == 0
    requires forall d :: Has(Avail(s, bs, r, c), d) ==> Refuted(s.grid, bs, r, c, d)
    ensures !Solvable(s.grid, bs)
  {
    AvailCandidates(s, bs, r, c);
    forall sol | Solves(sol, s.grid, bs)
      ensures Has(Avail(s, bs, r, c), sol[r][c])
    {
      SolutionTakesCandidate(sol, s.grid, bs, r, c);
    }
  }

  /** One turn of the candidate loop: `bit = a & -a`, `a &= a - 1`,
      `digit = TrailingZeroCount(bit) + 1` takes the lowest digit of a out of a. */
  lemma NextCandidate(a: nat)
    requires IsWord(a) && a != 0
    ensures And(a, Neg(a)) != 0 && TrailingZeroCount(And(a, Neg(a))) + 1 == LowestDigit(a)
    ensures Has(a, LowestDigit(a))
    ensures IsWord(And(a, Dec(a))) && And(a, Dec(a)) < a
  {
    LowestBit(a);
    LowestDigitLeast(a);
    DropLowest(a);
  }

  /** The candidate loop at (r, c), started on the mask avail0, has the mask a left: the
      digits it took are those of avail0 that are not in a, each is ruled out, and each
      is below every digit still in a, so they were taken lowest first. */
  ghost predicate Tried(g: Grid, bs: int, r: int, c: int, avail0: nat, a: nat)
  {
    IsWord(a) &&
    (forall d :: Has(a, d) ==> Has(avail0, d)) &&
    (forall d :: Has(avail0, d) && !Has(a, d) ==> Refuted(g, bs, r, c, d)) &&
    (forall d, e :: Has(avail0, d) && !Has(a, d) && Has(a, e) ==> d < e)
  }

  /** Before the first turn nothing has been taken. */
  lemma TriedStart(g: Grid, bs: int, r: int, c: int, avail0: nat)
    requires IsWord(avail0)
    ensures Tried(g, bs, r, c, avail0, avail0)
  {
  }

  /** A turn takes the lowest digit left; once it is ruled out the loop goes on with the
      rest of the mask. */
  lemma TriedStep(g: Grid, bs: int, r: int, c: int, avail0: nat, a: nat)
    requires Tried(g, bs, r, c, avail0, a) && a != 0 && Refuted(g, bs, r, c, LowestDigit(a))
    ensures Tried(g, bs, r, c, avail0, And(a, Dec(a)))
  {
    LowestDigitLeast(a);
    DropLowest(a);
  }

  /** When the mask is empty, every digit of avail0 has been ruled out. */
  lemma TriedAll(g: Grid, bs: int, r: int, c: int, avail0: nat)
    requires Tried(g, bs, r, c, avail0, 0)
    ensures forall d :: Has(avail0, d) ==> Refuted(g, bs, r, c, d)
  {
    forall d | Has(avail0, d)
      ensures Refuted(g, bs, r, c, d)
    {
      ZeroBits(d - 1);
    }
  }
}
