/** `NakedPairsHeuristic`: the helpers of the naked-pairs deduction. The groups are the
    rows, columns and blocks as lists of cells; `FindNakedPairs` reports, within a group,
    every empty cell with two available digits whose mask an earlier such cell of the
    group already had; `EliminatePairOptions` removes the two digits of a pair from the
    other empty cells of the group and places the digit that is left where only one is. */
module NakedPairs {
  import opened Arith
  import opened Bits
  import opened Rules
  import opened Moves
  import opened Trail
  import opened Masks
  import opened Progress
  import opened Deductions
  import opened HeuristicBase

  /** An entry of the list `FindNakedPairs` returns. */
  datatype NakedPair = NakedPair(pairMask: int, cell1: Cell, cell2: Cell)

  /** Any two cells of `cells` share a row, a column or a block. */
  predicate AllPeers(bs: int, cells: seq<Cell>)
  {
    forall i, j :: 0 <= i < |cells| && 0 <= j < |cells| ==> Peers(bs, cells[i], cells[j])
  }

  /** The cells of `cells` are pairwise different. */
  predicate Distinct(cells: seq<Cell>)
  {
    forall i, j :: 0 <= i < |cells| && 0 <= j < |cells| && i != j ==> cells[i] != cells[j]
  }

  // ---------------------------------------------------------------------------
  // Finding pairs

  /** The mask of a cell as `FindNakedPairs` sees it: the available mask of an empty cell
      with exactly two available digits, and -1 for any other cell. */
  ghost function PairKey(s: Snapshot, bs: int, cell: Cell): (k: int)
    ensures k >= 0 <==>
      Shaped(s, bs) && InBounds(|s.grid|, cell.0, cell.1) && s.grid[cell.0][cell.1] == 0 &&
      PopCount(Avail(s, bs, cell.0, cell.1)) == 2
    ensures k >= 0 ==> k == Avail(s, bs, cell.0, cell.1)
  {
    if Shaped(s, bs) && InBounds(|s.grid|, cell.0, cell.1) && s.grid[cell.0][cell.1] == 0 &&
       PopCount(Avail(s, bs, cell.0, cell.1)) == 2
    then Avail(s, bs, cell.0, cell.1) else -1
  }

  /** The keys of the cells of `cells`, in their order. */
  ghost function KeysOf(s: Snapshot, bs: int, cells: seq<Cell>): (keys: seq<int>)
    ensures |keys| == |cells| && forall i :: 0 <= i < |cells| ==> keys[i] == PairKey(s, bs, cells[i])
  {
    seq(|cells|, i requires 0 <= i < |cells| => PairKey(s, bs, cells[i]))
  }

  /** What the scan of `FindNakedPairs` keeps: the dictionary from a mask to the first
      cell seen with it, and the pairs found so far. */
  datatype PairsSoFar = PairsSoFar(seen: map<int, Cell>, pairs: seq<NakedPair>)

  /** The scan of `FindNakedPairs` over `cells` whose keys are `keys`: a cell with key -1
      is passed over; a key seen before yields an entry with the cell it was first seen
      in, an unseen one is remembered. */
  function Scan(keys: seq<int>, cells: seq<Cell>): PairsSoFar
    requires |keys| == |cells|
    decreases |cells|
  {
    if |cells| == 0 then PairsSoFar(map[], [])
    else
      var n := |cells| - 1;
      var prev := Scan(keys[..n], cells[..n]);
      var m := keys[n];
      if m < 0 then prev
      else if m in prev.seen then PairsSoFar(prev.seen, prev.pairs + [NakedPair(m, prev.seen[m], cells[n])])
      else PairsSoFar(prev.seen[m := cells[n]], prev.pairs)
  }

  /** The scan `FindNakedPairs` performs on state s. */
  ghost function PairScan(s: Snapshot, bs: int, cells: seq<Cell>): PairsSoFar
  {
    Scan(KeysOf(s, bs, cells), cells)
  }

  /** The position of the first key m in `keys`, or |keys| when there is none. */
  function First(keys: seq<int>, m: int): (f: nat)
    ensures f <= |keys|
    decreases |keys|
  {
    if |keys| == 0 then 0
    else
      var n := |keys| - 1;
      var f := First(keys[..n], m);
      if f < n then f else if keys[n] == m then n else |keys|
  }

  /** `First` finds the first occurrence. */
  lemma {:induction false} FirstIsFirst(keys: seq<int>, m: int)
    ensures var f := First(keys, m);
      (f < |keys| ==> keys[f] == m) && forall j :: 0 <= j < |keys| && j < f ==> keys[j] != m
    decreases |keys|
  {
    if |keys| > 0 {
      var front := keys[..|keys| - 1];
      FirstIsFirst(front, m);
      assert forall j :: 0 <= j < |front| ==> front[j] == keys[j];
    }
  }

  /** The dictionary holds exactly the keys that occur, each with the cell where it
      occurs first. */
  lemma {:induction false} ScanSeen(keys: seq<int>, cells: seq<Cell>)
    requires |keys| == |cells|
    ensures var seen := Scan(keys, cells).seen;
      forall m :: m >= 0 ==>
        (m in seen <==> First(keys, m) < |keys|) && (m in seen ==> seen[m] == cells[First(keys, m)])
    ensures forall m :: m in Scan(keys, cells).seen ==> m >= 0
    decreases |cells|
  {
    if |cells| > 0 {
      var n := |cells| - 1;
      ScanSeen(keys[..n], cells[..n]);
      assert forall j :: 0 <= j < n ==> cells[..n][j] == cells[j];
    }
  }

  /** Cell k yields pair p: its key is not -1, the key occurs earlier, and p names the
      key, the cell of its first occurrence and cell k. */
  predicate ReportedAt(keys: seq<int>, cells: seq<Cell>, k: int, p: NakedPair)
    requires |keys| == |cells|
  {
    0 <= k < |keys| && keys[k] >= 0 && p.pairMask == keys[k] &&
    var f := First(keys[..k], keys[k]);
    f < k && p.cell1 == cells[f] && p.cell2 == cells[k]
  }

  /** The scan reports exactly the pairs `ReportedAt` describes. */
  lemma {:induction false} ScanPairs(keys: seq<int>, cells: seq<Cell>)
    requires |keys| == |cells|
    ensures forall p :: p in Scan(keys, cells).pairs <==> exists k :: ReportedAt(keys, cells, k, p)
    decreases |cells|
  {
    if |cells| > 0 {
      var n := |cells| - 1;
      var kf, cf := keys[..n], cells[..n];
      ScanPairs(kf, cf);
      ScanSeen(kf, cf);
      forall k, p | 0 <= k < n
        ensures ReportedAt(keys, cells, k, p) <==> ReportedAt(kf, cf, k, p)
      {
        assert keys[..k] == kf[..k];
      }
      var prev := Scan(kf, cf);
      var m := keys[n];
      assert keys[..n] == kf;
      forall p
        ensures ReportedAt(keys, cells, n, p) <==>
          m >= 0 && m in prev.seen && p == NakedPair(m, prev.seen[m], cells[n])
      {
        if m >= 0 && First(kf, m) < n {
          assert cells[First(kf, m)] == cf[First(kf, m)];
        }
      }
      forall p
        ensures p in Scan(keys, cells).pairs <==> exists k :: ReportedAt(keys, cells, k, p)
      {
        if p in Scan(keys, cells).pairs {
          if p in prev.pairs {
            var k :| ReportedAt(kf, cf, k, p);
            assert ReportedAt(keys, cells, k, p);
          } else {
            assert ReportedAt(keys, cells, n, p);
          }
        }
        if exists k :: ReportedAt(keys, cells, k, p) {
          var k :| ReportedAt(keys, cells, k, p);
          if k < n {
            assert ReportedAt(kf, cf, k, p);
          }
        }
      }
    }
  }

  /** The pair (m, c1, c2) is a naked pair of the group on state s: the cells of the group
      are pairwise peers, c1 and c2 are two different empty cells of it, m holds exactly
      two digits, and neither cell has an available digit outside m. */
  ghost predicate PairHolds(s: Snapshot, bs: int, group: seq<Cell>, m: int, c1: Cell, c2: Cell)
  {
    Shaped(s, bs) && CellsOnBoard(|s.grid|, group) && AllPeers(bs, group) &&
    c1 in group && c2 in group && c1 != c2 &&
    InBounds(|s.grid|, c1.0, c1.1) && InBounds(|s.grid|, c2.0, c2.1) &&
    s.grid[c1.0][c1.1] == 0 && s.grid[c2.0][c2.1] == 0 &&
    0 <= m && IsWord(m) && PopCount(m) == 2 &&
    (forall d :: Has(Avail(s, bs, c1.0, c1.1), d) ==> Has(m, d)) &&
    (forall d :: Has(Avail(s, bs, c2.0, c2.1), d) ==> Has(m, d))
  }

  /** Every entry the scan reports for a row, a column or a block is a naked pair of it:
      the two cells differ, are empty, and have the same two available digits. */
  lemma FoundPairsHold(s: Snapshot, bs: int, u: Unit, p: NakedPair)
    requires Shaped(s, bs) && ValidUnit(|s.grid|, bs, u)
    requires p in PairScan(s, bs, UnitCells(|s.grid|, bs, u)).pairs
    ensures PairHolds(s, bs, UnitCells(|s.grid|, bs, u), p.pairMask, p.cell1, p.cell2)
    ensures Avail(s, bs, p.cell1.0, p.cell1.1) == p.pairMask == Avail(s, bs, p.cell2.0, p.cell2.1)
  {
    var n := |s.grid|;
    var cells := UnitCells(n, bs, u);
    var keys := KeysOf(s, bs, cells);
    UnitGroup(n, bs, u);
    ScanPairs(keys, cells);
    var k :| ReportedAt(keys, cells, k, p);
    var f := First(keys[..k], keys[k]);
    FirstIsFirst(keys[..k], keys[k]);
    assert keys[f] == keys[k];
  }

  /** The cells of a row, a column or a block lie on the board, are pairwise different
      and pairwise peers. */
  lemma UnitGroup(n: nat, bs: int, u: Unit)
    requires Geometry(n, bs) && ValidUnit(n, bs, u)
    ensures var cells := UnitCells(n, bs, u);
      |cells| == n && CellsOnBoard(n, cells) && Distinct(cells) && AllPeers(bs, cells)
  {
    var cells := UnitCells(n, bs, u);
    UnitCellsFacts(n, bs, u);
    forall i, j | 0 <= i < |cells| && 0 <= j < |cells|
      ensures Peers(bs, cells[i], cells[j])
    {
      InUnitPeers(bs, u, cells[i], cells[j]);
    }
  }

  // ---------------------------------------------------------------------------
  // Eliminating the digits of a pair

  /** `available & ~pairMask`: the digits of the cell outside the pair. */
  function Remaining(s: Snapshot, bs: int, cell: Cell, m: nat): (left: nat)
    requires Shaped(s, bs) && InBounds(|s.grid|, cell.0, cell.1) && IsWord(m)
    ensures IsWord(left)
    ensures forall d :: Has(left, d) <==> Has(Avail(s, bs, cell.0, cell.1), d) && !Has(m, d)
  {
    var avail := Avail(s, bs, cell.0, cell.1);
    WordAnd(avail, Not(m));
    forall d
      ensures Has(And(avail, Not(m)), d) <==> Has(avail, d) && !Has(m, d)
    {
      HasAnd(avail, Not(m), d);
      HasNot(m, d);
    }
    And(avail, Not(m))
  }

  /** The elimination places a digit at `cell`: it is neither cell of the pair, it is
      empty, and removing the pair's digits changed its mask and left exactly one digit. */
  ghost predicate Forces(s: Snapshot, bs: int, cell: Cell, m: int, c1: Cell, c2: Cell)
  {
    Shaped(s, bs) && InBounds(|s.grid|, cell.0, cell.1) && 0 <= m && IsWord(m) &&
    cell != c1 && cell != c2 && s.grid[cell.0][cell.1] == 0 &&
    Remaining(s, bs, cell, m) != Avail(s, bs, cell.0, cell.1) && PopCount(Remaining(s, bs, cell, m)) == 1
  }

  /** What `EliminatePairOptions` leaves behind: the state, the moves pushed and the cells
      queued. */
  datatype Elimination = Elimination(state: Snapshot, moves: seq<Move>, queued: seq<Cell>)

  /** One cell of `EliminatePairOptions`: a forced cell gets the digit left, recorded as
      `Move(row, col, 0, digit)`, and its empty peers are queued; any other cell changes
      nothing. */
  ghost function EliminateAt(e: Elimination, bs: nat, cell: Cell, m: int, c1: Cell, c2: Cell): (e': Elimination)
    requires Shaped(e.state, bs) && InBounds(|e.state.grid|, cell.0, cell.1)
    ensures Shaped(e'.state, bs) && |e'.state.grid| == |e.state.grid|
  {
    if Forces(e.state, bs, cell, m, c1, c2) then
      CountBitsOfZero(WordBits);
      var mv := Move(cell.0, cell.1, 0, LowestDigit(Remaining(e.state, bs, cell, m)));
      var t := Place(e.state, bs, mv);
      Elimination(t, e.moves + [mv], e.queued + Affected(t.grid, bs, cell.0, cell.1))
    else e
  }

  lemma EliminateAtForced(e: Elimination, bs: nat, cell: Cell, m: int, c1: Cell, c2: Cell, d: int)
    requires Forces(e.state, bs, cell, m, c1, c2) && Remaining(e.state, bs, cell, m) != 0
    requires d == LowestDigit(Remaining(e.state, bs, cell, m))
    ensures var t := Place(e.state, bs, Move(cell.0, cell.1, 0, d));
      EliminateAt(e, bs, cell, m, c1, c2) ==
      Elimination(t, e.moves + [Move(cell.0, cell.1, 0, d)], e.queued + Affected(t.grid, bs, cell.0, cell.1))
  {
  }

  lemma EliminateAtSkips(e: Elimination, bs: nat, cell: Cell, m: int, c1: Cell, c2: Cell)
    requires Shaped(e.state, bs) && InBounds(|e.state.grid|, cell.0, cell.1) && !Forces(e.state, bs, cell, m, c1, c2)
    ensures EliminateAt(e, bs, cell, m, c1, c2) == e
  {
  }

  /** `EliminatePairOptions` over `cells`, from state s. */
  ghost function Eliminate(s: Snapshot, bs: nat, cells: seq<Cell>, m: int, c1: Cell, c2: Cell): (e: Elimination)
    requires Shaped(s, bs) && CellsOnBoard(|s.grid|, cells)
    ensures Shaped(e.state, bs) && |e.state.grid| == |s.grid|
    decreases |cells|
  {
    if |cells| == 0 then Elimination(s, [], [])
    else
      var n := |cells| - 1;
      EliminateAt(Eliminate(s, bs, cells[..n], m, c1, c2), bs, cells[n], m, c1, c2)
  }

  /** The digit left at a forced cell may be placed there. */
  lemma ForcesPlaces(s: Snapshot, bs: int, cell: Cell, m: int, c1: Cell, c2: Cell)
    requires Forces(s, bs, cell, m, c1, c2)
    ensures Remaining(s, bs, cell, m) != 0
    ensures var d := LowestDigit(Remaining(s, bs, cell, m));
      CanPlace(s, bs, Move(cell.0, cell.1, 0, d)) && forall e :: Has(Remaining(s, bs, cell, m), e) <==> e == d
  {
    var left := Remaining(s, bs, cell, m);
    CountBitsOfZero(WordBits);
    SingleDigit(left);
    AvailablePlaces(s, bs, cell.0, cell.1, LowestDigit(left));
  }

  /** A placement outside c1 and c2 keeps a naked pair: the two cells stay empty and
      their available digits only shrink. */
  lemma PlaceKeepsPair(s: Snapshot, bs: int, group: seq<Cell>, m: int, c1: Cell, c2: Cell, mv: Move)
    requires PairHolds(s, bs, group, m, c1, c2) && InBounds(|s.grid|, mv.row, mv.col)
    requires (mv.row, mv.col) != c1 && (mv.row, mv.col) != c2
    ensures PairHolds(Place(s, bs, mv), bs, group, m, c1, c2)
  {
    PlaceShrinks(s, bs, mv, c1.0, c1.1);
    PlaceShrinks(s, bs, mv, c2.0, c2.1);
  }

  /** A placement only adds bits to the masks, so it only removes available digits. */
  lemma PlaceShrinks(s: Snapshot, bs: int, mv: Move, r: int, c: int)
    requires Shaped(s, bs) && InBounds(|s.grid|, mv.row, mv.col) && InBounds(|s.grid|, r, c)
    ensures forall d :: Has(Avail(Place(s, bs, mv), bs, r, c), d) ==> Has(Avail(s, bs, r, c), d)
  {
    var t := Place(s, bs, mv);
    var bit := DigitBit(mv.newValue);
    var b := BlockIndex(bs, r, c);
    BlockIndexBound(|s.grid|, bs, r, c);
    forall d
      ensures Has(s.rows[r], d) ==> Has(t.rows[r], d)
      ensures Has(s.cols[c], d) ==> Has(t.cols[c], d)
      ensures Has(s.blocks[b], d) ==> Has(t.blocks[b], d)
    {
      HasOr(s.rows[r], bit, d);
      HasOr(s.cols[c], bit, d);
      HasOr(s.blocks[b], bit, d);
    }
  }

  /** With a naked pair and masks that describe the board, the digit left at a forced cell
      is the one every solution puts there: the two pair cells take the pair's two digits
      between them, so no other cell of the group can. */
  lemma PairForces(s: Snapshot, bs: int, group: seq<Cell>, m: int, c1: Cell, c2: Cell, x: Cell)
    requires Agree(s, bs) && PairHolds(s, bs, group, m, c1, c2) && x in group && Forces(s, bs, x, m, c1, c2)
    ensures Remaining(s, bs, x, m) != 0 && Forced(s.grid, bs, x.0, x.1, LowestDigit(Remaining(s, bs, x, m)))
  {
    ForcesPlaces(s, bs, x, m, c1, c2);
    var d := LowestDigit(Remaining(s, bs, x, m));
    var i1 :| 0 <= i1 < |group| && group[i1] == c1;
    var i2 :| 0 <= i2 < |group| && group[i2] == c2;
    var ix :| 0 <= ix < |group| && group[ix] == x;
    assert Peers(bs, c1, c2) && Peers(bs, x, c1) && Peers(bs, x, c2);
    forall sol | Solves(sol, s.grid, bs)
      ensures sol[x.0][x.1] == d
    {
      PairCellDigit(s, bs, sol, c1, m);
      PairCellDigit(s, bs, sol, c2, m);
      PeersDiffer(sol, bs, c1, c2);
      PeersDiffer(sol, bs, x, c1);
      PeersDiffer(sol, bs, x, c2);
      TwoDigitsOnly(m, sol[c1.0][c1.1], sol[c2.0][c2.1], sol[x.0][x.1]);
      SolutionTakesCandidate(sol, s.grid, bs, x.0, x.1);
      AgreeCandidate(s, bs, x.0, x.1, sol[x.0][x.1]);
    }
  }

  /** A solution puts into an empty cell whose available digits lie in m a digit of m. */
  lemma PairCellDigit(s: Snapshot, bs: int, sol: Grid, c: Cell, m: nat)
    requires Agree(s, bs) && InBounds(|s.grid|, c.0, c.1) && s.grid[c.0][c.1] == 0 && Solves(sol, s.grid, bs)
    requires forall d :: Has(Avail(s, bs, c.0, c.1), d) ==> Has(m, d)
    ensures Has(m, sol[c.0][c.1])
  {
    SolutionTakesCandidate(sol, s.grid, bs, c.0, c.1);
    AgreeCandidate(s, bs, c.0, c.1, sol[c.0][c.1]);
  }

  /** A mask with two digits holds no third one. */
  lemma TwoDigitsOnly(m: nat, d1: int, d2: int, d: int)
    requires PopCount(m) == 2 && Has(m, d1) && Has(m, d2) && d1 != d2 && d != d1 && d != d2
    ensures !Has(m, d)
  {
    PopCountDigits(m);
    if Has(m, d) {
      assert {d1, d2, d} <= Digits(m);
      assert |{d1, d2, d}| == 3;
      SubsetCard({d1, d2, d}, Digits(m));
    }
  }

  /** The elimination pushes a trail of placements, each of a digit available at its
      cell; when the pair holds and the masks describe the board, each placement is
      forced, and the pair still holds afterwards. */
  lemma {:induction false} EliminateAdvances(s: Snapshot, st: seq<Move>, bs: nat, group: seq<Cell>, cells: seq<Cell>,
                                            m: int, c1: Cell, c2: Cell)
    requires Shaped(s, bs) && CellsOnBoard(|s.grid|, cells) && forall i :: 0 <= i < |cells| ==> cells[i] in group
    ensures var e := Eliminate(s, bs, cells, m, c1, c2);
      Advanced(s, st, e.state, st + e.moves, bs, Agree(s, bs) && PairHolds(s, bs, group, m, c1, c2)) &&
      (PairHolds(s, bs, group, m, c1, c2) ==> PairHolds(e.state, bs, group, m, c1, c2))
    decreases |cells|
  {
    var forced := Agree(s, bs) && PairHolds(s, bs, group, m, c1, c2);
    if |cells| == 0 {
      Unmoved(s, st, bs, forced);
      assert st + [] == st;
    } else {
      var n := |cells| - 1;
      var front := cells[..n];
      EliminateAdvances(s, st, bs, group, front, m, c1, c2);
      var e := Eliminate(s, bs, front, m, c1, c2);
      var x := cells[n];
      if Forces(e.state, bs, x, m, c1, c2) {
        ForcesPlaces(e.state, bs, x, m, c1, c2);
        var mv := Move(x.0, x.1, 0, LowestDigit(Remaining(e.state, bs, x, m)));
        if forced {
          AdvanceAgree(s, st, e.state, st + e.moves, bs, forced);
          PairForces(e.state, bs, group, m, c1, c2, x);
        }
        AdvanceStep(s, st, e.state, st + e.moves, bs, forced, mv);
        assert st + e.moves + [mv] == st + (e.moves + [mv]);
        if PairHolds(s, bs, group, m, c1, c2) {
          PlaceKeepsPair(e.state, bs, group, m, c1, c2, mv);
        }
      }
    }
  }

  /** One more cell of the `FindNakedPairs` scan. */
  lemma PairScanStep(keys: seq<int>, cells: seq<Cell>, k: int)
    requires |keys| == |cells| && 0 <= k < |cells|
    ensures var prev := Scan(keys[..k], cells[..k]);
      Scan(keys[..k + 1], cells[..k + 1]) ==
        if keys[k] < 0 then prev
        else if keys[k] in prev.seen then PairsSoFar(prev.seen, prev.pairs + [NakedPair(keys[k], prev.seen[keys[k]], cells[k])])
        else PairsSoFar(prev.seen[keys[k] := cells[k]], prev.pairs)
  {
    assert keys[..k + 1][..k] == keys[..k];
    assert cells[..k + 1][..k] == cells[..k];
  }

  /** One more cell of the `EliminatePairOptions` loop. */
  lemma EliminateStep(s: Snapshot, bs: nat, cells: seq<Cell>, k: int, m: int, c1: Cell, c2: Cell)
    requires Shaped(s, bs) && CellsOnBoard(|s.grid|, cells) && 0 <= k < |cells|
    ensures Eliminate(s, bs, cells[..k + 1], m, c1, c2) == EliminateAt(Eliminate(s, bs, cells[..k], m, c1, c2), bs, cells[k], m, c1, c2)
  {
    assert cells[..k + 1][..k] == cells[..k];
  }

  lemma Appended(st0: seq<Move>, a: seq<Move>, b: seq<Move>, q0: seq<Cell>, c: seq<Cell>, d: seq<Cell>)
    ensures (st0 + a) + b == st0 + (a + b) && (q0 + c) + d == q0 + (c + d)
  {
  }

  /** Block group b: block (b / g, b % g), the numbering `gr * g + gc` of
      `InitializeblockGroups`. */
  function BlockGroupAt(g: int, b: int): seq<Cell>
  {
    if g > 0 then BlockCells(g, b / g, b % g) else []
  }

  lemma BlockGroupIs(g: int, gr: int, gc: int, b: int)
    requires g > 0 && 0 <= gc < g && b == gr * g + gc
    ensures BlockGroupAt(g, b) == BlockCells(g, gr, gc)
  {
    DivMulAdd(gr, g, gc);
  }

  /** Block group b holds exactly the cells whose `GetBlockIndex` is b. */
  lemma BlockGroupNumbering(g: int, b: int, i: int)
    requires g > 0 && 0 <= b < g * g && 0 <= i < g * g
    ensures |BlockGroupAt(g, b)| == g * g
    ensures var cell := BlockGroupAt(g, b)[i];
      InBounds(g * g, cell.0, cell.1) && BlockIndex(g, cell.0, cell.1) == b
  {
    DivBelow(b, g);
    DivChar(b, g);
    BlockCellAt(g, b / g, b % g, i);
  }

  class NakedPairsHeuristic {
    const base: Heuristic
    const rowGroups: array<seq<Cell>>
    const columnGroups: array<seq<Cell>>
    const blockGroups: array<seq<Cell>>

    /** The shared objects fit together and there is one group of each kind per row,
        column and block, held in three separate arrays. */
    ghost predicate Valid()
      reads this, base, base.board, base.maskManager, base.maskManager.rowMask, base.maskManager.colMask,
            base.maskManager.blockMask
    {
      base.Valid() &&
      rowGroups.Length == base.boardSize && columnGroups.Length == base.boardSize &&
      blockGroups.Length == base.boardSize &&
      rowGroups != columnGroups && rowGroups != blockGroups && columnGroups != blockGroups
    }

    /** Row group r is row r left to right, column group c is column c top to bottom,
        and block group b is block b row by row. */
    ghost predicate GroupsBuilt()
      reads this, base, base.maskManager, rowGroups, columnGroups, blockGroups
    {
      var n, g := base.boardSize, base.maskManager.blockSize;
      rowGroups.Length == n && columnGroups.Length == n && blockGroups.Length == n &&
      (forall r :: 0 <= r < n ==> rowGroups[r] == RowCells(n, r)) &&
      (forall c :: 0 <= c < n ==> columnGroups[c] == ColCells(n, c)) &&
      (forall b :: 0 <= b < n ==> blockGroups[b] == BlockGroupAt(g, b))
    }

    /** `NakedPairsHeuristic(board, maskManager, movesManager)`: the base part, then the
        groups. */
    constructor (board: Board.SudokuBoard, maskManager: MaskManager, movesManager: MovesLog.MovesManager)
      requires board.Valid() && maskManager.Valid() && board.rows == maskManager.boardSize
      ensures Valid() && GroupsBuilt() && fresh(base) && base.cellsToProcess == []
      ensures base.board == board && base.maskManager == maskManager && base.movesManager == movesManager
    {
      base := new Heuristic(board, maskManager, movesManager);
      var n := board.BoardSize();
      rowGroups := new seq<Cell>[n](i => []);
      columnGroups := new seq<Cell>[n](i => []);
      blockGroups := new seq<Cell>[n](i => []);
      new;
      InitializeGroupCollections();
    }

    /** `InitializeGroupCollections`: rows, then columns, then blocks. */
    method InitializeGroupCollections()
      requires Valid()
      modifies rowGroups, columnGroups, blockGroups
      ensures GroupsBuilt()
    {
      InitializeRowGroups();
      InitializeColumnGroups();
      InitializeBlockGroups();
    }

    method InitializeRowGroups()
      requires Valid()
      modifies rowGroups
      ensures forall r :: 0 <= r < base.boardSize ==> rowGroups[r] == RowCells(base.boardSize, r)
    {
      var row := 0;
      while row < base.boardSize
        invariant 0 <= row <= base.boardSize
        invariant forall r :: 0 <= r < row ==> rowGroups[r] == RowCells(base.boardSize, r)
      {
        var group := RowGroup(row);
        rowGroups[row] := group;
        row := row + 1;
      }
    }

    /** The inner loop of `InitializeRowGroups`: the cells of row `row`, left to right. */
    method RowGroup(row: int) returns (group: seq<Cell>)
      ensures group == RowCells(base.boardSize, row)
    {
      group := [];
      var col := 0;
      while col < base.boardSize
        invariant 0 <= col <= base.boardSize && |group| == col
        invariant forall j :: 0 <= j < col ==> group[j] == (row, j)
      {
        group := group + [(row, col)];
        col := col + 1;
      }
    }

    method InitializeColumnGroups()
      requires Valid()
      modifies columnGroups
      ensures forall c :: 0 <= c < base.boardSize ==> columnGroups[c] == ColCells(base.boardSize, c)
    {
      var col := 0;
      while col < base.boardSize
        invariant 0 <= col <= base.boardSize
        invariant forall c :: 0 <= c < col ==> columnGroups[c] == ColCells(base.boardSize, c)
      {
        var group := ColumnGroup(col);
        columnGroups[col] := group;
        col := col + 1;
      }
    }

    /** The inner loop of `InitializeColumnGroups`: the cells of column `col`, top to
        bottom. */
    method ColumnGroup(col: int) returns (group: seq<Cell>)
      ensures group == ColCells(base.boardSize, col)
    {
      group := [];
      var row := 0;
      while row < base.boardSize
        invariant 0 <= row <= base.boardSize && |group| == row
        invariant forall j :: 0 <= j < row ==> group[j] == (j, col)
      {
        group := group + [(row, col)];
        row := row + 1;
      }
    }

    /** `InitializeblockGroups`: the blocks numbered row-major, `groupIndex` counting up. */
    method InitializeBlockGroups()
      requires Valid()
      modifies blockGroups
      ensures var n, g := base.boardSize, base.maskManager.blockSize;
        forall b :: 0 <= b < n ==> blockGroups[b] == BlockGroupAt(g, b)
    {
      var groupSize := ISqrt(base.boardSize);
      var groupIndex := 0;
      var gr := 0;
      while gr < groupSize
        invariant 0 <= gr <= groupSize && groupIndex == gr * groupSize && groupIndex <= blockGroups.Length
        invariant forall b :: 0 <= b < groupIndex ==> blockGroups[b] == BlockGroupAt(groupSize, b)
      {
        var gc := 0;
        while gc < groupSize
          invariant 0 <= gc <= groupSize && groupIndex == gr * groupSize + gc && groupIndex <= blockGroups.Length
          invariant forall b :: 0 <= b < groupIndex ==> blockGroups[b] == BlockGroupAt(groupSize, b)
        {
          BlockNumberBound(gr, gc, groupSize);
          BlockGroupIs(groupSize, gr, gc, groupIndex);
          var startRow, startCol := gr * groupSize, gc * groupSize;
          var group := BlockGroup(gr, gc, startRow, startCol, groupSize);
          blockGroups[groupIndex] := group;
          groupIndex := groupIndex + 1;
          gc := gc + 1;
        }
        NextRow(gr, groupSize, groupIndex);
        gr := gr + 1;
      }
      assert groupIndex == blockGroups.Length;
    }

    /** The two inner loops of `InitializeblockGroups`: the cells of block (gr, gc), row
        by row. */
    method BlockGroup(gr: int, gc: int, startRow: int, startCol: int, groupSize: int) returns (group: seq<Cell>)
      requires 0 <= gr < groupSize && 0 <= gc < groupSize
      requires startRow == gr * groupSize && startCol == gc * groupSize
      ensures group == BlockCells(groupSize, gr, gc)
    {
      ghost var cells := BlockCells(groupSize, gr, gc);
      group := [];
      var r := 0;
      ghost var k := 0;
      while r < groupSize
        invariant 0 <= r <= groupSize && k == r * groupSize && k <= |cells| && |group| == k
        invariant forall t :: 0 <= t < k ==> group[t] == cells[t]
      {
        var c := 0;
        while c < groupSize
          invariant 0 <= c <= groupSize && k == r * groupSize + c && k <= |cells| && |group| == k
          invariant forall t :: 0 <= t < k ==> group[t] == cells[t]
        {
          BlockScanAt(groupSize, gr, gc, r, c, k, startRow + r, startCol + c);
          group := group + [(startRow + r, startCol + c)];
          c, k := c + 1, k + 1;
        }
        NextRow(r, groupSize, k);
        r := r + 1;
      }
      BlockScanEnd(groupSize, gr, gc, r, k);
    }

    /** `FindNakedPairs(group)`: the scan over the group, reading the board and the masks
        only. */
    method FindNakedPairs(group: seq<Cell>) returns (nakedPairs: seq<NakedPair>)
      requires base.Valid() && CellsOnBoard(base.boardSize, group)
      ensures nakedPairs == PairScan(base.Now(), base.maskManager.blockSize, group).pairs
    {
      ghost var keys := KeysOf(base.Now(), base.maskManager.blockSize, group);
      var pairsByMask: map<int, Cell> := map[];
      nakedPairs := [];
      var k := 0;
      while k < |group|
        invariant 0 <= k <= |group|
        invariant Scan(keys[..k], group[..k]) == PairsSoFar(pairsByMask, nakedPairs)
      {
        var (row, col) := group[k];
        PairScanStep(keys, group, k);
        if base.board.GetCell(row, col) == 0 {
          var mask := base.maskManager.GetAvailableDigits(row, col);
          base.AvailableNow(row, col);
          if PopCount(mask) == 2 {
            if mask in pairsByMask {
              nakedPairs := nakedPairs + [NakedPair(mask, pairsByMask[mask], (row, col))];
            } else {
              pairsByMask := pairsByMask[mask := (row, col)];
            }
          }
        }
        k := k + 1;
      }
      assert keys[..k] == keys && group[..k] == group;
    }

    /** `EliminatePairOptions(group, pairMask, cell1, cell2)`: every other empty cell of
        the group left with one digit once the pair's digits are removed gets that digit.
        The placements form a trail of available digits; for a naked pair on masks that
        describe the board they are forced. */
    method EliminatePairOptions(group: seq<Cell>, pairMask: int, cell1: Cell, cell2: Cell) returns (progressMade: bool)
      requires base.Valid() && CellsOnBoard(base.boardSize, group) && 0 <= pairMask && IsWord(pairMask)
      modifies base, base.board.board, base.maskManager.rowMask, base.maskManager.colMask, base.maskManager.blockMask,
               base.movesManager
      ensures base.Valid()
      ensures var e := Eliminate(old(base.Now()), base.maskManager.blockSize, group, pairMask, cell1, cell2);
        base.Now() == e.state && base.movesManager.moveStack == old(base.movesManager.moveStack) + e.moves &&
        base.cellsToProcess == old(base.cellsToProcess) + e.queued &&
        (progressMade <==> |e.moves| > 0)
      ensures var s0, bs := old(base.Now()), base.maskManager.blockSize;
        Advanced(s0, old(base.movesManager.moveStack), base.Now(), base.movesManager.moveStack, bs,
                 Agree(s0, bs) && PairHolds(s0, bs, group, pairMask, cell1, cell2))
    {
      ghost var bs := base.maskManager.blockSize;
      ghost var s0, st0, q0 := base.Now(), base.movesManager.moveStack, base.cellsToProcess;
      progressMade := false;
      var k := 0;
      while k < |group|
        invariant 0 <= k <= |group| && base.Valid()
        invariant var e := Eliminate(s0, bs, group[..k], pairMask, cell1, cell2);
          base.Now() == e.state && base.movesManager.moveStack == st0 + e.moves &&
          base.cellsToProcess == q0 + e.queued && (progressMade <==> |e.moves| > 0)
      {
        EliminateStep(s0, bs, group, k, pairMask, cell1, cell2);
        progressMade := EliminateCell(group, k, pairMask, cell1, cell2, progressMade, st0, q0,
                                      Eliminate(s0, bs, group[..k], pairMask, cell1, cell2));
        k := k + 1;
      }
      assert group[..k] == group;
      EliminateAdvances(s0, st0, bs, group, group, pairMask, cell1, cell2);
    }

    /** The body of the loop of `EliminatePairOptions`, for cell k of the group: e0 is
        what the cells before it did. */
    method EliminateCell(group: seq<Cell>, k: int, pairMask: int, cell1: Cell, cell2: Cell, progress: bool,
                         ghost st0: seq<Move>, ghost q0: seq<Cell>, ghost e0: Elimination)
      returns (progressMade: bool)
      requires base.Valid() && CellsOnBoard(base.boardSize, group) && 0 <= pairMask && IsWord(pairMask)
      requires 0 <= k < |group|
      requires base.Now() == e0.state && base.movesManager.moveStack == st0 + e0.moves &&
        base.cellsToProcess == q0 + e0.queued && (progress <==> |e0.moves| > 0)
      modifies base, base.board.board, base.maskManager.rowMask, base.maskManager.colMask, base.maskManager.blockMask,
               base.movesManager
      ensures base.Valid()
      ensures var e := EliminateAt(e0, base.maskManager.blockSize, group[k], pairMask, cell1, cell2);
        base.Now() == e.state && base.movesManager.moveStack == st0 + e.moves &&
        base.cellsToProcess == q0 + e.queued && (progressMade <==> |e.moves| > 0)
    {
      ghost var bs := base.maskManager.blockSize;
      ghost var s := base.Now();
      var (row, col) := group[k];
      progressMade := progress;
      if (row, col) == cell1 || (row, col) == cell2 || base.board.GetCell(row, col) != 0 {
        EliminateAtSkips(e0, bs, (row, col), pairMask, cell1, cell2);
        return;
      }
      var available := base.maskManager.GetAvailableDigits(row, col);
      base.AvailableNow(row, col);
      var newAvailable := And(available, Not(pairMask));
      assert newAvailable == Remaining(s, bs, (row, col), pairMask);
      if newAvailable != available && PopCount(newAvailable) == 1 {
        CountBitsOfZero(WordBits);
        var digit := TrailingZeroCount(newAvailable) + 1;
        ghost var mv := Move(row, col, 0, digit);
        EliminateAtForced(e0, bs, (row, col), pairMask, cell1, cell2, digit);
        base.RecordAndPlace(row, col, digit);
        ghost var t := base.Now();
        ghost var queue := base.cellsToProcess;
        base.AddAffectedCells(row, col);
        ghost var affected := Affected(t.grid, bs, row, col);
        assert base.cellsToProcess == queue + affected;
        Appended(st0, e0.moves, [mv], q0, e0.queued, affected);
        progressMade := true;
      } else {
        EliminateAtSkips(e0, bs, (row, col), pairMask, cell1, cell2);
      }
    }
  }
}
