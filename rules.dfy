/** The rules of an n x n Sudoku with square blocks of side bs (n == bs * bs),
    stated over grids of values: 0 is an empty cell, 1..n a digit. Everything the
    solver promises (a placement is sound, a failed search means no solution
    exists) is phrased with these definitions. */
module Rules {
  import opened Arith

  type Cell = (int, int)
  type Grid = seq<seq<int>>

  /** Every row has as many cells as there are rows. */
  predicate IsGrid(g: Grid)
  {
    forall r :: 0 <= r < |g| ==> |g[r]| == |g|
  }

  predicate InBounds(n: int, r: int, c: int)
  {
    0 <= r < n && 0 <= c < n
  }

  /** Every cell of `cells` lies on the n x n board. */
  predicate CellsOnBoard(n: int, cells: seq<Cell>)
  {
    forall i :: 0 <= i < |cells| ==> InBounds(n, cells[i].0, cells[i].1)
  }

  lemma CellsOnBoardAppend(n: int, a: seq<Cell>, b: seq<Cell>)
    requires CellsOnBoard(n, a) && CellsOnBoard(n, b)
    ensures CellsOnBoard(n, a + b)
  {
    forall i | |a| <= i < |a + b|
      ensures InBounds(n, (a + b)[i].0, (a + b)[i].1)
    {
      assert (a + b)[i] == b[i - |a|];
    }
  }

  /** Every cell holds 0 (empty) or a digit 1..n. */
  predicate InRange(g: Grid)
  {
    IsGrid(g) && forall r, c :: 0 <= r < |g| && 0 <= c < |g| ==> 0 <= g[r][c] <= |g|
  }

  /** bs is the block side of an n x n board. */
  predicate Geometry(n: int, bs: int)
  {
    0 <= bs && bs * bs == n && (n > 0 ==> bs > 0)
  }

  /** `row / blockSize * blockSize + col / blockSize`: blocks are numbered row-major. */
  function BlockIndex(bs: int, r: int, c: int): int
  {
    if bs > 0 then r / bs * bs + c / bs else 0
  }

  /** The grid with cell (r, c) set to v. */
  function Update(g: Grid, r: int, c: int, v: int): Grid
    requires 0 <= r < |g| && 0 <= c < |g[r]|
  {
    g[r := g[r][c := v]]
  }

  // ---------------------------------------------------------------------------
  // Units: the rows, columns and blocks, with their cells in the order the
  // solver visits them.

  datatype Unit = RowUnit(row: int) | ColUnit(col: int) | BlockUnit(blockRow: int, blockCol: int)

  predicate ValidUnit(n: int, bs: int, u: Unit)
  {
    match u
    case RowUnit(r) => 0 <= r < n
    case ColUnit(c) => 0 <= c < n
    case BlockUnit(br, bc) => 0 <= br < bs && 0 <= bc < bs
  }

  /** The cells of row r, left to right. */
  function RowCells(n: nat, r: int): seq<Cell>
  {
    seq(n, c => (r, c))
  }

  /** The cells of column c, top to bottom. */
  function ColCells(n: nat, c: int): seq<Cell>
  {
    seq(n, r => (r, c))
  }

  /** The cells of block (br, bc), row by row. */
  function BlockCells(bs: int, br: int, bc: int): seq<Cell>
  {
    if bs <= 0 then [] else seq(bs * bs, i => (br * bs + i / bs, bc * bs + i % bs))
  }

  function UnitCells(n: nat, bs: int, u: Unit): seq<Cell>
  {
    match u
    case RowUnit(r) => RowCells(n, r)
    case ColUnit(c) => ColCells(n, c)
    case BlockUnit(br, bc) => BlockCells(bs, br, bc)
  }

  /** Two cells lie in the same row, column or block. */
  predicate Peers(bs: int, a: Cell, b: Cell)
  {
    a.0 == b.0 || a.1 == b.1 || BlockIndex(bs, a.0, a.1) == BlockIndex(bs, b.0, b.1)
  }

  // ---------------------------------------------------------------------------
  // Placed digits and candidates

  ghost predicate RowHas(g: Grid, r: int, d: int)
  {
    0 <= r < |g| && exists c :: 0 <= c < |g[r]| && g[r][c] == d
  }

  ghost predicate ColHas(g: Grid, c: int, d: int)
  {
    exists r :: 0 <= r < |g| && 0 <= c < |g[r]| && g[r][c] == d
  }

  ghost predicate BlockHas(g: Grid, bs: int, b: int, d: int)
  {
    exists r, c :: 0 <= r < |g| && 0 <= c < |g[r]| && BlockIndex(bs, r, c) == b && g[r][c] == d
  }

  /** Digit d may go into cell (r, c): no cell of its row, column or block holds it. */
  ghost predicate IsCandidate(g: Grid, bs: int, r: int, c: int, d: int)
  {
    1 <= d <= |g| && !RowHas(g, r, d) && !ColHas(g, c, d) && !BlockHas(g, bs, BlockIndex(bs, r, c), d)
  }

  ghost function Candidates(g: Grid, bs: int, r: int, c: int): set<int>
  {
    set d | 1 <= d <= |g| && IsCandidate(g, bs, r, c, d)
  }

  predicate IsEmptyCell(g: Grid, r: int, c: int)
  {
    0 <= r < |g| && 0 <= c < |g[r]| && g[r][c] == 0
  }

  /** An empty cell with exactly one candidate. */
  ghost predicate NakedSingle(g: Grid, bs: int, r: int, c: int, d: int)
  {
    IsEmptyCell(g, r, c) && Candidates(g, bs, r, c) == {d}
  }

  /** (r, c) is the only empty cell of unit u that can take d. */
  ghost predicate HiddenSingle(g: Grid, bs: int, u: Unit, r: int, c: int, d: int)
  {
    var cells := UnitCells(|g|, bs, u);
    (r, c) in cells && IsEmptyCell(g, r, c) && IsCandidate(g, bs, r, c, d) &&
    forall i :: 0 <= i < |cells| && cells[i] != (r, c) && IsEmptyCell(g, cells[i].0, cells[i].1) ==>
      !IsCandidate(g, bs, cells[i].0, cells[i].1, d)
  }

  // ---------------------------------------------------------------------------
  // Solutions

  /** No digit repeats in a row, a column or a block: two different peer cells never
      hold the same digit. */
  ghost predicate NoDuplicates(g: Grid, bs: int)
  {
    IsGrid(g) &&
    forall r1, c1, r2, c2 {:trigger g[r1][c1], g[r2][c2]} ::
      InBounds(|g|, r1, c1) && InBounds(|g|, r2, c2) && (r1, c1) != (r2, c2) &&
      Peers(bs, (r1, c1), (r2, c2)) && g[r1][c1] != 0 ==>
      g[r1][c1] != g[r2][c2]
  }

  predicate Full(g: Grid)
  {
    forall r, c :: 0 <= r < |g| && 0 <= c < |g[r]| ==> g[r][c] != 0
  }

  /** A completely and correctly filled board. */
  ghost predicate IsSolution(sol: Grid, bs: int)
  {
    InRange(sol) && Full(sol) && NoDuplicates(sol, bs)
  }

  /** sol keeps every digit placed in g. */
  ghost predicate Extends(sol: Grid, g: Grid)
  {
    |sol| == |g| && IsGrid(sol) && IsGrid(g) &&
    forall r, c :: InBounds(|g|, r, c) && g[r][c] != 0 ==> sol[r][c] == g[r][c]
  }

  ghost predicate Solves(sol: Grid, g: Grid, bs: int)
  {
    IsSolution(sol, bs) && Extends(sol, g)
  }

  ghost predicate Solvable(g: Grid, bs: int)
  {
    exists sol :: Solves(sol, g, bs)
  }

  /** Every solution of g puts d into (r, c). */
  ghost predicate Forced(g: Grid, bs: int, r: int, c: int, d: int)
  {
    InBounds(|g|, r, c) && forall sol :: Solves(sol, g, bs) ==> sol[r][c] == d
  }

  // ---------------------------------------------------------------------------
  // Empty cells

  function ZerosIn(row: seq<int>): nat
  {
    if |row| == 0 then 0 else ZerosIn(row[..|row| - 1]) + (if row[|row| - 1] == 0 then 1 else 0)
  }

  /** Number of empty cells. */
  function EmptyCount(g: Grid): nat
  {
    if |g| == 0 then 0 else EmptyCount(g[..|g| - 1]) + ZerosIn(g[|g| - 1])
  }

  lemma {:induction false} ZerosInUpdate(row: seq<int>, c: int, v: int)
    requires 0 <= c < |row| && row[c] == 0 && v != 0
    ensures ZerosIn(row[c := v]) == ZerosIn(row) - 1
    decreases |row|
  {
    var k := |row| - 1;
    assert row[c := v][..k] == if c < k then row[..k][c := v] else row[..k];
    if c < k {
      ZerosInUpdate(row[..k], c, v);
    }
  }

  lemma {:induction false} EmptyCountUpdate(g: Grid, r: int, c: int, v: int)
    requires 0 <= r < |g| && 0 <= c < |g[r]| && g[r][c] == 0 && v != 0
    ensures EmptyCount(Update(g, r, c, v)) == EmptyCount(g) - 1
    decreases |g|
  {
    var k := |g| - 1;
    var h := Update(g, r, c, v);
    if r < k {
      assert h[..k] == Update(g[..k], r, c, v);
      EmptyCountUpdate(g[..k], r, c, v);
    } else {
      assert h[..k] == g[..k];
      ZerosInUpdate(g[r], c, v);
    }
  }

  lemma {:induction false} ZerosInZero(row: seq<int>)
    ensures ZerosIn(row) == 0 <==> forall c :: 0 <= c < |row| ==> row[c] != 0
    decreases |row|
  {
    if |row| > 0 {
      ZerosInZero(row[..|row| - 1]);
      assert forall c :: 0 <= c < |row| - 1 ==> row[..|row| - 1][c] == row[c];
    }
  }

  /** A board is full exactly when it has no empty cell. */
  lemma {:induction false} EmptyCountZero(g: Grid)
    ensures EmptyCount(g) == 0 <==> Full(g)
    decreases |g|
  {
    if |g| > 0 {
      var k := |g| - 1;
      EmptyCountZero(g[..k]);
      ZerosInZero(g[k]);
      assert forall r :: 0 <= r < k ==> g[..k][r] == g[r];
    }
  }

  // ---------------------------------------------------------------------------
  // Geometry of units

  lemma BlockIndexBound(n: int, bs: int, r: int, c: int)
    requires Geometry(n, bs) && InBounds(n, r, c)
    ensures 0 <= BlockIndex(bs, r, c) < n
    ensures 0 <= r / bs < bs && 0 <= c / bs < bs
  {
    DivBelow(r, bs);
    DivBelow(c, bs);
    BlockNumberBound(r / bs, c / bs, bs);
  }

  /** Cell i of block (br, bc) lies in that block. */
  lemma BlockCellAt(bs: nat, br: int, bc: int, i: int)
    requires bs > 0 && 0 <= br < bs && 0 <= bc < bs && 0 <= i < bs * bs
    ensures var cell := BlockCells(bs, br, bc)[i];
      InBounds(bs * bs, cell.0, cell.1) &&
      cell.0 / bs == br && cell.1 / bs == bc &&
      BlockIndex(bs, cell.0, cell.1) == br * bs + bc
  {
    DivBelow(i, bs);
    DivChar(i, bs);
    DivMulAdd(br, bs, i / bs);
    DivMulAdd(bc, bs, i % bs);
    BlockNumberBound(br, i / bs, bs);
    BlockNumberBound(bc, i % bs, bs);
    MulNonneg(br, bs);
    MulNonneg(bc, bs);
  }

  /** Cell k = i * bs + j of the block scan is cell (i, j) of block (br, bc). */
  lemma BlockScanAt(bs: int, br: int, bc: int, i: int, j: int, k: int, r: int, c: int)
    requires 0 <= br < bs && 0 <= bc < bs && 0 <= i < bs && 0 <= j < bs && k == i * bs + j
    requires r == br * bs + i && c == bc * bs + j
    ensures 0 <= k < |BlockCells(bs, br, bc)| && BlockCells(bs, br, bc)[k] == (r, c) && InBounds(bs * bs, r, c)
  {
    MulNonneg(i, bs);
    MulMono(i, bs, bs);
    DivMulAdd(i, bs, j);
    BlockCellAt(bs, br, bc, k);
  }

  /** After a full row of the block scan, k has advanced by bs. */
  lemma NextRow(i: int, bs: int, k: int)
    requires k == i * bs + bs
    ensures k == (i + 1) * bs
  {
  }

  /** After bs rows the scan has covered the whole block. */
  lemma BlockScanEnd(bs: int, br: int, bc: int, i: int, k: int)
    requires bs > 0 && i == bs && k == i * bs
    ensures k == |BlockCells(bs, br, bc)|
  {
  }

  /** Every cell of the board sits in the block its BlockIndex names. */
  lemma BlockCellsCover(bs: nat, r: int, c: int)
    requires bs > 0 && InBounds(bs * bs, r, c)
    ensures var i := (r % bs) * bs + c % bs;
      0 <= i < bs * bs && BlockCells(bs, r / bs, c / bs)[i] == (r, c)
  {
    var i := (r % bs) * bs + c % bs;
    DivChar(r, bs);
    DivChar(c, bs);
    BlockNumberBound(r % bs, c % bs, bs);
    DivMulAdd(r % bs, bs, c % bs);
  }

  /** Two cells with the same BlockIndex lie in the same block. */
  lemma SameBlockIndex(bs: nat, r1: int, c1: int, r2: int, c2: int)
    requires bs > 0 && InBounds(bs * bs, r1, c1) && InBounds(bs * bs, r2, c2)
    ensures BlockIndex(bs, r1, c1) == BlockIndex(bs, r2, c2) <==> r1 / bs == r2 / bs && c1 / bs == c2 / bs
  {
    BlockIndexBound(bs * bs, bs, r1, c1);
    BlockIndexBound(bs * bs, bs, r2, c2);
    if BlockIndex(bs, r1, c1) == BlockIndex(bs, r2, c2) {
      IndexUnique(r1 / bs, c1 / bs, r2 / bs, c2 / bs, bs);
    }
  }

  lemma UnitCellsFacts(n: nat, bs: nat, u: Unit)
    requires Geometry(n, bs) && ValidUnit(n, bs, u)
    ensures var cells := UnitCells(n, bs, u);
      |cells| == n &&
      (forall i :: 0 <= i < n ==> InBounds(n, cells[i].0, cells[i].1) && InUnit(bs, u, cells[i])) &&
      (forall i, j :: 0 <= i < n && 0 <= j < n && i != j ==> cells[i] != cells[j])
  {
    var cells := UnitCells(n, bs, u);
    if u.BlockUnit? {
      forall i | 0 <= i < n
        ensures InBounds(n, cells[i].0, cells[i].1) && InUnit(bs, u, cells[i])
      {
        BlockCellAt(bs, u.blockRow, u.blockCol, i);
      }
      forall i, j | 0 <= i < n && 0 <= j < n && i != j
        ensures cells[i] != cells[j]
      {
        DivChar(i, bs);
        DivChar(j, bs);
        assert i / bs != j / bs || i % bs != j % bs;
      }
    }
  }

  /** A cell belongs to unit u. */
  predicate InUnit(bs: int, u: Unit, cell: Cell)
  {
    match u
    case RowUnit(r) => cell.0 == r
    case ColUnit(c) => cell.1 == c
    case BlockUnit(br, bc) => bs > 0 && cell.0 / bs == br && cell.1 / bs == bc
  }

  /** Two different cells of a board without duplicates that share a unit hold different digits. */
  lemma PeersDiffer(g: Grid, bs: int, a: Cell, b: Cell)
    requires NoDuplicates(g, bs) && InBounds(|g|, a.0, a.1) && InBounds(|g|, b.0, b.1) && a != b
    requires Peers(bs, a, b) && g[a.0][a.1] != 0
    ensures g[a.0][a.1] != g[b.0][b.1]
  {
  }

  lemma InUnitPeers(bs: int, u: Unit, a: Cell, b: Cell)
    requires InUnit(bs, u, a) && InUnit(bs, u, b)
    ensures Peers(bs, a, b)
  {
  }

  // ---------------------------------------------------------------------------
  // What a solution tells about candidates

  /** In a solution of g, every empty cell of g receives one of its candidates. */
  lemma SolutionTakesCandidate(sol: Grid, g: Grid, bs: int, r: int, c: int)
    requires Solves(sol, g, bs) && InBounds(|g|, r, c) && g[r][c] == 0
    ensures IsCandidate(g, bs, r, c, sol[r][c])
  {
    var n := |g|;
    var d := sol[r][c];
    // every digit placed in g sits in sol too, and sol repeats none of its peers' digits
    forall r', c' | InBounds(n, r', c') && Peers(bs, (r', c'), (r, c))
      ensures g[r'][c'] != d
    {
      if g[r'][c'] != 0 {
        assert sol[r'][c'] == g[r'][c'];
        PeersDiffer(sol, bs, (r', c'), (r, c));
      }
    }
  }

  /** An empty cell without candidates makes the board unsolvable. */
  lemma NoCandidateNoSolution(g: Grid, bs: int, r: int, c: int)
    requires IsGrid(g) && InBounds(|g|, r, c) && g[r][c] == 0 && Candidates(g, bs, r, c) == {}
    ensures !Solvable(g, bs)
  {
    forall sol | Solves(sol, g, bs)
      ensures sol[r][c] in Candidates(g, bs, r, c)
    {
      SolutionTakesCandidate(sol, g, bs, r, c);
    }
  }

  /** A naked single is forced. */
  lemma NakedSingleForced(g: Grid, bs: int, r: int, c: int, d: int)
    requires IsGrid(g) && NakedSingle(g, bs, r, c, d)
    ensures Forced(g, bs, r, c, d)
  {
    forall sol | Solves(sol, g, bs)
      ensures sol[r][c] == d
    {
      SolutionTakesCandidate(sol, g, bs, r, c);
      assert sol[r][c] in Candidates(g, bs, r, c);
    }
  }

  /** n pairwise different digits from 1..n include every digit. */
  lemma {:induction false} DistinctDigitsCover(vals: seq<int>, n: nat, d: int)
    requires |vals| == n && 1 <= d <= n
    requires forall i :: 0 <= i < n ==> 1 <= vals[i] <= n
    requires forall i, j :: 0 <= i < j < n ==> vals[i] != vals[j]
    ensures d in vals
  {
    if d !in vals {
      // without d the values would fit into n - 1 slots
      var squeezed := seq(n, i requires 0 <= i < n => if vals[i] < d then vals[i] else vals[i] - 1);
      Pigeonhole(squeezed, n - 1);
    }
  }

  /** More than m pairwise different values cannot fit into 1..m. */
  lemma {:induction false} Pigeonhole(vals: seq<int>, m: nat)
    requires forall i :: 0 <= i < |vals| ==> 1 <= vals[i] <= m
    requires forall i, j :: 0 <= i < j < |vals| ==> vals[i] != vals[j]
    ensures |vals| <= m
    decreases m
  {
    if |vals| == 0 {
    } else if k :| 0 <= k < |vals| && vals[k] == m {
      // drop the entry equal to m; the rest fits into 1..m-1
      var rest := vals[..k] + vals[k + 1..];
      assert forall i :: 0 <= i < |rest| ==> rest[i] == vals[if i < k then i else i + 1];
      Pigeonhole(rest, m - 1);
    } else {
      assert 1 <= vals[0] <= m;
      Pigeonhole(vals, m - 1);
    }
  }

  /** Two different cells of a unit hold different digits in a solution. */
  lemma UnitPairDiffers(sol: Grid, bs: int, u: Unit, k: int, l: int)
    requires IsSolution(sol, bs) && Geometry(|sol|, bs) && ValidUnit(|sol|, bs, u)
    requires 0 <= k < |sol| && 0 <= l < |sol| && k != l
    ensures var cells := UnitCells(|sol|, bs, u);
      |cells| == |sol| && InBounds(|sol|, cells[k].0, cells[k].1) && InBounds(|sol|, cells[l].0, cells[l].1) &&
      sol[cells[k].0][cells[k].1] != sol[cells[l].0][cells[l].1]
  {
    var cells := UnitCells(|sol|, bs, u);
    UnitCellsFacts(|sol|, bs, u);
    InUnitPeers(bs, u, cells[k], cells[l]);
    PeersDiffer(sol, bs, cells[k], cells[l]);
  }

  /** The digits a solution puts into a unit are pairwise different. */
  lemma UnitDigitsDistinct(sol: Grid, bs: int, u: Unit) returns (vals: seq<int>)
    requires IsSolution(sol, bs) && Geometry(|sol|, bs) && ValidUnit(|sol|, bs, u)
    ensures var cells := UnitCells(|sol|, bs, u);
      |vals| == |sol| == |cells| &&
      (forall k :: 0 <= k < |sol| ==>
        InBounds(|sol|, cells[k].0, cells[k].1) && vals[k] == sol[cells[k].0][cells[k].1] && 1 <= vals[k] <= |sol|) &&
      (forall k, l :: 0 <= k < l < |sol| ==> vals[k] != vals[l])
  {
    var n := |sol|;
    var cells := UnitCells(n, bs, u);
    UnitCellsFacts(n, bs, u);
    vals := seq(n, k requires 0 <= k < n => sol[cells[k].0][cells[k].1]);
    forall k, l | 0 <= k < l < n
      ensures vals[k] != vals[l]
    {
      UnitPairDiffers(sol, bs, u, k, l);
    }
  }

  /** Every digit appears in every unit of a solution. */
  lemma UnitHoldsEveryDigit(sol: Grid, bs: int, u: Unit, d: int) returns (i: int)
    requires IsSolution(sol, bs) && Geometry(|sol|, bs) && ValidUnit(|sol|, bs, u) && 1 <= d <= |sol|
    ensures var cells := UnitCells(|sol|, bs, u);
      0 <= i < |cells| && InBounds(|sol|, cells[i].0, cells[i].1) && sol[cells[i].0][cells[i].1] == d
  {
    var vals := UnitDigitsDistinct(sol, bs, u);
    DistinctDigitsCover(vals, |sol|, d);
    i :| 0 <= i < |vals| && vals[i] == d;
  }

  /** A hidden single is forced. */
  lemma HiddenSingleForced(g: Grid, bs: int, u: Unit, r: int, c: int, d: int)
    requires IsGrid(g) && Geometry(|g|, bs) && ValidUnit(|g|, bs, u) && HiddenSingle(g, bs, u, r, c, d)
    ensures Forced(g, bs, r, c, d)
  {
    var n := |g|;
    var cells := UnitCells(n, bs, u);
    UnitCellsFacts(n, bs, u);
    var k :| 0 <= k < n && cells[k] == (r, c);
    forall sol | Solves(sol, g, bs)
      ensures sol[r][c] == d
    {
      var i := UnitHoldsEveryDigit(sol, bs, u, d);
      var cell := cells[i];
      InUnitPeers(bs, u, cell, (r, c));
      // d is a candidate of (r, c), so no peer of (r, c) holds it in g: cell is empty in g
      assert g[cell.0][cell.1] != d;
      SolutionTakesCandidate(sol, g, bs, cell.0, cell.1);
    }
  }

  // ---------------------------------------------------------------------------
  // Placements and solutions

  /** The solutions of g with d in (r, c) are the solutions of g with (r, c) set to d. */
  lemma GuessSplitsSolutions(g: Grid, bs: int, r: int, c: int, d: int, sol: Grid)
    requires IsGrid(g) && InBounds(|g|, r, c) && g[r][c] == 0 && d != 0
    ensures Solves(sol, Update(g, r, c, d), bs) <==> Solves(sol, g, bs) && sol[r][c] == d
  {
    var h := Update(g, r, c, d);
    if Solves(sol, h, bs) {
      assert sol[r][c] == h[r][c];
    }
  }

  /** Placing a forced digit keeps exactly the same solutions. */
  lemma ForcedPlacementKeepsSolutions(g: Grid, bs: int, r: int, c: int, d: int)
    requires IsGrid(g) && InBounds(|g|, r, c) && g[r][c] == 0 && d != 0 && Forced(g, bs, r, c, d)
    ensures forall sol :: Solves(sol, g, bs) <==> Solves(sol, Update(g, r, c, d), bs)
  {
    forall sol
      ensures Solves(sol, g, bs) <==> Solves(sol, Update(g, r, c, d), bs)
    {
      GuessSplitsSolutions(g, bs, r, c, d, sol);
    }
  }

  // ---------------------------------------------------------------------------
  // Writing a digit into an empty cell

  lemma RowHasUpdate(g: Grid, r: int, c: int, d: int, i: int, e: int)
    requires IsGrid(g) && InBounds(|g|, r, c) && g[r][c] == 0 && e != 0
    ensures RowHas(Update(g, r, c, d), i, e) <==> RowHas(g, i, e) || (i == r && e == d)
  {
    var h := Update(g, r, c, d);
    if RowHas(h, i, e) {
      var c' :| 0 <= c' < |h[i]| && h[i][c'] == e;
      if (i, c') != (r, c) {
        assert g[i][c'] == e;
      }
    }
    if RowHas(g, i, e) {
      var c' :| 0 <= c' < |g[i]| && g[i][c'] == e;
      assert h[i][c'] == e;
    }
    if i == r && e == d {
      assert h[r][c] == d;
    }
  }

  lemma ColHasUpdate(g: Grid, r: int, c: int, d: int, j: int, e: int)
    requires IsGrid(g) && InBounds(|g|, r, c) && g[r][c] == 0 && e != 0
    ensures ColHas(Update(g, r, c, d), j, e) <==> ColHas(g, j, e) || (j == c && e == d)
  {
    var h := Update(g, r, c, d);
    if ColHas(h, j, e) {
      var r' :| 0 <= r' < |h| && 0 <= j < |h[r']| && h[r'][j] == e;
      if (r', j) != (r, c) {
        assert g[r'][j] == e;
      }
    }
    if ColHas(g, j, e) {
      var r' :| 0 <= r' < |g| && 0 <= j < |g[r']| && g[r'][j] == e;
      assert h[r'][j] == e;
    }
    if j == c && e == d {
      assert h[r][c] == d;
    }
  }

  lemma BlockHasUpdate(g: Grid, bs: int, r: int, c: int, d: int, b: int, e: int)
    requires IsGrid(g) && InBounds(|g|, r, c) && g[r][c] == 0 && e != 0
    ensures BlockHas(Update(g, r, c, d), bs, b, e) <==>
      BlockHas(g, bs, b, e) || (b == BlockIndex(bs, r, c) && e == d)
  {
    var h := Update(g, r, c, d);
    if BlockHas(h, bs, b, e) {
      var r', c' :| 0 <= r' < |h| && 0 <= c' < |h[r']| && BlockIndex(bs, r', c') == b && h[r'][c'] == e;
      if (r', c') != (r, c) {
        assert g[r'][c'] == e;
      }
    }
    if BlockHas(g, bs, b, e) {
      var r', c' :| 0 <= r' < |g| && 0 <= c' < |g[r']| && BlockIndex(bs, r', c') == b && g[r'][c'] == e;
      assert h[r'][c'] == e;
    }
    if b == BlockIndex(bs, r, c) && e == d {
      assert h[r][c] == d;
    }
  }

  /** The board with an empty cell filled keeps every digit it had. */
  lemma UpdateExtends(g: Grid, r: int, c: int, d: int)
    requires IsGrid(g) && InBounds(|g|, r, c) && g[r][c] == 0
    ensures IsGrid(Update(g, r, c, d)) && Extends(Update(g, r, c, d), g)
  {
  }

  lemma ExtendsTrans(a: Grid, b: Grid, c: Grid)
    requires Extends(a, b) && Extends(b, c)
    ensures Extends(a, c)
  {
  }

  /** A peer of (r, c) holding d contradicts d being a candidate of (r, c). */
  lemma CandidateAvoidsPeer(g: Grid, bs: int, r: int, c: int, d: int, r': int, c': int)
    requires IsGrid(g) && InBounds(|g|, r, c) && InBounds(|g|, r', c') && IsCandidate(g, bs, r, c, d)
    requires Peers(bs, (r, c), (r', c'))
    ensures g[r'][c'] != d
  {
    if r' == r {
      assert !(0 <= c' < |g[r]| && g[r][c'] == d);
    } else if c' == c {
      assert !(0 <= r' < |g| && 0 <= c < |g[r']| && g[r'][c] == d);
    } else {
      var b := BlockIndex(bs, r, c);
      assert !(0 <= r' < |g| && 0 <= c' < |g[r']| && BlockIndex(bs, r', c') == b && g[r'][c'] == d);
    }
  }

  /** Writing a candidate into an empty cell creates no duplicate. */
  lemma CandidateKeepsNoDuplicates(g: Grid, bs: int, r: int, c: int, d: int)
    requires NoDuplicates(g, bs) && InBounds(|g|, r, c) && g[r][c] == 0 && IsCandidate(g, bs, r, c, d)
    ensures NoDuplicates(Update(g, r, c, d), bs)
  {
    var h := Update(g, r, c, d);
    forall r1, c1, r2, c2 |
      InBounds(|h|, r1, c1) && InBounds(|h|, r2, c2) && (r1, c1) != (r2, c2) &&
      Peers(bs, (r1, c1), (r2, c2)) && h[r1][c1] != 0
      ensures h[r1][c1] != h[r2][c2]
    {
      if (r1, c1) == (r, c) {
        CandidateAvoidsPeer(g, bs, r, c, d, r2, c2);
      } else if (r2, c2) == (r, c) {
        assert Peers(bs, (r, c), (r1, c1));
        CandidateAvoidsPeer(g, bs, r, c, d, r1, c1);
      } else {
        assert h[r1][c1] == g[r1][c1] && h[r2][c2] == g[r2][c2];
      }
    }
  }

  /** A board that has a solution has no duplicates. */
  lemma SolvableNoDuplicates(g: Grid, bs: int)
    requires Solvable(g, bs)
    ensures NoDuplicates(g, bs)
  {
    var sol :| Solves(sol, g, bs);
    forall r1, c1, r2, c2 |
      InBounds(|g|, r1, c1) && InBounds(|g|, r2, c2) && (r1, c1) != (r2, c2) &&
      Peers(bs, (r1, c1), (r2, c2)) && g[r1][c1] != 0
      ensures g[r1][c1] != g[r2][c2]
    {
      assert sol[r1][c1] == g[r1][c1];
      PeersDiffer(sol, bs, (r1, c1), (r2, c2));
    }
  }

  /** A solution of a board is a solution of any board it extends. */
  lemma SolvesWeaker(sol: Grid, g: Grid, h: Grid, bs: int)
    requires Solves(sol, h, bs) && Extends(h, g)
    ensures Solves(sol, g, bs)
  {
  }
}
