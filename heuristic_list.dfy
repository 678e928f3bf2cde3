/** `SudokuHeuristics`: an ordered list of heuristics that share one board, one set of
    masks and one move log, applied one after the other. */
module HeuristicList {
  import opened Rules
  import opened Moves
  import opened Trail
  import opened Masks
  import opened Progress
  import opened Deductions
  import opened Errors
  import opened HeuristicBase
  import opened NakedSingles
  import opened HiddenSingles
  import opened NakedPairs
  import Board
  import MovesLog

  /** The three kinds of heuristic there are. */
  datatype Kind = NakedSinglesKind | HiddenSinglesKind | NakedPairsKind

  /** A heuristic of the list. */
  datatype Applier =
    | NakedSinglesApplier(nakedSingles: NakedSinglesHeuristic)
    | HiddenSinglesApplier(hiddenSingles: HiddenSinglesHeuristic)
    | NakedPairsApplier(nakedPairs: NakedPairsHeuristic)
  {
    /** The part every heuristic shares: board, masks, move log and queue. */
    function Base(): Heuristic
    {
      match this
      case NakedSinglesApplier(h) => h.base
      case HiddenSinglesApplier(h) => h.base
      case NakedPairsApplier(h) => h.base
    }

    function Kind(): Kind
    {
      match this
      case NakedSinglesApplier(_) => NakedSinglesKind
      case HiddenSinglesApplier(_) => HiddenSinglesKind
      case NakedPairsApplier(_) => NakedPairsKind
    }
  }

  /** The kinds of a list of heuristics, in their order. */
  function KindsOf(hs: seq<Applier>): (ks: seq<Kind>)
    ensures |ks| == |hs| && forall i :: 0 <= i < |hs| ==> ks[i] == hs[i].Kind()
  {
    if |hs| == 0 then [] else KindsOf(hs[..|hs| - 1]) + [hs[|hs| - 1].Kind()]
  }

  /** A heuristic of kind k has nothing to place at s: no naked single for naked singles,
      no hidden single for hidden singles. The `Apply` of naked pairs only throws, so it
      is never idle. */
  ghost predicate Idle(k: Kind, s: Snapshot, bs: int)
  {
    match k
    case NakedSinglesKind => !HasNaked(s, bs)
    case HiddenSinglesKind => !HasHidden(s, bs)
    case NakedPairsKind => false
  }

  /** Every heuristic of the list is idle at s. */
  ghost predicate Quiet(ks: seq<Kind>, s: Snapshot, bs: int)
  {
    forall i :: 0 <= i < |ks| ==> Idle(ks[i], s, bs)
  }

  /** One call of `Apply`: the state before and after, and the result. */
  datatype Pass = Pass(before: Snapshot, after: Snapshot, progress: bool)

  /** What a completed `Apply` of kind k promises: it reports progress exactly when it had
      something to place, and without progress it changes nothing; naked singles leaves
      no naked single behind. */
  ghost predicate Ran(k: Kind, p: Pass, bs: int)
  {
    k != NakedPairsKind &&
    (p.progress <==> !Idle(k, p.before, bs)) &&
    (!p.progress ==> p.after == p.before) &&
    (k == NakedSinglesKind ==> !HasNaked(p.after, bs))
  }

  /** The passes ps are the calls of the heuristics ks, each exactly once and in list
      order, each starting where the one before it stopped, from s0 to s1. */
  ghost predicate RanInOrder(ks: seq<Kind>, ps: seq<Pass>, s0: Snapshot, s1: Snapshot, bs: int)
  {
    |ps| == |ks| &&
    (|ps| == 0 ==> s1 == s0) &&
    (|ps| > 0 ==> ps[0].before == s0 && ps[|ps| - 1].after == s1) &&
    (forall i :: 0 <= i < |ps| - 1 ==> ps[i].after == ps[i + 1].before) &&
    (forall i :: 0 <= i < |ps| ==> Ran(ks[i], ps[i], bs))
  }

  /** The loop of `ApplyAll` after its first i turns, which went from s0 with the log st0
      to s with the log st: the passes of the first i kinds of ks, none of them naked
      pairs, with made telling whether a move was logged. */
  ghost predicate Running(ks: seq<Kind>, i: int, passes: seq<Pass>, made: bool, s0: Snapshot, st0: seq<Move>,
                          s: Snapshot, st: seq<Move>, bs: int)
  {
    0 <= i <= |ks| && Advanced(s0, st0, s, st, bs, true) && (made <==> |st| > |st0|) &&
    RanInOrder(ks[..i], passes, s0, s, bs) && (made <==> Progressed(passes)) && NakedPairsKind !in ks[..i]
  }

  /** Some pass of ps made progress. */
  ghost predicate Progressed(ps: seq<Pass>)
  {
    exists j :: 0 <= j < |ps| && ps[j].progress
  }

  /** One more completed pass extends a run by the next heuristic of the list. */
  lemma RanInOrderExtend(ks: seq<Kind>, i: int, ps: seq<Pass>, s0: Snapshot, p: Pass, bs: int)
    requires 0 <= i < |ks| && RanInOrder(ks[..i], ps, s0, p.before, bs) && Ran(ks[i], p, bs)
    ensures RanInOrder(ks[..i + 1], ps + [p], s0, p.after, bs)
    ensures Progressed(ps + [p]) <==> Progressed(ps) || p.progress
  {
    assert ks[..i + 1] == ks[..i] + [ks[i]];
    var qs := ps + [p];
    assert qs[i] == p && forall j :: 0 <= j < i ==> qs[j] == ps[j];
  }

  /** A run of passes reports no progress exactly when every heuristic was idle at the
      start, and then it ends where it started. */
  lemma {:induction false} QuietRun(ks: seq<Kind>, ps: seq<Pass>, s0: Snapshot, s1: Snapshot, bs: int)
    requires RanInOrder(ks, ps, s0, s1, bs)
    ensures Quiet(ks, s0, bs) <==> !Progressed(ps)
    ensures Quiet(ks, s0, bs) ==> s1 == s0
    decreases |ps|
  {
    if |ps| > 0 {
      var n := |ps| - 1;
      var mid := if n == 0 then s0 else ps[n - 1].after;
      assert RanInOrder(ks[..n], ps[..n], s0, mid, bs);
      QuietRun(ks[..n], ps[..n], s0, mid, bs);
      assert ps[n].before == mid;
      if Quiet(ks, s0, bs) {
        assert Quiet(ks[..n], s0, bs);
        assert Idle(ks[n], s0, bs);
      }
      if !Progressed(ps) {
        assert !Progressed(ps[..n]) by {
          forall j | 0 <= j < n
            ensures !ps[..n][j].progress
          {
            assert ps[..n][j] == ps[j];
          }
        }
        assert Quiet(ks[..n], s0, bs);
        assert Idle(ks[n], s0, bs);
      }
    }
  }

  /** A list holding naked pairs is never quiet. This only spells out how `Idle` encodes
      the naked pairs `Apply`, which throws before looking at the board: a run can never
      report that such a list found nothing to do. */
  lemma PairsNeverQuiet(ks: seq<Kind>, s: Snapshot, bs: int)
    requires NakedPairsKind in ks
    ensures !Quiet(ks, s, bs)
  {
    var j :| 0 <= j < |ks| && ks[j] == NakedPairsKind;
    assert !Idle(ks[j], s, bs);
  }

  /** The end of a complete run: it made progress exactly when some heuristic was not idle
      at the start, and otherwise neither the state nor the move log changed. */
  lemma RunOutcome(ks: seq<Kind>, ps: seq<Pass>, s0: Snapshot, st0: seq<Move>, s1: Snapshot, st1: seq<Move>,
                   bs: int, made: bool)
    requires RanInOrder(ks, ps, s0, s1, bs) && Advanced(s0, st0, s1, st1, bs, true)
    requires (made <==> |st1| > |st0|) && (made <==> Progressed(ps))
    ensures made <==> !Quiet(ks, s0, bs)
    ensures !made ==> s1 == s0 && st1 == st0
  {
    QuietRun(ks, ps, s0, s1, bs);
    if !made {
      NothingPushed(s0, st0, s1, st1, bs, true);
    }
  }

  class SudokuHeuristics {
    const board: Board.SudokuBoard
    const maskManager: MaskManager
    const movesManager: MovesLog.MovesManager
    /** The heuristics, in the order they were added. */
    var heuristics: seq<Applier>

    /** The shared parts of the heuristics in the list. */
    ghost function Bases(): set<Heuristic>
      reads this
    {
      set i | 0 <= i < |heuristics| :: heuristics[i].Base()
    }

    /** a works on this list's board, masks and move log. */
    ghost predicate Shares(a: Applier)
    {
      a.Base().board == board && a.Base().maskManager == maskManager && a.Base().movesManager == movesManager &&
      a.Base().boardSize == board.rows
    }

    ghost predicate Valid()
      reads this, board, maskManager, maskManager.rowMask, maskManager.colMask, maskManager.blockMask
    {
      board.Valid() && maskManager.Valid() && board.rows == maskManager.boardSize &&
      forall i :: 0 <= i < |heuristics| ==> Shares(heuristics[i])
    }

    /** Every queued cell of every heuristic lies on the board. */
    ghost predicate QueuesOnBoard()
      reads this, Bases()
    {
      forall i :: 0 <= i < |heuristics| ==> heuristics[i].Base().QueueOnBoard()
    }

    /** The board and its masks as a state value. */
    ghost function Now(): (s: Snapshot)
      reads board, board.board, maskManager, maskManager.rowMask, maskManager.colMask, maskManager.blockMask
      requires board.Valid() && maskManager.Valid() && board.rows == maskManager.boardSize
      ensures Shaped(s, maskManager.blockSize) && |s.grid| == board.rows && s.grid == board.Cells()
    {
      maskManager.State(board.Cells())
    }

    /** `SudokuHeuristics()`: an empty list over the shared board, masks and move log. */
    constructor (board: Board.SudokuBoard, maskManager: MaskManager, movesManager: MovesLog.MovesManager)
      requires board.Valid() && maskManager.Valid() && board.rows == maskManager.boardSize
      ensures Valid() && QueuesOnBoard() && heuristics == []
      ensures this.board == board && this.maskManager == maskManager && this.movesManager == movesManager
    {
      this.board := board;
      this.maskManager := maskManager;
      this.movesManager := movesManager;
      heuristics := [];
    }

    /** `AddHeuristic`: append to the end of the list. */
    method AddHeuristic(heuristic: Applier)
      requires Valid() && QueuesOnBoard() && Shares(heuristic) && heuristic.Base().QueueOnBoard()
      modifies this
      ensures Valid() && QueuesOnBoard() && heuristics == old(heuristics) + [heuristic]
    {
      heuristics := heuristics + [heuristic];
    }

    /** The `Apply` of heuristic i, which is not naked pairs. */
    method ApplyAt(i: int) returns (progress: bool, ghost p: Pass)
      requires Valid() && QueuesOnBoard() && Agree(Now(), maskManager.blockSize)
      requires 0 <= i < |heuristics| && !heuristics[i].NakedPairsApplier?
      modifies Bases(), board.board, maskManager.rowMask, maskManager.colMask, maskManager.blockMask, movesManager
      ensures Valid() && QueuesOnBoard() && Agree(Now(), maskManager.blockSize)
      ensures Advanced(old(Now()), old(movesManager.moveStack), Now(), movesManager.moveStack,
                       maskManager.blockSize, true)
      ensures progress <==> |movesManager.moveStack| > |old(movesManager.moveStack)|
      ensures p == Pass(old(Now()), Now(), progress) && Ran(heuristics[i].Kind(), p, maskManager.blockSize)
    {
      match heuristics[i] {
        case NakedSinglesApplier(h) =>
          progress, p := ApplyNakedSingles(i, h);
        case HiddenSinglesApplier(h) =>
          progress, p := ApplyHiddenSingles(i, h);
      }
    }

    method ApplyNakedSingles(i: int, h: NakedSinglesHeuristic) returns (progress: bool, ghost p: Pass)
      requires Valid() && QueuesOnBoard() && Agree(Now(), maskManager.blockSize)
      requires 0 <= i < |heuristics| && heuristics[i] == NakedSinglesApplier(h)
      modifies Bases(), board.board, maskManager.rowMask, maskManager.colMask, maskManager.blockMask, movesManager
      ensures Valid() && QueuesOnBoard() && Agree(Now(), maskManager.blockSize)
      ensures Advanced(old(Now()), old(movesManager.moveStack), Now(), movesManager.moveStack,
                       maskManager.blockSize, true)
      ensures progress <==> |movesManager.moveStack| > |old(movesManager.moveStack)|
      ensures p == Pass(old(Now()), Now(), progress) && Ran(NakedSinglesKind, p, maskManager.blockSize)
    {
      ghost var bs := maskManager.blockSize;
      ghost var s, st := Now(), movesManager.moveStack;
      ghost var hs := heuristics;
      assert Shares(hs[i]) && forall j :: 0 <= j < |hs| ==> hs[j].Base().QueueOnBoard();
      assert h.base.Now() == s;
      progress := h.Apply();
      ghost var t := Now();
      assert h.base.Now() == t;
      forall j | 0 <= j < |hs|
        ensures hs[j].Base().QueueOnBoard()
      {
        if hs[j].Base() != h.base {
          assert hs[j].Base().cellsToProcess == old(hs[j].Base().cellsToProcess);
        }
      }
      assert heuristics == hs;
      p := Pass(s, t, progress);
      if !progress {
        NothingPushed(s, st, t, movesManager.moveStack, bs, true);
      }
    }

    method ApplyHiddenSingles(i: int, h: HiddenSinglesHeuristic) returns (progress: bool, ghost p: Pass)
      requires Valid() && QueuesOnBoard() && Agree(Now(), maskManager.blockSize)
      requires 0 <= i < |heuristics| && heuristics[i] == HiddenSinglesApplier(h)
      modifies board.board, maskManager.rowMask, maskManager.colMask, maskManager.blockMask, movesManager
      ensures Valid() && QueuesOnBoard() && Agree(Now(), maskManager.blockSize)
      ensures Advanced(old(Now()), old(movesManager.moveStack), Now(), movesManager.moveStack,
                       maskManager.blockSize, true)
      ensures progress <==> |movesManager.moveStack| > |old(movesManager.moveStack)|
      ensures p == Pass(old(Now()), Now(), progress) && Ran(HiddenSinglesKind, p, maskManager.blockSize)
    {
      ghost var s := Now();
      ghost var hs := heuristics;
      assert Shares(hs[i]) && forall j :: 0 <= j < |hs| ==> hs[j].Base().QueueOnBoard();
      assert h.base.Now() == s;
      progress := h.Apply();
      ghost var t := Now();
      assert h.base.Now() == t;
      forall j | 0 <= j < |hs|
        ensures hs[j].Base().QueueOnBoard()
      {
        assert hs[j].Base().cellsToProcess == old(hs[j].Base().cellsToProcess);
      }
      assert heuristics == hs;
      p := Pass(s, t, progress);
    }

    /** One turn of the loop of `ApplyAll`: the `Apply` of heuristic i, which is not naked
        pairs, after the heuristics before it. */
    method ApplyNext(i: int, made: bool, ghost s0: Snapshot, ghost st0: seq<Move>, ghost passes: seq<Pass>)
      returns (progressMade: bool, ghost passes': seq<Pass>)
      requires 0 <= i < |heuristics| && !heuristics[i].NakedPairsApplier?
      requires Valid() && QueuesOnBoard() && Agree(Now(), maskManager.blockSize)
      requires Running(KindsOf(heuristics), i, passes, made, s0, st0, Now(), movesManager.moveStack, maskManager.blockSize)
      modifies Bases(), board.board, maskManager.rowMask, maskManager.colMask, maskManager.blockMask, movesManager
      ensures Valid() && QueuesOnBoard() && Agree(Now(), maskManager.blockSize) && heuristics == old(heuristics)
      ensures Running(KindsOf(heuristics), i + 1, passes', progressMade, s0, st0, Now(), movesManager.moveStack,
                      maskManager.blockSize)
    {
      ghost var bs := maskManager.blockSize;
      ghost var ks := KindsOf(heuristics);
      assert ks[..i + 1] == ks[..i] + [ks[i]];
      ghost var s, st := Now(), movesManager.moveStack;
      var progress;
      ghost var p;
      progress, p := ApplyAt(i);
      AdvanceTrans(s0, st0, s, st, Now(), movesManager.moveStack, bs, true);
      RanInOrderExtend(ks, i, passes, s0, p, bs);
      passes' := passes + [p];
      progressMade := made || progress;
    }

    /** The loop of `ApplyAll`, up to the end of the list or to the first naked pairs
        heuristic, whichever comes first. */
    method RunUntilNakedPairs() returns (i: int, progressMade: bool, ghost passes: seq<Pass>)
      requires Valid() && QueuesOnBoard() && Agree(Now(), maskManager.blockSize)
      modifies Bases(), board.board, maskManager.rowMask, maskManager.colMask, maskManager.blockMask, movesManager
      ensures 0 <= i <= |heuristics| && (i < |heuristics| ==> heuristics[i].NakedPairsApplier?)
      ensures Valid() && QueuesOnBoard() && Agree(Now(), maskManager.blockSize)
      ensures Advanced(old(Now()), old(movesManager.moveStack), Now(), movesManager.moveStack,
                       maskManager.blockSize, true)
      ensures progressMade <==> |movesManager.moveStack| > |old(movesManager.moveStack)|
      ensures RanInOrder(KindsOf(heuristics)[..i], passes, old(Now()), Now(), maskManager.blockSize)
      ensures progressMade <==> Progressed(passes)
      ensures NakedPairsKind !in KindsOf(heuristics)[..i]
    {
      ghost var bs := maskManager.blockSize;
      ghost var s0, st0 := Now(), movesManager.moveStack;
      ghost var hs := heuristics;
      ghost var ks := KindsOf(hs);
      Unmoved(s0, st0, bs, true);
      progressMade := false;
      passes := [];
      i := 0;
      while i < |heuristics| && !heuristics[i].NakedPairsApplier?
        invariant Valid() && QueuesOnBoard() && Agree(Now(), bs) && heuristics == hs
        invariant Running(ks, i, passes, progressMade, s0, st0, Now(), movesManager.moveStack, bs)
        decreases |heuristics| - i
      {
        progressMade, passes := ApplyNext(i, progressMade, s0, st0, passes);
        i := i + 1;
      }
    }

    /** `ApplyAll`: every heuristic once, in list order, whatever the earlier ones
        returned; the result is true exactly when one of them made progress. The `Apply`
        of naked pairs throws, which ends the run with the heuristics before it done. */
    method ApplyAll() returns (res: Outcome<bool>, ghost passes: seq<Pass>)
      requires Valid() && QueuesOnBoard() && Agree(Now(), maskManager.blockSize)
      modifies Bases(), board.board, maskManager.rowMask, maskManager.colMask, maskManager.blockMask, movesManager
      ensures Valid() && QueuesOnBoard() && Agree(Now(), maskManager.blockSize) && heuristics == old(heuristics)
      ensures Advanced(old(Now()), old(movesManager.moveStack), Now(), movesManager.moveStack,
                       maskManager.blockSize, true)
      ensures res.Ok? <==> NakedPairsKind !in KindsOf(heuristics)
      ensures res.Ok? ==> RanInOrder(KindsOf(heuristics), passes, old(Now()), Now(), maskManager.blockSize)
      ensures res.Ok? ==> (res.value <==> Progressed(passes))
      ensures res.Ok? ==> (res.value <==> |movesManager.moveStack| > |old(movesManager.moveStack)|)
      ensures res.Ok? ==> (res.value <==> !Quiet(KindsOf(heuristics), old(Now()), maskManager.blockSize))
      ensures res == Ok(false) ==> Now() == old(Now()) && movesManager.moveStack == old(movesManager.moveStack)
      ensures res.Err? ==>
        res.error == NotImplemented && |passes| < |heuristics| && heuristics[|passes|].NakedPairsApplier? &&
        RanInOrder(KindsOf(heuristics[..|passes|]), passes, old(Now()), Now(), maskManager.blockSize)
    {
      ghost var bs := maskManager.blockSize;
      ghost var s0, st0 := Now(), movesManager.moveStack;
      ghost var ks := KindsOf(heuristics);
      var i, progressMade;
      i, progressMade, passes := RunUntilNakedPairs();
      ghost var s1, st1 := Now(), movesManager.moveStack;
      if i < |heuristics| {
        assert ks[..i] == KindsOf(heuristics[..i]) && ks[i] == NakedPairsKind;
        return Err(NotImplemented), passes;
      }
      assert ks[..i] == ks;
      RunOutcome(ks, passes, s0, st0, s1, st1, bs, progressMade);
      return Ok(progressMade), passes;
    }
  }
}
