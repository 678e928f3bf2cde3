/** The move stack grows by trails: `Advanced(s0, st0, s1, st1, ...)` says that st1 is st0
    with the placements of a trail from state s0 to state s1 pushed on top. Every
    heuristic and every search step is specified this way, so that the checkpoint the
    search rolls back to is always the start of a trail. */
module Progress {
  import opened Rules
  import opened Moves
  import opened Trail

  ghost predicate Advanced(s0: Snapshot, st0: seq<Move>, s1: Snapshot, st1: seq<Move>, bs: int, forced: bool)
  {
    |st0| <= |st1| && st1[..|st0|] == st0 &&
    ValidTrail(s0, bs, st1[|st0|..], forced) && Replay(s0, bs, st1[|st0|..], forced) == s1
  }

  /** Nothing pushed, nothing changed. */
  lemma Unmoved(s: Snapshot, st: seq<Move>, bs: int, forced: bool)
    requires Shaped(s, bs)
    ensures Advanced(s, st, s, st, bs, forced)
  {
    assert st[|st|..] == [];
  }

  /** With nothing pushed, the state is the one the trail started from. */
  lemma NothingPushed(s0: Snapshot, st0: seq<Move>, s1: Snapshot, st1: seq<Move>, bs: int, forced: bool)
    requires Advanced(s0, st0, s1, st1, bs, forced) && |st1| == |st0|
    ensures s1 == s0 && st1 == st0
  {
    assert st1[|st0|..] == [];
  }

  /** Pushing one more placement. */
  lemma AdvanceStep(s0: Snapshot, st0: seq<Move>, s1: Snapshot, st1: seq<Move>, bs: int, forced: bool, m: Move)
    requires Advanced(s0, st0, s1, st1, bs, forced)
    requires CanPlace(s1, bs, m) && (forced ==> Forced(s1.grid, bs, m.row, m.col, m.newValue))
    ensures Advanced(s0, st0, Place(s1, bs, m), st1 + [m], bs, forced)
  {
    var a := st1[|st0|..];
    TrailSingle(s1, bs, m, forced);
    TrailConcat(s0, bs, a, [m], forced);
    assert (st1 + [m])[|st0|..] == a + [m];
    assert (st1 + [m])[..|st0|] == st0;
  }

  /** Two trails one after the other. */
  lemma AdvanceTrans(s0: Snapshot, st0: seq<Move>, s1: Snapshot, st1: seq<Move>, s2: Snapshot, st2: seq<Move>,
                     bs: int, forced: bool)
    requires Advanced(s0, st0, s1, st1, bs, forced) && Advanced(s1, st1, s2, st2, bs, forced)
    ensures Advanced(s0, st0, s2, st2, bs, forced)
  {
    var a, b := st1[|st0|..], st2[|st1|..];
    TrailConcat(s0, bs, a, b, forced);
    assert st2[..|st0|] == st1[..|st0|];
    assert st2[|st0|..] == a + b;
  }

  /** A trail of forced placements is a trail. */
  lemma AdvanceUnforced(s0: Snapshot, st0: seq<Move>, s1: Snapshot, st1: seq<Move>, bs: int)
    requires Advanced(s0, st0, s1, st1, bs, true)
    ensures Advanced(s0, st0, s1, st1, bs, false)
  {
    ForcedTrail(s0, bs, st1[|st0|..]);
  }

  /** Masks that describe the board keep describing it. */
  lemma AdvanceAgree(s0: Snapshot, st0: seq<Move>, s1: Snapshot, st1: seq<Move>, bs: int, forced: bool)
    requires Agree(s0, bs) && Advanced(s0, st0, s1, st1, bs, forced)
    ensures Agree(s1, bs)
  {
    TrailAgree(s0, bs, st1[|st0|..], forced);
  }

  /** The trail fills one empty cell per pushed move and creates no duplicate. */
  lemma AdvanceFills(s0: Snapshot, st0: seq<Move>, s1: Snapshot, st1: seq<Move>, bs: int, forced: bool)
    requires Agree(s0, bs) && Advanced(s0, st0, s1, st1, bs, forced)
    ensures Extends(s1.grid, s0.grid) && EmptyCount(s1.grid) + (|st1| - |st0|) == EmptyCount(s0.grid)
    ensures NoDuplicates(s0.grid, bs) ==> NoDuplicates(s1.grid, bs)
  {
    TrailFills(s0, bs, st1[|st0|..], forced);
  }

  /** A trail of forced placements keeps exactly the solutions. */
  lemma AdvanceSolutions(s0: Snapshot, st0: seq<Move>, s1: Snapshot, st1: seq<Move>, bs: int, sol: Grid)
    requires Advanced(s0, st0, s1, st1, bs, true)
    ensures Solves(sol, s0.grid, bs) <==> Solves(sol, s1.grid, bs)
  {
    ForcedTrailSolutions(s0, bs, st1[|st0|..], sol);
  }

  /** Undoing the pushed moves, newest first, gives back the state the trail started from. */
  lemma AdvanceRollback(s0: Snapshot, st0: seq<Move>, s1: Snapshot, st1: seq<Move>, bs: int, forced: bool)
    requires Advanced(s0, st0, s1, st1, bs, forced)
    ensures Shaped(s1, bs) && OnBoard(|s1.grid|, st1[|st0|..]) && UndoAll(s1, bs, st1[|st0|..]) == s0
  {
    Rollback(s0, bs, st1[|st0|..], forced);
  }

  /** A stack whose moves lie on the board keeps that property when a trail is pushed. */
  lemma AdvanceOnBoard(s0: Snapshot, st0: seq<Move>, s1: Snapshot, st1: seq<Move>, bs: int, forced: bool)
    requires Advanced(s0, st0, s1, st1, bs, forced) && OnBoard(|s0.grid|, st0)
    ensures OnBoard(|s0.grid|, st1)
  {
    AdvanceRollback(s0, st0, s1, st1, bs, forced);
    var pushed := st1[|st0|..];
    forall i | 0 <= i < |st1|
      ensures InBounds(|s0.grid|, st1[i].row, st1[i].col)
    {
      if i < |st0| {
        assert st1[i] == st0[i];
      } else {
        assert st1[i] == pushed[i - |st0|];
      }
    }
  }
}
