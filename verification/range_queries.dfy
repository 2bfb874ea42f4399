/** What the finished ranges answer when asked about one entry of the footprint. */
module RangeQueries {
  import opened VarAccesses
  import opened LockTracking
  import opened LockRanges

  /** The query at p reports the chain acquired at c. */
  ghost predicate Reported(fs: seq<LpField>, c: nat, p: nat) {
    exists k :: k in Active(fs, p) && fs[k].lockVa == c
  }

  /** An if whose then-block lies beyond p found c open: p is in its condition. */
  ghost predicate HeldAtPendingIf(ev: Footprint, c: nat, p: nat)
    requires p <= |ev|
  {
    exists i :: 0 <= i < p && ev[i].ty.IfStmt? && p < NextThen(ev, i) && OpenAt(ev, i, c)
  }

  /** r has the segments of fs, some of those open in fs ending later than p, and nothing new that covers p. */
  ghost predicate SameAt(fs: seq<LpField>, r: seq<LpField>, p: nat) {
    && |fs| <= |r|
    && (forall k :: 0 <= k < |fs| ==>
          && r[k].lockVa == fs[k].lockVa && r[k].start == fs[k].start && r[k].lockObjHash == fs[k].lockObjHash
          && (r[k].end == fs[k].end || (fs[k].end.Unbounded? && r[k].end.At? && p < r[k].end.idx)))
    && (forall k :: |fs| <= k < |r| ==> p <= r[k].start)
  }

  lemma {:induction false} StepKeepsAnswers(ev: Footprint, n: nat, fs: seq<LpField>, p: nat)
    requires p < n < |ev|
    ensures SameAt(fs, Step(ev, n, fs), p)
  {
    if ev[n].ty.IfStmt? || ev[n].ty.ElseStmt? {
      var x := ExtensionAt(ev, n);
      var r := Extend(fs, x);
      ExtendUpToFacts(fs, x, |fs|);
      forall k | |fs| <= k < |r|
        ensures p <= r[k].start
      {
        assert HasSource(fs, x, r, k);
      }
    }
  }

  /** Nothing after entry p changes which segments cover p. */
  lemma {:induction false} AnswersAreFinal(ev: Footprint, p: nat, n: nat)
    requires p < n <= |ev|
    ensures SameAt(Fields(ev, p + 1), Fields(ev, n), p)
    ensures Active(Fields(ev, n), p) == Active(Fields(ev, p + 1), p)
  {
    if n > p + 1 {
      AnswersAreFinal(ev, p, n - 1);
      StepKeepsAnswers(ev, n - 1, Fields(ev, n - 1), p);
    }
  }

  /** A chain that is open right before and right after entry p, or bridged over it, is reported. */
  lemma {:induction false} OpenIsReported(ev: Footprint, p: nat, c: nat)
    requires p < |ev| && !ev[p].ty.ThenBlock?
    requires (OpenAt(ev, p, c) && OpenAt(ev, p + 1, c)) || HeldAtPendingIf(ev, c, p)
    ensures Reported(Fields(ev, p + 1), c, p)
  {
    ArrayFollowsMachine(ev, p);
    var fs, r := Fields(ev, p), Fields(ev, p + 1);
    if HeldAtPendingIf(ev, c, p) {
      BridgeIsReported(ev, p, c);
    } else {
      assert HasTail(fs, c);
      var k: nat :| IsTail(fs, k, c);
      LateStartIsPending(ev, p, k);
      OpenSegmentCovers(ev, p, k);
    }
  }

  lemma {:induction false} LateStartIsPending(ev: Footprint, p: nat, k: nat)
    requires p < |ev| && !ev[p].ty.ThenBlock? && k < |Fields(ev, p)| && LateBoundsArePending(ev, p, Fields(ev, p))
    ensures Fields(ev, p)[k].start < p || HeldAtPendingIf(ev, Fields(ev, p)[k].lockVa, p)
  {
    var f := Fields(ev, p)[k];
    if p <= f.start {
      assert PendingFor(ev, p, f.start, f.lockVa);
    }
  }

  lemma {:induction false} BridgeIsReported(ev: Footprint, p: nat, c: nat)
    requires p < |ev| && !ev[p].ty.ThenBlock? && HeldAtPendingIf(ev, c, p)
    ensures Reported(Fields(ev, p + 1), c, p)
  {
    var i :| 0 <= i < p && ev[i].ty.IfStmt? && p < NextThen(ev, i) && OpenAt(ev, i, c);
    assert Bridges(Fields(ev, p), c, i, NextThen(ev, i)) by {
      ArrayFollowsMachine(ev, p);
    }
    BridgeCovers(ev, p, c, i, NextThen(ev, i));
  }

  lemma {:induction false} BridgeCovers(ev: Footprint, p: nat, c: nat, i: nat, e: nat)
    requires p < |ev| && i < p < e && Bridges(Fields(ev, p), c, i, e)
    ensures Reported(Fields(ev, p + 1), c, p)
  {
    var k :| 0 <= k < |Fields(ev, p)| && Fields(ev, p)[k].lockVa == c && Fields(ev, p)[k].start <= i &&
        Fields(ev, p)[k].end == At(e);
    ClosedSegmentStays(ev, p, k);
    assert k in Active(Fields(ev, p + 1), p);
  }

  lemma {:induction false} ClosedSegmentStays(ev: Footprint, n: nat, k: nat)
    requires n < |ev| && k < |Fields(ev, n)| && Fields(ev, n)[k].end.At?
    ensures var f, g := Fields(ev, n)[k], Fields(ev, n + 1);
            k < |g| && g[k].lockVa == f.lockVa && g[k].start == f.start && g[k].end == f.end
  {
    var fs := Fields(ev, n);
    if ev[n].ty.IfStmt? || ev[n].ty.ElseStmt? {
      ExtendUpToFacts(fs, ExtensionAt(ev, n), |fs|);
    }
  }

  lemma {:induction false} OpenSegmentCovers(ev: Footprint, p: nat, k: nat)
    requires p < |ev| && !ev[p].ty.ThenBlock?
    requires k < |Fields(ev, p)| && Fields(ev, p)[k].end.Unbounded? && Fields(ev, p)[k].start < p
    requires FollowsMachine(ev, p, Fields(ev, p)) && OpenAt(ev, p + 1, Fields(ev, p)[k].lockVa)
    ensures Reported(Fields(ev, p + 1), Fields(ev, p)[k].lockVa, p)
  {
    var fs, r := Fields(ev, p), Fields(ev, p + 1);
    if ev[p].ty.IfStmt? || ev[p].ty.ElseStmt? {
      ExtendUpToFacts(fs, ExtensionAt(ev, p), |fs|);
    }
    assert k in Active(r, p);
  }

  /** A segment that covers p right after entry p was there before, and was open or ended beyond p. */
  lemma {:induction false} CoveredBefore(ev: Footprint, p: nat, k: nat)
    requires p < |ev| && k in Active(Fields(ev, p + 1), p)
    ensures k < |Fields(ev, p)|
    ensures var f, g := Fields(ev, p)[k], Fields(ev, p + 1)[k];
            && f.lockVa == g.lockVa
            && (f.end.At? ==> g.end == f.end)
            && (f.end.Unbounded? && g.end.At? ==> ev[p].ty.IfStmt?)
  {
    var fs, r := Fields(ev, p), Fields(ev, p + 1);
    if ev[p].ty.IfStmt? || ev[p].ty.ElseStmt? {
      ExtendUpToFacts(fs, ExtensionAt(ev, p), |fs|);
      assert |fs| <= k ==> HasSource(fs, ExtensionAt(ev, p), r, k);
    }
  }

  lemma {:induction false} ReportedIsOpen(ev: Footprint, p: nat, c: nat)
    requires p < |ev| && !ev[p].ty.ThenBlock? && Reported(Fields(ev, p + 1), c, p)
    ensures (OpenAt(ev, p, c) && OpenAt(ev, p + 1, c)) || HeldAtPendingIf(ev, c, p)
  {
    var r := Fields(ev, p + 1);
    var k :| k in Active(r, p) && r[k].lockVa == c;
    CoveredBefore(ev, p, k);
    CoverIsExplained(ev, p, Fields(ev, p), r, k);
  }

  lemma {:induction false} CoverIsExplained(ev: Footprint, p: nat, fs: seq<LpField>, r: seq<LpField>, k: nat)
    requires p < |ev| && !ev[p].ty.ThenBlock? && fs == Fields(ev, p) && r == Fields(ev, p + 1)
    requires k in Active(r, p) && k < |fs| && fs[k].lockVa == r[k].lockVa
    requires (fs[k].end.At? ==> r[k].end == fs[k].end) && (fs[k].end.Unbounded? && r[k].end.At? ==> ev[p].ty.IfStmt?)
    ensures var c := r[k].lockVa; (OpenAt(ev, p, c) && OpenAt(ev, p + 1, c)) || HeldAtPendingIf(ev, c, p)
  {
    ArrayFollowsMachine(ev, p);
    assert LinkedAt(fs, k);
    if fs[k].end.At? {
      assert PendingFor(ev, p, fs[k].end.idx, r[k].lockVa);
    } else if r[k].end.Unbounded? {
      OpenStays(ev, p, k);
    }
  }

  lemma {:induction false} OpenStays(ev: Footprint, p: nat, k: nat)
    requires p < |ev| && k < |Fields(ev, p + 1)| && Fields(ev, p + 1)[k].end.Unbounded?
    ensures OpenAt(ev, p + 1, Fields(ev, p + 1)[k].lockVa)
  {
    ArrayFollowsMachine(ev, p + 1);
    assert LinkedAt(Fields(ev, p + 1), k);
  }

  lemma {:induction false} ReportedIsFinal(ev: Footprint, p: nat, c: nat)
    requires p < |ev|
    ensures Reported(Index(ev), c, p) <==> Reported(Fields(ev, p + 1), c, p)
  {
    AnswersAreFinal(ev, p, |ev|);
    var fs, r := Fields(ev, p + 1), Index(ev);
    assert forall k :: k in Active(fs, p) ==> k in Active(r, p) && fs[k].lockVa == r[k].lockVa;
    assert forall k :: k in Active(r, p) ==> k in Active(fs, p) && fs[k].lockVa == r[k].lockVa;
  }

  /** The ranges, queried at any entry but a then-block, report exactly the chains that the one-pass
      machine has open right before and right after the entry, plus those held at an if in whose
      condition the entry lies. */
  lemma {:induction false} RangesRefineMachine(ev: Footprint, p: nat, c: nat)
    requires p < |ev| && !ev[p].ty.ThenBlock?
    ensures Reported(Index(ev), c, p) <==> (OpenAt(ev, p, c) && OpenAt(ev, p + 1, c)) || HeldAtPendingIf(ev, c, p)
  {
    ReportedIsFinal(ev, p, c);
    if Reported(Fields(ev, p + 1), c, p) {
      ReportedIsOpen(ev, p, c);
    } else if (OpenAt(ev, p, c) && OpenAt(ev, p + 1, c)) || HeldAtPendingIf(ev, c, p) {
      OpenIsReported(ev, p, c);
    }
  }

  /** No lock is released, and no else begins, inside the condition of an if. */
  ghost predicate CleanConditions(ev: Footprint) {
    forall i, j :: 0 <= i < j < |ev| && ev[i].ty.IfStmt? && j < NextThen(ev, i) ==>
        !ev[j].ty.LockRelease? && !ev[j].ty.ElseStmt?
  }

  lemma {:induction false} OpenThroughCondition(ev: Footprint, i: nat, p: nat, c: nat)
    requires CleanConditions(ev) && i < |ev| && ev[i].ty.IfStmt? && i < p <= NextThen(ev, i) && OpenAt(ev, i, c)
    ensures OpenAt(ev, p, c)
  {
    if p > i + 1 {
      OpenThroughCondition(ev, i, p - 1, c);
      assert !ev[p - 1].ty.LockRelease? && !ev[p - 1].ty.ElseStmt?;
    }
  }

  /** With clean conditions the ranges and the machine agree outright. */
  lemma {:induction false} CleanRangesAreTheMachine(ev: Footprint, p: nat, c: nat)
    requires CleanConditions(ev) && p < |ev| && !ev[p].ty.ThenBlock?
    ensures Reported(Index(ev), c, p) <==> OpenAt(ev, p, c) && OpenAt(ev, p + 1, c)
  {
    RangesRefineMachine(ev, p, c);
    if HeldAtPendingIf(ev, c, p) {
      var i :| 0 <= i < p && ev[i].ty.IfStmt? && p < NextThen(ev, i) && OpenAt(ev, i, c);
      OpenThroughCondition(ev, i, p, c);
      OpenThroughCondition(ev, i, p + 1, c);
    }
  }
}
