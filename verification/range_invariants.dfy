/** Order of the segments of a chain, and what a non-zero branch depth records. */
module RangeInvariants {
  import opened CIntegers
  import opened VarAccesses
  import opened LockHash
  import opened LockTracking
  import opened LockRanges
  import opened RangeQueries

  /** Along every chain each segment ends no later than the next one starts. */
  ghost predicate Apart(fs: seq<LpField>) {
    forall j, k :: 0 <= j < k < |fs| && fs[j].lockVa == fs[k].lockVa ==>
      fs[j].end.At? && fs[j].end.idx <= fs[k].start
  }

  ghost predicate Forward(fs: seq<LpField>) {
    forall k :: 0 <= k < |fs| && fs[k].end.At? ==> fs[k].start <= fs[k].end.idx
  }

  /** Along every chain segments follow one another without overlap. */
  ghost predicate Ordered(fs: seq<LpField>) {
    Forward(fs) && Apart(fs)
  }

  /** No else begins inside the condition of an if. */
  ghost predicate NoElseInCondition(ev: Footprint) {
    forall i, j :: 0 <= i < j < |ev| && ev[i].ty.IfStmt? && j < NextThen(ev, i) ==> !ev[j].ty.ElseStmt?
  }

  // ----- segments keep apart -----

  lemma {:induction false} PendingBound(ev: Footprint, n: nat, bound: nat, c: nat)
    requires n < |ev| && PendingFor(ev, n, bound, c) && n <= bound
    ensures bound == NextThen(ev, n)
    ensures NoElseInCondition(ev) && n < bound ==> !ev[n].ty.ElseStmt?
    ensures CleanConditions(ev) && n < bound ==> !ev[n].ty.LockRelease?
    ensures bound == n ==> ev[n].ty.ThenBlock?
  {
    var i :| 0 <= i < n && ev[i].ty.IfStmt? && NextThen(ev, i) == bound && OpenAt(ev, i, c);
    NextThenSame(ev, i, n);
  }

  /** Where the continued segment ends, the new one may begin. */
  lemma {:induction false} ExtensionKeepsApart(fs: seq<LpField>, x: Extension, r: seq<LpField>)
    requires Linked(fs) && Apart(fs) && |fs| <= |r| && ExtendsFirst(fs, x, r, |fs|)
    requires forall k :: 0 <= k < |fs| && Selected(fs[k], x) ==> ReachesNoFurther(fs[k], x)
    ensures Apart(r)
  {
    forall j, k | 0 <= j < k < |r| && r[j].lockVa == r[k].lockVa
      ensures r[j].end.At? && r[j].end.idx <= r[k].start
    {
      if k < |fs| {
        assert LinkedAt(fs, j);
      } else {
        ContinuationComesNext(fs, x, r, j, k);
        assert HasSource(fs, x, r, k);
        var i :| Continues(fs, x, r, i, k);
        assert LinkedAt(fs, i) && LinkedAt(fs, j);
      }
    }
  }

  ghost predicate ReachesNoFurther(f: LpField, x: Extension) {
    f.start <= x.start && (x.Reopen? ==> f.end.At? && f.end.idx <= x.start)
  }

  lemma {:induction false} SelectedBounds(ev: Footprint, n: nat, fs: seq<LpField>, k: nat)
    requires NoElseInCondition(ev) && n < |ev| && (ev[n].ty.IfStmt? || ev[n].ty.ElseStmt?)
    requires FollowsMachine(ev, n, fs) && k < |fs| && Selected(fs[k], ExtensionAt(ev, n))
    ensures ReachesNoFurther(fs[k], ExtensionAt(ev, n))
  {
    if n <= fs[k].start {
      PendingBound(ev, n, fs[k].start, fs[k].lockVa);
    }
    if ev[n].ty.ElseStmt? && n <= fs[k].end.idx {
      PendingBound(ev, n, fs[k].end.idx, fs[k].lockVa);
    }
  }

  lemma {:induction false} AcquireKeepsApart(fs: seq<LpField>, f: LpField)
    requires Apart(fs) && forall k :: 0 <= k < |fs| ==> fs[k].lockVa != f.lockVa
    ensures Apart(fs + [f])
  {
  }

  lemma {:induction false} ReleaseKeepsApart(fs: seq<LpField>, hash: uint32, end: nat)
    requires Apart(fs)
    ensures Apart(Released(fs, hash, end))
  {
    forall j, k | 0 <= j < k < |fs| && fs[j].lockVa == fs[k].lockVa
      ensures Released(fs, hash, end)[j] == fs[j]
    {
      assert fs[j].end.At?;
    }
  }

  lemma {:induction false} StepKeepsApart(ev: Footprint, n: nat, fs: seq<LpField>)
    requires NoElseInCondition(ev) && n < |ev| && FollowsMachine(ev, n, fs) && Apart(fs)
    ensures Apart(Step(ev, n, fs))
  {
    if ev[n].ty.LockAcquire? {
      AcquireKeepsApart(fs, NewField(n, ev[n].usr, n));
    } else if ev[n].ty.LockRelease? {
      ReleaseKeepsApart(fs, Hash(ev[n].usr), n);
    } else if ev[n].ty.IfStmt? || ev[n].ty.ElseStmt? {
      var x := ExtensionAt(ev, n);
      forall k | 0 <= k < |fs| && Selected(fs[k], x)
        ensures ReachesNoFurther(fs[k], x)
      {
        SelectedBounds(ev, n, fs, k);
      }
      ExtendUpToFacts(fs, x, |fs|);
      ExtensionKeepsApart(fs, x, Extend(fs, x));
    }
  }

  lemma {:induction false} SegmentsAreApart(ev: Footprint, n: nat)
    requires NoElseInCondition(ev) && n <= |ev|
    ensures Apart(Fields(ev, n))
  {
    if n > 0 {
      SegmentsAreApart(ev, n - 1);
      ArrayFollowsMachine(ev, n - 1);
      StepKeepsApart(ev, n - 1, Fields(ev, n - 1));
    }
  }

  /** A chain is reported at most once. */
  lemma {:induction false} ReportedOnce(ev: Footprint, p: nat, j: nat, k: nat)
    requires NoElseInCondition(ev)
    requires j in Active(Index(ev), p) && k in Active(Index(ev), p) && Index(ev)[j].lockVa == Index(ev)[k].lockVa
    ensures j == k
  {
    SegmentsAreApart(ev, |ev|);
  }

  // ----- segments run forward -----

  lemma {:induction false} ReleaseKeepsForward(ev: Footprint, n: nat, fs: seq<LpField>)
    requires CleanConditions(ev) && n < |ev| && ev[n].ty.LockRelease?
    requires FollowsMachine(ev, n, fs) && Forward(fs)
    ensures Forward(Step(ev, n, fs))
  {
    forall k | 0 <= k < |fs|
      ensures fs[k].start < n
    {
      if n <= fs[k].start {
        PendingBound(ev, n, fs[k].start, fs[k].lockVa);
      }
    }
  }

  lemma {:induction false} ExtensionKeepsForward(fs: seq<LpField>, x: Extension, r: seq<LpField>)
    requires Forward(fs) && |fs| <= |r| && ExtendsFirst(fs, x, r, |fs|)
    requires forall k :: 0 <= k < |fs| && Selected(fs[k], x) ==> ReachesNoFurther(fs[k], x)
    ensures Forward(r)
  {
    forall k | |fs| <= k < |r|
      ensures r[k].end.Unbounded?
    {
      assert HasSource(fs, x, r, k);
    }
  }

  lemma {:induction false} StepKeepsForward(ev: Footprint, n: nat, fs: seq<LpField>)
    requires CleanConditions(ev) && n < |ev| && FollowsMachine(ev, n, fs) && Forward(fs)
    ensures Forward(Step(ev, n, fs))
  {
    if ev[n].ty.LockRelease? {
      ReleaseKeepsForward(ev, n, fs);
    } else if ev[n].ty.IfStmt? || ev[n].ty.ElseStmt? {
      var x := ExtensionAt(ev, n);
      forall k | 0 <= k < |fs| && Selected(fs[k], x)
        ensures ReachesNoFurther(fs[k], x)
      {
        SelectedBounds(ev, n, fs, k);
      }
      ExtendUpToFacts(fs, x, |fs|);
      ExtensionKeepsForward(fs, x, Extend(fs, x));
    }
  }

  lemma {:induction false} SegmentsAreOrdered(ev: Footprint, n: nat)
    requires CleanConditions(ev) && n <= |ev|
    ensures Ordered(Fields(ev, n))
  {
    SegmentsAreApart(ev, n);
    if n > 0 {
      SegmentsAreOrdered(ev, n - 1);
      ArrayFollowsMachine(ev, n - 1);
      StepKeepsForward(ev, n - 1, Fields(ev, n - 1));
    }
  }

  // ----- branch depth -----

  /** Every end-if closes an if, and the footprint is no longer than memory can hold. */
  ghost predicate WellBracketed(ev: Footprint) {
    |ev| <= SIZE_MAX && forall i :: 0 <= i < |ev| && ev[i].ty.EndIf? ==> Depth(ev, i) > 0
  }

  lemma {:induction false} DepthIsSmall(ev: Footprint, i: nat)
    requires WellBracketed(ev) && i <= |ev|
    ensures Depth(ev, i) <= i
  {
    if i > 0 {
      DepthIsSmall(ev, i - 1);
    }
  }

  /** The segment ends where a then-block begins: an if split it. */
  ghost predicate CutByIf(ev: Footprint, f: LpField) {
    f.end.At? && f.end.idx < |ev| && ev[f.end.idx].ty.ThenBlock?
  }

  ghost predicate DepthsRecordCuts(ev: Footprint, fs: seq<LpField>) {
    forall k :: 0 <= k < |fs| ==> (fs[k].branchDepth != 0 <==> CutByIf(ev, fs[k]))
  }

  lemma {:induction false} ExtensionRecordsCuts(ev: Footprint, n: nat, fs: seq<LpField>)
    requires EveryIfHasThen(ev) && WellBracketed(ev) && n < |ev| && (ev[n].ty.IfStmt? || ev[n].ty.ElseStmt?)
    requires FollowsMachine(ev, n, fs) && DepthsRecordCuts(ev, fs)
    ensures DepthsRecordCuts(ev, Step(ev, n, fs))
  {
    var x := ExtensionAt(ev, n);
    var r := Extend(fs, x);
    ExtendUpToFacts(fs, x, |fs|);
    DepthIsSmall(ev, n);
    forall k | 0 <= k < |r|
      ensures r[k].branchDepth != 0 <==> CutByIf(ev, r[k])
    {
      if |fs| <= k {
        assert HasSource(fs, x, r, k);
        var j :| Continues(fs, x, r, j, k);
        assert LinkedAt(fs, j);
      }
    }
  }

  lemma {:induction false} ReleaseRecordsNoCut(ev: Footprint, n: nat, fs: seq<LpField>)
    requires n < |ev| && ev[n].ty.LockRelease? && Linked(fs) && TailsFollowMachine(ev, n, fs)
    requires DepthsRecordCuts(ev, fs)
    ensures DepthsRecordCuts(ev, Step(ev, n, fs))
  {
    forall k | 0 <= k < |fs| && fs[k].end.Unbounded?
      ensures fs[k].branchDepth == 0
    {
      assert LinkedAt(fs, k);
    }
  }

  lemma {:induction false} StepRecordsCuts(ev: Footprint, n: nat, fs: seq<LpField>)
    requires EveryIfHasThen(ev) && WellBracketed(ev) && n < |ev|
    requires FollowsMachine(ev, n, fs) && DepthsRecordCuts(ev, fs)
    ensures DepthsRecordCuts(ev, Step(ev, n, fs))
  {
    if ev[n].ty.IfStmt? || ev[n].ty.ElseStmt? {
      ExtensionRecordsCuts(ev, n, fs);
    } else if ev[n].ty.LockRelease? {
      ReleaseRecordsNoCut(ev, n, fs);
    }
  }

  lemma {:induction false} TailsHaveNoDepth(ev: Footprint, n: nat)
    requires n <= |ev|
    ensures forall k :: 0 <= k < |Fields(ev, n)| && Fields(ev, n)[k].next.None? ==> Fields(ev, n)[k].branchDepth == 0
  {
    hide Fields;
    ArrayFollowsMachine(ev, n);
    assert forall k: nat :: k < |Fields(ev, n)| ==> LinkedAt(Fields(ev, n), k);
  }

  lemma {:induction false} NothingCutYet(ev: Footprint)
    ensures DepthsRecordCuts(ev, Fields(ev, 0))
  {
  }

  /** In every reachable array a segment has a non-zero depth if and only if an if split it; tails
      have depth zero. */
  lemma {:induction false} DepthMeansCut(ev: Footprint, n: nat)
    requires EveryIfHasThen(ev) && WellBracketed(ev) && n <= |ev|
    ensures DepthsRecordCuts(ev, Fields(ev, n))
    ensures forall k :: 0 <= k < |Fields(ev, n)| && Fields(ev, n)[k].next.None? ==> Fields(ev, n)[k].branchDepth == 0
  {
    TailsHaveNoDepth(ev, n);
    hide FollowsMachine, DepthsRecordCuts, WellBracketed;
    if n == 0 {
      NothingCutYet(ev);
    } else {
      DepthMeansCut(ev, n - 1);
      ArrayFollowsMachine(ev, n - 1);
      StepRecordsCuts(ev, n - 1, Fields(ev, n - 1));
    }
  }

  lemma {:induction false} NothingSelected(fs: seq<LpField>, x: Extension, n: nat)
    requires n <= |fs| && forall k :: 0 <= k < n ==> !Selected(fs[k], x)
    ensures ExtendUpTo(fs, x, n) == fs
  {
    if n > 0 {
      NothingSelected(fs, x, n - 1);
    }
  }

  /** An else that is not at depth 1 leaves the array as it is. */
  lemma {:induction false} DeepElseChangesNothing(ev: Footprint, n: nat)
    requires n < |ev| && ev[n].ty.ElseStmt? && Depth(ev, n) != 1
    ensures Fields(ev, n + 1) == Fields(ev, n)
  {
    ArrayFollowsMachine(ev, n);
    var fs := Fields(ev, n);
    var x := ExtensionAt(ev, n);
    NothingSelected(fs, x, |fs|);
  }
}
