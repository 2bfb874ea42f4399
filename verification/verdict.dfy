/** The verdict on a pair of accesses, in terms of the locks held at either (src/lock_tracking.c:406-448). */
module Verdict {
  import opened CIntegers
  import opened VarAccesses
  import opened Sequences
  import opened LockHash
  import opened LockTracking
  import opened LockRanges
  import opened RangeQueries
  import opened RangeInvariants

  /** The lock acquired at c is held at p: open right before and right after the entry. */
  ghost predicate HeldAt(ev: Footprint, p: nat, c: nat)
    requires p < |ev|
  {
    OpenAt(ev, p, c) && OpenAt(ev, p + 1, c)
  }

  ghost function HeldHashes(ev: Footprint, p: nat): set<uint32>
    requires p < |ev|
  {
    set c: nat | c < |ev| && HeldAt(ev, p, c) :: Hash(ev[c].usr)
  }

  // ----- what the ranges show, on any footprint -----

  /** What branch markers always give a footprint that is built from a syntax tree. */
  ghost predicate Structured(ev: Footprint) {
    NoElseInCondition(ev) && EveryIfHasThen(ev)
  }

  /** The lock acquired at c is reported at p: held there, or found open by an if in whose condition p lies. */
  ghost predicate Shown(ev: Footprint, p: nat, c: nat)
    requires p < |ev|
  {
    HeldAt(ev, p, c) || HeldAtPendingIf(ev, c, p)
  }

  ghost function ShownChains(ev: Footprint, p: nat): set<nat>
    requires p < |ev|
  {
    set c: nat | c < |ev| && Shown(ev, p, c)
  }

  ghost function ShownHashes(ev: Footprint, p: nat): set<uint32>
    requires p < |ev|
  {
    set c: nat | c < |ev| && Shown(ev, p, c) :: Hash(ev[c].usr)
  }

  lemma {:induction false} ActiveIsShown(ev: Footprint, p: nat, k: nat)
    requires p < |ev| && !ev[p].ty.ThenBlock? && k in Active(Index(ev), p)
    ensures var f := Index(ev)[k];
            f.lockVa < |ev| && Shown(ev, p, f.lockVa) && f.lockObjHash == Hash(ev[f.lockVa].usr)
  {
    var c := Index(ev)[k].lockVa;
    assert Reported(Index(ev), c, p);
    RangesRefineMachine(ev, p, c);
    AcquiredBefore(ev, |ev|);
  }

  lemma {:induction false} ShownIsActive(ev: Footprint, p: nat, c: nat) returns (k: nat)
    requires p < |ev| && !ev[p].ty.ThenBlock? && Shown(ev, p, c)
    ensures c < |ev| && k in Active(Index(ev), p)
    ensures Index(ev)[k].lockVa == c && Index(ev)[k].lockObjHash == Hash(ev[c].usr)
  {
    RangesRefineMachine(ev, p, c);
    k :| k in Active(Index(ev), p) && Index(ev)[k].lockVa == c;
    AcquiredBefore(ev, |ev|);
  }

  ghost function HashesOf(fs: seq<LpField>, s: set<nat>): set<uint32>
    requires forall k :: k in s ==> k < |fs|
  {
    set k | k in s :: fs[k].lockObjHash
  }

  lemma {:induction false} ActiveCarryTheHashes(ev: Footprint, p: nat)
    requires p < |ev| && !ev[p].ty.ThenBlock?
    ensures HashesOf(Index(ev), Active(Index(ev), p)) == ShownHashes(ev, p)
  {
    var fs, s := Index(ev), Active(Index(ev), p);
    forall h | h in HashesOf(fs, s)
      ensures h in ShownHashes(ev, p)
    {
      var k :| k in s && fs[k].lockObjHash == h;
      ActiveIsShown(ev, p, k);
    }
    forall h | h in ShownHashes(ev, p)
      ensures h in HashesOf(fs, s)
    {
      var c: nat :| c < |ev| && Shown(ev, p, c) && Hash(ev[c].usr) == h;
      var k := ShownIsActive(ev, p, c);
    }
  }

  /** One active segment for every chain that is shown. */
  lemma {:induction false} ActiveAreTheShown(ev: Footprint, p: nat)
    requires NoElseInCondition(ev) && p < |ev| && !ev[p].ty.ThenBlock?
    ensures |Active(Index(ev), p)| == |ShownChains(ev, p)|
  {
    var fs, s := Index(ev), Active(Index(ev), p);
    var chain := (k: nat) => if k < |fs| then fs[k].lockVa else 0;
    forall j, k | j in s && k in s && chain(j) == chain(k)
      ensures j == k
    {
      ReportedOnce(ev, p, j, k);
    }
    ImageIsAsLarge(s, chain);
    forall k | k in s
      ensures chain(k) in ShownChains(ev, p)
    {
      ActiveIsShown(ev, p, k);
    }
    forall c | c in ShownChains(ev, p)
      ensures c in Image(s, chain)
    {
      var k := ShownIsActive(ev, p, c);
      assert chain(k) == c;
    }
    assert Image(s, chain) == ShownChains(ev, p);
  }

  lemma {:induction false} UncutHashes(fa: seq<LpField>, fb: seq<LpField>, activeA: set<nat>, activeB: set<nat>)
    requires (forall k :: k in activeA ==> k < |fa|) && !SomeCut(fb, activeB)
    ensures forall k :: k in activeA ==>
      (HasHashBeforeCut(fb, activeB, fa[k].lockObjHash) <==> HasHash(fb, activeB, fa[k].lockObjHash))
  {
    forall k, m: nat | k in activeA && m in activeB && m < |fb| && fb[m].lockObjHash == fa[k].lockObjHash
      ensures NoCutUpTo(fb, activeB, m)
    {
    }
  }

  // ----- when the verdict is uncertain -----

  /** From p on, an if comes before any release of the lock acquired at c. */
  ghost predicate IfBeforeRelease(ev: Footprint, p: nat, n: nat, c: nat)
    requires n <= |ev|
  {
    exists i :: p <= i < n && ev[i].ty.IfStmt? && NoReleaseBetween(ev, p, i, c)
  }

  ghost predicate NoReleaseBetween(ev: Footprint, p: nat, n: nat, c: nat) {
    forall r :: p < r < n ==> !ReleaseOf(ev, r, c)
  }

  ghost predicate NoIfBetween(ev: Footprint, p: nat, n: nat)
    requires n <= |ev|
  {
    forall i :: p < i < n ==> !ev[i].ty.IfStmt?
  }

  /** An if whose depth is recorded as something else than zero: it is not at the depth from which the
      counter wraps around. */
  ghost predicate Counts(ev: Footprint, i: nat) {
    i < |ev| && ev[i].ty.IfStmt? && Depth(ev, i) != SIZE_MAX
  }

  /** From p on, the first if counts, and it comes before any release of the lock acquired at c. */
  ghost predicate CutBeforeRelease(ev: Footprint, p: nat, n: nat, c: nat)
    requires n <= |ev|
  {
    exists i: nat :: p <= i < n && Counts(ev, i) && NoIfBetween(ev, p, i) && NoReleaseBetween(ev, p, i, c)
  }

  lemma {:induction false} FateInOneStep(ev: Footprint, n: nat, k: nat)
    requires n < |ev| && k < |Fields(ev, n)|
    ensures var f, r := Fields(ev, n)[k], Fields(ev, n + 1);
            && k < |r| && r[k].lockVa == f.lockVa
            && r[k].end == (if f.end.At? then f.end
                            else if ev[n].ty.IfStmt? then At(NextThen(ev, n))
                            else if ReleaseOf(ev, n, f.lockVa) then At(n)
                            else Unbounded)
            && r[k].branchDepth ==
               (if f.end.Unbounded? && ev[n].ty.IfStmt? then Increment(Depth(ev, n)) else f.branchDepth)
  {
    assert Fields(ev, n + 1) == Step(ev, n, Fields(ev, n));
    hide Fields, Hash;
    AcquiredBefore(ev, n);
    if ev[n].ty.IfStmt? || ev[n].ty.ElseStmt? {
      ExtendUpToFacts(Fields(ev, n), ExtensionAt(ev, n), |Fields(ev, n)|);
    }
  }

  lemma {:induction false} OpenHasNoDepth(ev: Footprint, n: nat, k: nat)
    requires n <= |ev| && k < |Fields(ev, n)| && Fields(ev, n)[k].end.Unbounded?
    ensures Fields(ev, n)[k].branchDepth == 0
  {
    ArrayFollowsMachine(ev, n);
    assert LinkedAt(Fields(ev, n), k);
  }

  /** What has become by n of a segment that was still open right after p. */
  ghost predicate FateAt(ev: Footprint, p: nat, n: nat, f: LpField)
    requires n <= |ev|
  {
    && (f.end.Unbounded? <==> NoIfBetween(ev, p, n) && NoReleaseBetween(ev, p, n, f.lockVa))
    && (CutByIf(ev, f) <==> IfBeforeRelease(ev, p, n, f.lockVa))
    && (f.branchDepth != 0 <==> CutBeforeRelease(ev, p, n, f.lockVa))
  }

  lemma {:induction false} FateOfOpenSegment(ev: Footprint, p: nat, n: nat, k: nat)
    requires EveryIfHasThen(ev) && p < n <= |ev| && !ev[p].ty.IfStmt?
    requires k < |Fields(ev, p + 1)| && Fields(ev, p + 1)[k].end.Unbounded?
    ensures k < |Fields(ev, n)| && Fields(ev, n)[k].lockVa == Fields(ev, p + 1)[k].lockVa
    ensures FateAt(ev, p, n, Fields(ev, n)[k])
  {
    hide FateAt, Fields;
    if n > p + 1 {
      FateOfOpenSegment(ev, p, n - 1, k);
      FateInOneStep(ev, n - 1, k);
      FateStep(ev, p, n, k);
    } else {
      FateBegins(ev, p, k);
    }
  }

  lemma {:induction false} FateBegins(ev: Footprint, p: nat, k: nat)
    requires p < |ev| && !ev[p].ty.IfStmt?
    requires k < |Fields(ev, p + 1)| && Fields(ev, p + 1)[k].end.Unbounded?
    ensures FateAt(ev, p, p + 1, Fields(ev, p + 1)[k])
  {
    hide Fields;
    OpenHasNoDepth(ev, p + 1, k);
  }

  lemma {:induction false} FateStep(ev: Footprint, p: nat, n: nat, k: nat)
    requires EveryIfHasThen(ev) && p + 1 < n <= |ev| && !ev[p].ty.IfStmt?
    requires k < |Fields(ev, n - 1)| && FateAt(ev, p, n - 1, Fields(ev, n - 1)[k]) && k < |Fields(ev, n)|
    ensures FateAt(ev, p, n, Fields(ev, n)[k])
  {
    hide Fields, NoIfBetween, NoReleaseBetween, IfBeforeRelease, CutBeforeRelease;
    FateInOneStep(ev, n - 1, k);
    FateOneLater(ev, p, n, Fields(ev, n - 1)[k].lockVa);
    if Fields(ev, n - 1)[k].end.Unbounded? {
      OpenHasNoDepth(ev, n - 1, k);
    }
  }

  lemma {:induction false} FateOneLater(ev: Footprint, p: nat, n: nat, c: nat)
    requires p + 1 < n <= |ev| && !ev[p].ty.IfStmt?
    ensures NoIfBetween(ev, p, n) <==> NoIfBetween(ev, p, n - 1) && !ev[n - 1].ty.IfStmt?
    ensures NoReleaseBetween(ev, p, n, c) <==> NoReleaseBetween(ev, p, n - 1, c) && !ReleaseOf(ev, n - 1, c)
    ensures IfBeforeRelease(ev, p, n, c) <==>
      IfBeforeRelease(ev, p, n - 1, c) || (ev[n - 1].ty.IfStmt? && NoReleaseBetween(ev, p, n - 1, c))
    ensures CutBeforeRelease(ev, p, n, c) <==>
      || CutBeforeRelease(ev, p, n - 1, c)
      || (Counts(ev, n - 1) && NoIfBetween(ev, p, n - 1) && NoReleaseBetween(ev, p, n - 1, c))
    ensures NoReleaseBetween(ev, p, n - 1, c) && !IfBeforeRelease(ev, p, n - 1, c) ==> NoIfBetween(ev, p, n - 1)
    ensures NoIfBetween(ev, p, n - 1) ==> !IfBeforeRelease(ev, p, n - 1, c)
    ensures NoIfBetween(ev, p, n - 1) ==> !CutBeforeRelease(ev, p, n - 1, c)
  {
    IfFirst(ev, p, n - 1, c);
  }

  lemma {:induction false} IfFirst(ev: Footprint, p: nat, n: nat, c: nat)
    requires p < n <= |ev| && !ev[p].ty.IfStmt?
    ensures NoReleaseBetween(ev, p, n, c) && !IfBeforeRelease(ev, p, n, c) ==> NoIfBetween(ev, p, n)
    ensures NoIfBetween(ev, p, n) ==> !IfBeforeRelease(ev, p, n, c)
  {
    if !NoIfBetween(ev, p, n) {
      var i :| p < i < n && ev[i].ty.IfStmt?;
      assert NoReleaseBetween(ev, p, n, c) ==> NoReleaseBetween(ev, p, i, c);
    }
  }

  /** The first if in whose condition p lies and that found c open. */
  ghost predicate FirstPending(ev: Footprint, i: nat, c: nat, p: nat)
    requires p <= |ev|
  {
    && i < p && ev[i].ty.IfStmt? && p < NextThen(ev, i) && OpenAt(ev, i, c)
    && forall x: nat :: x < i && ev[x].ty.IfStmt? && p < NextThen(ev, x) ==> !OpenAt(ev, x, c)
  }

  /** The lock acquired at c was found open by ifs in whose conditions p lies, and the first of them
      counts; or by none, it is held at p, and the first if after p counts and comes before its release. */
  ghost predicate MeetsIf(ev: Footprint, p: nat, c: nat)
    requires p < |ev|
  {
    if HeldAtPendingIf(ev, c, p) then exists i: nat :: FirstPending(ev, i, c, p) && Counts(ev, i)
    else HeldAt(ev, p, c) && CutBeforeRelease(ev, p, |ev|, c)
  }

  lemma {:induction false} SomeFirstPending(ev: Footprint, c: nat, p: nat, bound: nat) returns (i: nat)
    requires p <= |ev| && bound <= p
    requires exists x: nat :: x < bound && ev[x].ty.IfStmt? && p < NextThen(ev, x) && OpenAt(ev, x, c)
    ensures FirstPending(ev, i, c, p)
    decreases bound
  {
    var x: nat :| x < bound && ev[x].ty.IfStmt? && p < NextThen(ev, x) && OpenAt(ev, x, c);
    if exists y: nat :: y < x && ev[y].ty.IfStmt? && p < NextThen(ev, y) && OpenAt(ev, y, c) {
      i := SomeFirstPending(ev, c, p, x);
    } else {
      i := x;
    }
  }

  /** Where end-ifs close ifs, every if counts. */
  lemma {:induction false} MeetsIfPlainly(ev: Footprint, p: nat, c: nat)
    requires WellBracketed(ev) && p < |ev| && !ev[p].ty.IfStmt?
    ensures MeetsIf(ev, p, c) <==>
      HeldAtPendingIf(ev, c, p) || (HeldAt(ev, p, c) && IfBeforeRelease(ev, p, |ev|, c))
  {
    forall i: nat | i < |ev| && ev[i].ty.IfStmt?
      ensures Counts(ev, i)
    {
      DepthIsSmall(ev, i);
    }
    if HeldAtPendingIf(ev, c, p) {
      var i := SomeFirstPending(ev, c, p, p);
    } else {
      PlainCut(ev, p, |ev|, c);
    }
  }

  lemma {:induction false} PlainCut(ev: Footprint, p: nat, n: nat, c: nat)
    requires p < n <= |ev| && !ev[p].ty.IfStmt? && forall i: nat :: i < |ev| && ev[i].ty.IfStmt? ==> Counts(ev, i)
    ensures CutBeforeRelease(ev, p, n, c) <==> IfBeforeRelease(ev, p, n, c)
  {
    if n > p + 1 {
      PlainCut(ev, p, n - 1, c);
      FateOneLater(ev, p, n, c);
    }
  }

  // ----- the depth recorded for a segment -----

  lemma {:induction false} ClosedSegmentKeeps(ev: Footprint, n: nat, m: nat, k: nat)
    requires n <= m <= |ev| && k < |Fields(ev, n)| && Fields(ev, n)[k].end.At?
    ensures k < |Fields(ev, m)|
    ensures var f, g := Fields(ev, n)[k], Fields(ev, m)[k];
            g.lockVa == f.lockVa && g.start == f.start && g.end == f.end && g.branchDepth == f.branchDepth
    decreases m
  {
    if n < m {
      ClosedSegmentKeeps(ev, n, m - 1, k);
      FateInOneStep(ev, m - 1, k);
      ClosedSegmentStays(ev, m - 1, k);
    }
  }

  /** The segment k of c was cut by the if at i. */
  ghost predicate CutAt(ev: Footprint, fs: seq<LpField>, k: nat, c: nat, i: nat)
    requires i < |ev|
  {
    && k < |fs| && fs[k].lockVa == c && fs[k].start <= i && fs[k].end == At(NextThen(ev, i))
    && fs[k].branchDepth == Increment(Depth(ev, i))
  }

  lemma {:induction false} OpenTail(ev: Footprint, i: nat, c: nat, p: nat) returns (k: nat)
    requires p < |ev| && FirstPending(ev, i, c, p)
    ensures IsTail(Fields(ev, i), k, c) && Fields(ev, i)[k].end.Unbounded? && Fields(ev, i)[k].start <= i
  {
    ArrayFollowsMachine(ev, i);
    var fs := Fields(ev, i);
    assert HasTail(fs, c);
    k :| IsTail(fs, k, c);
    if i <= fs[k].start {
      assert PendingFor(ev, i, fs[k].start, c);
      var x :| 0 <= x < i && ev[x].ty.IfStmt? && NextThen(ev, x) == fs[k].start && OpenAt(ev, x, c);
      NextThenSame(ev, x, i);
    }
  }

  lemma {:induction false} FirstPendingCuts(ev: Footprint, i: nat, c: nat, p: nat) returns (k: nat)
    requires p < |ev| && FirstPending(ev, i, c, p)
    ensures CutAt(ev, Fields(ev, p + 1), k, c, i)
  {
    k := OpenTail(ev, i, c, p);
    IfCuts(ev, i, k);
    ClosedSegmentKeeps(ev, i + 1, p + 1, k);
  }

  lemma {:induction false} IfCuts(ev: Footprint, i: nat, k: nat)
    requires i < |ev| && ev[i].ty.IfStmt? && k < |Fields(ev, i)| && Fields(ev, i)[k].end.Unbounded?
    requires Fields(ev, i)[k].start <= i
    ensures CutAt(ev, Fields(ev, i + 1), k, Fields(ev, i)[k].lockVa, i)
  {
    ExtendUpToFacts(Fields(ev, i), ExtensionAt(ev, i), |Fields(ev, i)|);
  }

  /** Right after p, an active segment is either still open and then belongs to no pending if, or
      it reaches up to the then-block of one. */
  lemma {:induction false} OpenOrPending(ev: Footprint, p: nat, fs: seq<LpField>, k: nat)
    requires EveryIfHasThen(ev) && p < |ev| && !ev[p].ty.ThenBlock? && !ev[p].ty.IfStmt? && k in Active(fs, p)
    requires LateBoundsArePending(ev, p + 1, fs) && PendingIfsAreBridged(ev, p + 1, fs) && Apart(fs)
    ensures fs[k].end.Unbounded? ==> !HeldAtPendingIf(ev, fs[k].lockVa, p)
    ensures fs[k].end.At? ==> HeldAtPendingIf(ev, fs[k].lockVa, p) && CutByIf(ev, fs[k])
  {
    var f := fs[k];
    if f.end.Unbounded? {
      if HeldAtPendingIf(ev, f.lockVa, p) {
        BridgeIsTheOneReported(ev, p, f.lockVa, fs, k);
      }
    } else {
      assert PendingFor(ev, p + 1, f.end.idx, f.lockVa);
    }
  }

  /** A segment that is reported at p records a depth if and only if its lock meets an if. */
  lemma {:induction false} ActiveCutMeetsIf(ev: Footprint, p: nat, k: nat)
    requires Structured(ev) && p < |ev| && !ev[p].ty.ThenBlock? && !ev[p].ty.IfStmt? && k in Active(Index(ev), p)
    ensures Index(ev)[k].branchDepth != 0 <==> MeetsIf(ev, p, Index(ev)[k].lockVa)
  {
    AnswersAreFinal(ev, p, |ev|);
    ActiveIsShown(ev, p, k);
    OpenOrPendingThen(ev, p, k);
    if Fields(ev, p + 1)[k].end.Unbounded? {
      FateOfOpenSegment(ev, p, |ev|, k);
    } else {
      PendingCutMeetsIf(ev, p, k);
      ClosedSegmentKeeps(ev, p + 1, |ev|, k);
    }
  }

  lemma {:induction false} OpenOrPendingThen(ev: Footprint, p: nat, k: nat)
    requires Structured(ev) && p < |ev| && !ev[p].ty.ThenBlock? && !ev[p].ty.IfStmt?
    requires k in Active(Fields(ev, p + 1), p)
    ensures Fields(ev, p + 1)[k].end.Unbounded? <==> !HeldAtPendingIf(ev, Fields(ev, p + 1)[k].lockVa, p)
  {
    hide Fields, HeldAtPendingIf, Apart, Linked;
    ArrayFollowsMachine(ev, p + 1);
    SegmentsAreApart(ev, p + 1);
    OpenOrPending(ev, p, Fields(ev, p + 1), k);
  }

  lemma {:induction false} PendingCutMeetsIf(ev: Footprint, p: nat, k: nat)
    requires Structured(ev) && p < |ev| && !ev[p].ty.ThenBlock? && !ev[p].ty.IfStmt?
    requires k in Active(Fields(ev, p + 1), p) && HeldAtPendingIf(ev, Fields(ev, p + 1)[k].lockVa, p)
    ensures Fields(ev, p + 1)[k].branchDepth != 0 <==> MeetsIf(ev, p, Fields(ev, p + 1)[k].lockVa)
  {
    var fs := Fields(ev, p + 1);
    var c := fs[k].lockVa;
    SegmentsAreApart(ev, p + 1);
    var first := SomeFirstPending(ev, c, p, p);
    var cut := FirstPendingCuts(ev, first, c, p);
    assert cut in Active(fs, p) && cut == k;
    assert forall i: nat :: FirstPending(ev, i, c, p) ==> i == first;
  }

  lemma {:induction false} BridgeIsTheOneReported(ev: Footprint, p: nat, c: nat, fs: seq<LpField>, k: nat)
    requires p < |ev| && !ev[p].ty.ThenBlock? && HeldAtPendingIf(ev, c, p)
    requires PendingIfsAreBridged(ev, p + 1, fs) && Apart(fs) && k in Active(fs, p) && fs[k].lockVa == c
    ensures fs[k].end.At?
  {
    var i :| 0 <= i < p && ev[i].ty.IfStmt? && p < NextThen(ev, i) && OpenAt(ev, i, c);
    assert Bridges(fs, c, i, NextThen(ev, i));
    BridgeIsTheActive(fs, p, c, i, NextThen(ev, i), k);
  }

  lemma {:induction false} BridgeIsTheActive(fs: seq<LpField>, p: nat, c: nat, i: nat, e: nat, k: nat)
    requires Apart(fs) && Bridges(fs, c, i, e) && i < p < e && k in Active(fs, p) && fs[k].lockVa == c
    ensures fs[k].end == At(e)
  {
    var j :| 0 <= j < |fs| && fs[j].lockVa == c && fs[j].start <= i && fs[j].end == At(e);
  }

  ghost predicate SomeMeetsIf(ev: Footprint, p: nat)
    requires p < |ev|
  {
    exists c: nat :: MeetsIf(ev, p, c)
  }

  /** Some reported segment records a depth if and only if a lock that is shown meets an if. */
  lemma {:induction false} CutExactly(ev: Footprint, p: nat)
    requires Structured(ev) && p < |ev| && !ev[p].ty.ThenBlock? && !ev[p].ty.IfStmt?
    ensures SomeCut(Index(ev), Active(Index(ev), p)) <==> SomeMeetsIf(ev, p)
  {
    var fs := Index(ev);
    if SomeCut(fs, Active(fs, p)) {
      var k :| k in Active(fs, p) && k < |fs| && fs[k].branchDepth != 0;
      ActiveCutMeetsIf(ev, p, k);
    }
    forall c: nat | MeetsIf(ev, p, c)
      ensures SomeCut(fs, Active(fs, p))
    {
      var k := ShownIsActive(ev, p, c);
      ActiveCutMeetsIf(ev, p, k);
    }
  }

  // ----- the verdict, on any footprint -----

  /** A chain with this hash is shown at p, and neither it nor one acquired earlier meets an if. */
  ghost predicate Matched(ev: Footprint, p: nat, hash: uint32)
    requires p < |ev|
  {
    exists d: nat :: d < |ev| && Shown(ev, p, d) && Hash(ev[d].usr) == hash && NoneMeetsUpTo(ev, p, d)
  }

  ghost predicate NoneMeetsUpTo(ev: Footprint, p: nat, d: nat)
    requires p < |ev|
  {
    forall e: nat :: e <= d ==> !MeetsIf(ev, p, e)
  }

  ghost predicate AllMatched(a: Footprint, b: Footprint, i: nat, j: nat)
    requires i < |a| && j < |b|
  {
    forall h :: h in ShownHashes(a, i) ==> Matched(b, j, h)
  }

  lemma {:induction false} NoCutMeansNoIf(ev: Footprint, p: nat, k: nat)
    requires Structured(ev) && p < |ev| && !ev[p].ty.ThenBlock? && !ev[p].ty.IfStmt? && k in Active(Index(ev), p)
    ensures NoCutUpTo(Index(ev), Active(Index(ev), p), k) <==> NoneMeetsUpTo(ev, p, Index(ev)[k].lockVa)
  {
    var fs, active := Index(ev), Active(Index(ev), p);
    if NoCutUpTo(fs, active, k) {
      forall e: nat | e <= fs[k].lockVa
        ensures !MeetsIf(ev, p, e)
      {
        if MeetsIf(ev, p, e) {
          var m := ShownIsActive(ev, p, e);
          if e == fs[k].lockVa {
            ReportedOnce(ev, p, m, k);
          }
          assert m == k || ReportedBefore(fs, m, k);
          ActiveCutMeetsIf(ev, p, m);
        }
      }
    }
    if NoneMeetsUpTo(ev, p, fs[k].lockVa) {
      forall m | m in active && (m == k || ReportedBefore(fs, m, k)) && m < |fs|
        ensures fs[m].branchDepth == 0
      {
        ActiveCutMeetsIf(ev, p, m);
      }
    }
  }

  lemma {:induction false} MatchedBeforeCut(ev: Footprint, p: nat, hash: uint32)
    requires Structured(ev) && p < |ev| && !ev[p].ty.ThenBlock? && !ev[p].ty.IfStmt?
    ensures HasHashBeforeCut(Index(ev), Active(Index(ev), p), hash) <==> Matched(ev, p, hash)
  {
    var fs, active := Index(ev), Active(Index(ev), p);
    if HasHashBeforeCut(fs, active, hash) {
      var k :| k in active && k < |fs| && fs[k].lockObjHash == hash && NoCutUpTo(fs, active, k);
      ActiveIsShown(ev, p, k);
      NoCutMeansNoIf(ev, p, k);
    }
    if Matched(ev, p, hash) {
      var d: nat :| d < |ev| && Shown(ev, p, d) && Hash(ev[d].usr) == hash && NoneMeetsUpTo(ev, p, d);
      var k := ShownIsActive(ev, p, d);
      NoCutMeansNoIf(ev, p, k);
    }
  }

  /** What the verdict comes to: Unprotected if different numbers of chains are shown; otherwise
      Protected if every hash shown in the first function is matched in the second; otherwise Uncertain
      if some lock meets an if in the second function, and Unprotected if none does. */
  ghost function VerdictFor(a: Footprint, b: Footprint, i: nat, j: nat): SharedProtectionQuality
    requires i < |a| && j < |b|
  {
    if |ShownChains(a, i)| != |ShownChains(b, j)| then Unprotected
    else if AllMatched(a, b, i, j) then Protected
    else if SomeMeetsIf(b, j) then Uncertain
    else Unprotected
  }

  lemma {:induction false} VerdictInGeneral(a: Footprint, b: Footprint, i: nat, j: nat, q: SharedProtectionQuality)
    requires NoElseInCondition(a) && i < |a| && !a[i].ty.ThenBlock?
    requires Structured(b) && j < |b| && !b[j].ty.ThenBlock? && !b[j].ty.IfStmt?
    requires Judged(Index(a), Index(b), i, j, q)
    ensures q == VerdictFor(a, b, i, j)
  {
    var fa, fb, activeA, activeB := Index(a), Index(b), Active(Index(a), i), Active(Index(b), j);
    ActiveAreTheShown(a, i);
    ActiveAreTheShown(b, j);
    ActiveCarryTheHashes(a, i);
    CutExactly(b, j);
    forall h
      ensures HasHashBeforeCut(fb, activeB, h) <==> Matched(b, j, h)
    {
      MatchedBeforeCut(b, j, h);
    }
    assert AllMatched(a, b, i, j) <==>
      forall k :: k in activeA ==> HasHashBeforeCut(fb, activeB, fa[k].lockObjHash) by {
      forall k | k in activeA
        ensures fa[k].lockObjHash in ShownHashes(a, i)
      {
        assert fa[k].lockObjHash in HashesOf(fa, activeA);
      }
      forall h | h in ShownHashes(a, i)
        ensures exists k :: k in activeA && fa[k].lockObjHash == h
      {
        assert h in HashesOf(fa, activeA);
      }
    }
    if !SomeCut(fb, activeB) {
      UncutHashes(fa, fb, activeA, activeB);
    }
  }

  /** The order of the two functions matters unless different numbers of chains are shown, or each
      function's hashes are matched in the other, or both orders leave some hash unmatched and locks
      meet ifs in both functions or in neither. */
  lemma {:induction false} OrdersAgreeExactly(a: Footprint, b: Footprint, i: nat, j: nat,
      q: SharedProtectionQuality, r: SharedProtectionQuality)
    requires Structured(a) && i < |a| && !a[i].ty.ThenBlock? && !a[i].ty.IfStmt?
    requires Structured(b) && j < |b| && !b[j].ty.ThenBlock? && !b[j].ty.IfStmt?
    requires Judged(Index(a), Index(b), i, j, q) && Judged(Index(b), Index(a), j, i, r)
    ensures q == r <==>
      || |ShownChains(a, i)| != |ShownChains(b, j)|
      || (AllMatched(a, b, i, j) && AllMatched(b, a, j, i))
      || (!AllMatched(a, b, i, j) && !AllMatched(b, a, j, i) && (SomeMeetsIf(a, i) <==> SomeMeetsIf(b, j)))
  {
    VerdictInGeneral(a, b, i, j, q);
    VerdictInGeneral(b, a, j, i, r);
  }

  // ----- the verdict, where every hash is shown once -----

  /** No two chains shown at p carry the same hash. */
  ghost predicate OneChainPerHash(ev: Footprint, p: nat)
    requires p < |ev|
  {
    Injective(ev, ShownChains(ev, p))
  }

  ghost predicate Injective(ev: Footprint, s: set<nat>) {
    forall c, d :: c in s && d in s && c < |ev| && d < |ev| && Hash(ev[c].usr) == Hash(ev[d].usr) ==> c == d
  }

  ghost function HashesAt(ev: Footprint, s: set<nat>): set<uint32> {
    set c | c in s && c < |ev| :: Hash(ev[c].usr)
  }

  lemma {:induction false} InjectiveExactly(ev: Footprint, s: set<nat>)
    requires forall c :: c in s ==> c < |ev|
    ensures |HashesAt(ev, s)| <= |s|
    ensures |HashesAt(ev, s)| == |s| <==> Injective(ev, s)
    decreases s
  {
    if s != {} {
      var c :| c in s;
      var t, h := s - {c}, Hash(ev[c].usr);
      InjectiveExactly(ev, t);
      assert HashesAt(ev, s) == HashesAt(ev, t) + {h};
      if h in HashesAt(ev, t) {
        var d :| d in t && d < |ev| && Hash(ev[d].usr) == h;
        assert HashesAt(ev, s) == HashesAt(ev, t);
      } else {
        assert Injective(ev, s) <==> Injective(ev, t) by {
          assert forall d :: d in t ==> Hash(ev[d].usr) != h;
        }
      }
    }
  }

  /** As many hashes as chains are shown if and only if no hash is shown twice. */
  lemma {:induction false} HashesCountChains(ev: Footprint, p: nat)
    requires p < |ev|
    ensures |ShownHashes(ev, p)| <= |ShownChains(ev, p)|
    ensures |ShownHashes(ev, p)| == |ShownChains(ev, p)| <==> OneChainPerHash(ev, p)
  {
    InjectiveExactly(ev, ShownChains(ev, p));
    assert HashesAt(ev, ShownChains(ev, p)) == ShownHashes(ev, p);
  }

  lemma {:induction false} MatchedMeetsNoIf(ev: Footprint, p: nat, e: nat)
    requires p < |ev| && e < |ev| && OneChainPerHash(ev, p) && Shown(ev, p, e) && Matched(ev, p, Hash(ev[e].usr))
    ensures !MeetsIf(ev, p, e)
  {
    var d: nat :|
      d < |ev| && Shown(ev, p, d) && Hash(ev[d].usr) == Hash(ev[e].usr) && NoneMeetsUpTo(ev, p, d);
    assert d in ShownChains(ev, p) && e in ShownChains(ev, p);
  }

  /** If all hashes are matched, and both functions show as many, they show the same and no lock of the
      second meets an if. */
  lemma {:induction false} AllMatchedExactly(a: Footprint, b: Footprint, i: nat, j: nat)
    requires i < |a| && j < |b| && OneChainPerHash(b, j) && |ShownHashes(a, i)| == |ShownHashes(b, j)|
    ensures AllMatched(a, b, i, j) <==> ShownHashes(a, i) == ShownHashes(b, j) && !SomeMeetsIf(b, j)
  {
    if AllMatched(a, b, i, j) {
      forall h | h in ShownHashes(a, i)
        ensures h in ShownHashes(b, j)
      {
        assert Matched(b, j, h);
      }
      SubsetIsNoLarger(ShownHashes(a, i), ShownHashes(b, j));
      assert forall e: nat :: MeetsIf(b, j, e) ==> e < |b| && Shown(b, j, e);
      forall e: nat | e < |b| && Shown(b, j, e)
        ensures !MeetsIf(b, j, e)
      {
        assert Hash(b[e].usr) in ShownHashes(b, j);
        MatchedMeetsNoIf(b, j, e);
      }
    }
  }

  /** All three verdicts, where every hash is shown once: Protected means the same hashes, and no lock
      that meets an if in the second function; Uncertain means equally many, and such a lock;
      Unprotected means anything else. */
  lemma {:induction false} VerdictBySets(a: Footprint, b: Footprint, i: nat, j: nat, q: SharedProtectionQuality)
    requires NoElseInCondition(a) && i < |a| && !a[i].ty.ThenBlock? && OneChainPerHash(a, i)
    requires Structured(b) && j < |b| && !b[j].ty.ThenBlock? && !b[j].ty.IfStmt? && OneChainPerHash(b, j)
    requires Judged(Index(a), Index(b), i, j, q)
    ensures q.Protected? <==> ShownHashes(a, i) == ShownHashes(b, j) && !SomeMeetsIf(b, j)
    ensures q.Uncertain? <==> |ShownHashes(a, i)| == |ShownHashes(b, j)| && SomeMeetsIf(b, j)
  {
    VerdictInGeneral(a, b, i, j, q);
    HashesCountChains(a, i);
    HashesCountChains(b, j);
    if |ShownHashes(a, i)| == |ShownHashes(b, j)| {
      AllMatchedExactly(a, b, i, j);
    }
    if !SomeMeetsIf(b, j) && |ShownHashes(a, i)| == |ShownHashes(b, j)| {
      assert q == VerdictFor(a, b, i, j);
    }
  }

  // ----- the verdict, without an else, without releases in conditions, without re-acquisition -----

  ghost predicate ElseFree(ev: Footprint) {
    forall i :: 0 <= i < |ev| ==> !ev[i].ty.ElseStmt?
  }

  ghost predicate IfFree(ev: Footprint) {
    forall i :: 0 <= i < |ev| ==> !ev[i].ty.IfStmt?
  }

  /** No lock is acquired while a lock with its hash is held. */
  ghost predicate NeverReacquires(ev: Footprint) {
    forall i, c: nat :: 0 <= i < |ev| && ev[i].ty.LockAcquire? && OpenAt(ev, i, c) ==>
        Hash(ev[c].usr) != Hash(ev[i].usr)
  }

  /** Footprints without an else, without a release inside a condition, and without re-acquisition. */
  ghost predicate Plain(ev: Footprint) {
    ElseFree(ev) && CleanConditions(ev) && NeverReacquires(ev)
  }

  lemma {:induction false} OpenThenWasOpen(ev: Footprint, p: nat, d: nat, c: nat)
    requires ElseFree(ev) && c < d <= p <= |ev| && OpenAt(ev, p, c)
    ensures OpenAt(ev, d, c)
  {
    OpenInClosedForm(ev, p, c);
    OpenInClosedForm(ev, d, c);
  }

  lemma {:induction false} HeldLocksDiffer(ev: Footprint, p: nat, c: nat, d: nat)
    requires Plain(ev) && p < |ev| && HeldAt(ev, p, c) && HeldAt(ev, p, d) && c != d
    ensures Hash(ev[c].usr) != Hash(ev[d].usr)
  {
    if c < d {
      OpenThenWasOpen(ev, p, d, c);
    } else {
      OpenThenWasOpen(ev, p, c, d);
    }
  }

  /** In such footprints the chains shown are those of the held locks, one for each hash. */
  lemma {:induction false} PlainShowsTheHeld(ev: Footprint, p: nat)
    requires Plain(ev) && p < |ev| && !ev[p].ty.ThenBlock?
    ensures ShownHashes(ev, p) == HeldHashes(ev, p) && OneChainPerHash(ev, p)
    ensures |ShownChains(ev, p)| == |HeldHashes(ev, p)|
  {
    forall c: nat
      ensures Shown(ev, p, c) <==> HeldAt(ev, p, c)
    {
      CleanRangesAreTheMachine(ev, p, c);
      RangesRefineMachine(ev, p, c);
    }
    forall c, d | c in ShownChains(ev, p) && d in ShownChains(ev, p) && c != d
      ensures Hash(ev[c].usr) != Hash(ev[d].usr)
    {
      HeldLocksDiffer(ev, p, c, d);
    }
    HashesCountChains(ev, p);
  }

  /** The active segments are as many as the held locks and carry exactly their hashes. */
  lemma {:induction false} ActiveAreTheHeld(ev: Footprint, p: nat)
    requires Plain(ev) && p < |ev| && !ev[p].ty.ThenBlock?
    ensures HashesOf(Index(ev), Active(Index(ev), p)) == HeldHashes(ev, p)
    ensures |Active(Index(ev), p)| == |HeldHashes(ev, p)|
  {
    PlainShowsTheHeld(ev, p);
    ActiveAreTheShown(ev, p);
    ActiveCarryTheHashes(ev, p);
  }

  /** Every verdict but Uncertain is right: Protected means that the two accesses are made under the
      same locks, Unprotected that they are not. And Uncertain needs a cut segment at j. */
  lemma {:induction false} VerdictIsRight(a: Footprint, b: Footprint, i: nat, j: nat, q: SharedProtectionQuality)
    requires Plain(a) && i < |a| && !a[i].ty.ThenBlock?
    requires Plain(b) && j < |b| && !b[j].ty.ThenBlock?
    requires Judged(Index(a), Index(b), i, j, q)
    ensures q.Protected? ==> HeldHashes(a, i) == HeldHashes(b, j)
    ensures q.Unprotected? ==> HeldHashes(a, i) != HeldHashes(b, j)
    ensures q.Uncertain? ==> SomeCut(Index(b), Active(Index(b), j))
  {
    ActiveAreTheHeld(a, i);
    ActiveAreTheHeld(b, j);
    var fa, fb, activeA, activeB := Index(a), Index(b), Active(Index(a), i), Active(Index(b), j);
    if q.Protected? {
      forall h | h in HashesOf(fa, activeA)
        ensures h in HashesOf(fb, activeB)
      {
        var k :| k in activeA && fa[k].lockObjHash == h;
        assert HasHashBeforeCut(fb, activeB, h);
      }
      SubsetIsNoLarger(HeldHashes(a, i), HeldHashes(b, j));
    } else if q.Unprotected? && |activeA| == |activeB| {
      var k :| k in activeA && !HasHash(fb, activeB, fa[k].lockObjHash);
      assert fa[k].lockObjHash in HashesOf(fa, activeA);
      assert fa[k].lockObjHash !in HashesOf(fb, activeB);
    } else if q.Uncertain? && !SomeCut(fb, activeB) {
      UncutHashes(fa, fb, activeA, activeB);
    }
  }

  /** All three verdicts: Protected means the same locks, none of which meets an if in the second
      function; Uncertain means equally many locks, one of which meets an if in the second function;
      Unprotected means anything else. */
  lemma {:induction false} VerdictExactly(a: Footprint, b: Footprint, i: nat, j: nat, q: SharedProtectionQuality)
    requires Plain(a) && i < |a| && !a[i].ty.ThenBlock?
    requires Plain(b) && EveryIfHasThen(b)
    requires j < |b| && !b[j].ty.ThenBlock? && !b[j].ty.IfStmt?
    requires Judged(Index(a), Index(b), i, j, q)
    ensures q.Protected? <==> HeldHashes(a, i) == HeldHashes(b, j) && !SomeMeetsIf(b, j)
    ensures q.Uncertain? <==> |HeldHashes(a, i)| == |HeldHashes(b, j)| && SomeMeetsIf(b, j)
  {
    PlainShowsTheHeld(a, i);
    PlainShowsTheHeld(b, j);
    VerdictBySets(a, b, i, j, q);
  }

  /** The order of the two functions matters exactly when they hold equally many locks, and in one of
      them but not in the other a held lock meets an if. */
  lemma {:induction false} HeldOrdersAgreeExactly(a: Footprint, b: Footprint, i: nat, j: nat,
      q: SharedProtectionQuality, r: SharedProtectionQuality)
    requires Plain(a) && EveryIfHasThen(a)
    requires Plain(b) && EveryIfHasThen(b)
    requires i < |a| && !a[i].ty.ThenBlock? && !a[i].ty.IfStmt?
    requires j < |b| && !b[j].ty.ThenBlock? && !b[j].ty.IfStmt?
    requires Judged(Index(a), Index(b), i, j, q) && Judged(Index(b), Index(a), j, i, r)
    ensures q == r <==>
      |HeldHashes(a, i)| != |HeldHashes(b, j)| || (SomeMeetsIf(a, i) <==> SomeMeetsIf(b, j))
  {
    VerdictExactly(a, b, i, j, q);
    VerdictExactly(b, a, j, i, r);
  }

  // ----- footprints without branches -----

  lemma {:induction false} NothingCutWithoutIfs(ev: Footprint, n: nat)
    requires IfFree(ev) && n <= |ev|
    ensures forall k :: 0 <= k < |Fields(ev, n)| ==> Fields(ev, n)[k].branchDepth == 0
  {
    if n > 0 {
      NothingCutWithoutIfs(ev, n - 1);
      if ev[n - 1].ty.ElseStmt? {
        var fs, x := Fields(ev, n - 1), ExtensionAt(ev, n - 1);
        var r := Extend(fs, x);
        ExtendUpToFacts(fs, x, |fs|);
        forall k | |fs| <= k < |r|
          ensures r[k].branchDepth == 0
        {
          assert HasSource(fs, x, r, k);
        }
      }
    }
  }

  /** Without branches the verdict decides whether the two accesses are made under the same locks. */
  lemma {:induction false} BranchFreeVerdict(a: Footprint, b: Footprint, i: nat, j: nat, q: SharedProtectionQuality)
    requires Plain(a) && Plain(b) && IfFree(b) && i < |a| && j < |b| && !a[i].ty.ThenBlock? && !b[j].ty.ThenBlock?
    requires Judged(Index(a), Index(b), i, j, q)
    ensures q == if HeldHashes(a, i) == HeldHashes(b, j) then Protected else Unprotected
  {
    VerdictIsRight(a, b, i, j, q);
    NothingCutWithoutIfs(b, |b|);
  }

  /** Without branches it does not matter which function comes first. */
  lemma {:induction false} BranchFreeVerdictIsSymmetric(a: Footprint, b: Footprint, i: nat, j: nat,
      q: SharedProtectionQuality, r: SharedProtectionQuality)
    requires Plain(a) && Plain(b) && IfFree(a) && IfFree(b) && i < |a| && j < |b|
    requires !a[i].ty.ThenBlock? && !b[j].ty.ThenBlock?
    requires Judged(Index(a), Index(b), i, j, q) && Judged(Index(b), Index(a), j, i, r)
    ensures q == r
  {
    BranchFreeVerdict(a, b, i, j, q);
    BranchFreeVerdict(b, a, j, i, r);
  }

  ghost function HeldUsrs(ev: Footprint, p: nat): set<CString>
    requires p < |ev|
  {
    set c: nat | c < |ev| && HeldAt(ev, p, c) :: ev[c].usr
  }

  /** Where no two lock USRs collide, equal hash sets are equal lock sets. */
  lemma {:induction false} HashesStandForUsrs(a: Footprint, b: Footprint, i: nat, j: nat)
    requires i < |a| && j < |b|
    requires var all := HeldUsrs(a, i) + HeldUsrs(b, j);
             forall u, v :: u in all && v in all && Hash(u) == Hash(v) ==> u == v
    ensures HeldHashes(a, i) == HeldHashes(b, j) <==> HeldUsrs(a, i) == HeldUsrs(b, j)
  {
    if HeldHashes(a, i) == HeldHashes(b, j) {
      SameHashesSameUsrs(a, b, i, j);
      SameHashesSameUsrs(b, a, j, i);
    } else if HeldUsrs(a, i) == HeldUsrs(b, j) {
      SameUsrsSameHashes(a, b, i, j);
      SameUsrsSameHashes(b, a, j, i);
    }
  }

  lemma {:induction false} SameHashesSameUsrs(a: Footprint, b: Footprint, i: nat, j: nat)
    requires i < |a| && j < |b| && HeldHashes(a, i) <= HeldHashes(b, j)
    requires forall u, v :: u in HeldUsrs(a, i) && v in HeldUsrs(b, j) && Hash(u) == Hash(v) ==> u == v
    ensures HeldUsrs(a, i) <= HeldUsrs(b, j)
  {
    forall u | u in HeldUsrs(a, i)
      ensures u in HeldUsrs(b, j)
    {
      assert Hash(u) in HeldHashes(a, i);
      var c: nat :| c < |b| && HeldAt(b, j, c) && Hash(b[c].usr) == Hash(u);
      assert b[c].usr in HeldUsrs(b, j);
    }
  }

  lemma {:induction false} SameUsrsSameHashes(a: Footprint, b: Footprint, i: nat, j: nat)
    requires i < |a| && j < |b| && HeldUsrs(a, i) <= HeldUsrs(b, j)
    ensures HeldHashes(a, i) <= HeldHashes(b, j)
  {
    forall h | h in HeldHashes(a, i)
      ensures h in HeldHashes(b, j)
    {
      var c: nat :| c < |a| && HeldAt(a, i, c) && Hash(a[c].usr) == h;
      assert a[c].usr in HeldUsrs(b, j);
    }
  }
}
