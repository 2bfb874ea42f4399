/** What the protection ranges promise about executions: every way of taking or skipping the
    branches that a footprint records. */
module Executions {
  import opened VarAccesses
  import opened LockRanges
  import opened RangeQueries
  import opened Sequences
  import opened Verdict

  datatype Arm = InCondition | InThen | InElse

  datatype Frame = Frame(ifIdx: nat, arm: Arm)

  /** Entry n changes the ifs around it. */
  function Advance(s: seq<Frame>, n: nat, ty: AccessType): (t: seq<Frame>) {
    match ty
    case IfStmt => s + [Frame(n, InCondition)]
    case ThenBlock => if s == [] then s else s[|s| - 1 := s[|s| - 1].(arm := InThen)]
    case ElseStmt => if s == [] then s else s[|s| - 1 := s[|s| - 1].(arm := InElse)]
    case EndIf => if s == [] then s else s[..|s| - 1]
    case _ => s
  }

  /** The ifs around entry i, outermost first. */
  function Frames(ev: Footprint, i: nat): seq<Frame>
    requires i <= |ev|
  {
    if i == 0 then [] else Advance(Frames(ev, i - 1), i - 1, ev[i - 1].ty)
  }

  /** An execution is the set of ifs whose condition comes out true; it reaches what lies in the
      branches it takes. */
  ghost predicate Reaches(s: seq<Frame>, taken: set<nat>) {
    forall f :: f in s ==> (f.arm.InThen? ==> f.ifIdx in taken) && (f.arm.InElse? ==> f.ifIdx !in taken)
  }

  ghost predicate Executed(ev: Footprint, i: nat, taken: set<nat>)
    requires i <= |ev|
  {
    Reaches(Frames(ev, i), taken)
  }

  /** On every execution that reaches p, the lock acquired at c has been acquired and, up to and
      including p, not been released since. */
  ghost predicate MustHold(ev: Footprint, p: nat, c: nat)
    requires p < |ev|
  {
    && c < p
    && IsAcquire(ev, c)
    && forall taken: set<nat> :: Executed(ev, p, taken) ==>
         && Executed(ev, c, taken)
         && forall r :: c < r <= p && ReleaseOf(ev, r, c) ==> !Executed(ev, r, taken)
  }

  /** Every branch in s is also in t. */
  ghost predicate Encloses(s: seq<Frame>, t: seq<Frame>) {
    forall f :: f in s && !f.arm.InCondition? ==> f in t
  }

  ghost predicate BranchesEnclose(ev: Footprint, c: nat, p: nat)
    requires c <= |ev| && p <= |ev|
  {
    Encloses(Frames(ev, c), Frames(ev, p))
  }

  ghost predicate OppositeAt(s: seq<Frame>, t: seq<Frame>, i: nat) {
    || (Frame(i, InThen) in s && Frame(i, InElse) in t)
    || (Frame(i, InElse) in s && Frame(i, InThen) in t)
  }

  /** The two lie in opposite branches of some if. */
  ghost predicate Opposite(s: seq<Frame>, t: seq<Frame>) {
    exists i: nat :: OppositeAt(s, t, i)
  }

  ghost predicate Opposed(ev: Footprint, r: nat, p: nat)
    requires r <= |ev| && p <= |ev|
  {
    Opposite(Frames(ev, r), Frames(ev, p))
  }

  // ----- frames -----

  ghost predicate Consistent(s: seq<Frame>) {
    forall f, g :: f in s && g in s && f.ifIdx == g.ifIdx ==> f == g
  }

  ghost function Thens(s: seq<Frame>): set<nat> {
    set f | f in s && f.arm.InThen? :: f.ifIdx
  }

  ghost function Elses(s: seq<Frame>): set<nat> {
    set f | f in s && f.arm.InElse? :: f.ifIdx
  }

  /** One frame for each if, from before entry n. */
  ghost predicate OneFramePerIf(s: seq<Frame>, n: nat) {
    && (forall j :: 0 <= j < |s| ==> s[j].ifIdx < n)
    && (forall j, k :: 0 <= j < k < |s| ==> s[j].ifIdx != s[k].ifIdx)
  }

  lemma {:induction false} AdvanceKeepsFrames(s: seq<Frame>, n: nat, ty: AccessType)
    requires OneFramePerIf(s, n)
    ensures OneFramePerIf(Advance(s, n, ty), n + 1)
  {
  }

  lemma {:induction false} FramesPerIf(ev: Footprint, i: nat)
    requires i <= |ev|
    ensures OneFramePerIf(Frames(ev, i), i)
  {
    if i > 0 {
      FramesPerIf(ev, i - 1);
      AdvanceKeepsFrames(Frames(ev, i - 1), i - 1, ev[i - 1].ty);
    }
  }

  lemma {:induction false} FramesAreConsistent(ev: Footprint, i: nat)
    requires i <= |ev|
    ensures Consistent(Frames(ev, i)) && forall f :: f in Frames(ev, i) ==> f.ifIdx < |ev|
  {
    FramesPerIf(ev, i);
  }

  /** What no if sets apart is reached together, when exactly the then-branches of both are taken. */
  lemma {:induction false} ReachedTogether(s: seq<Frame>, t: seq<Frame>)
    requires Consistent(s) && !Opposite(s, t)
    ensures Reaches(s, Thens(s) + Thens(t))
  {
    forall f | f in s && f.arm.InElse?
      ensures f.ifIdx !in Thens(s) + Thens(t)
    {
      assert !OppositeAt(s, t, f.ifIdx);
      forall g | (g in s || g in t) && g.arm.InThen?
        ensures g.ifIdx != f.ifIdx
      {
        assert g == Frame(g.ifIdx, InThen) && f == Frame(f.ifIdx, InElse);
      }
    }
  }

  lemma {:induction false} OppositesNeverMeet(s: seq<Frame>, t: seq<Frame>, taken: set<nat>)
    requires Opposite(s, t) && Reaches(t, taken)
    ensures !Reaches(s, taken)
  {
    var i: nat :| OppositeAt(s, t, i);
  }

  /** Taking as few, or as many, branches as t allows reaches t. */
  lemma {:induction false} ExtremesReach(t: seq<Frame>, n: nat)
    requires Consistent(t) && forall f :: f in t ==> f.ifIdx < n
    ensures Reaches(t, Thens(t)) && Reaches(t, Below(n) - Elses(t))
  {
  }

  lemma {:induction false} ReachingMeansEnclosing(s: seq<Frame>, t: seq<Frame>, n: nat)
    requires Consistent(t) && (forall f :: f in t ==> f.ifIdx < n) && (forall f :: f in s ==> f.ifIdx < n)
    requires forall taken: set<nat> :: Reaches(t, taken) ==> Reaches(s, taken)
    ensures Encloses(s, t)
  {
    ExtremesReach(t, n);
    assert Reaches(s, Thens(t)) && Reaches(s, Below(n) - Elses(t));
    forall f | f in s && !f.arm.InCondition?
      ensures f in t
    {
      if f.arm.InThen? {
        assert f.ifIdx in Thens(t);
        var g :| g in t && g.arm.InThen? && g.ifIdx == f.ifIdx;
        assert f == g;
      } else {
        assert f.ifIdx in Elses(t);
        var g :| g in t && g.arm.InElse? && g.ifIdx == f.ifIdx;
        assert f == g;
      }
    }
  }

  // ----- held on every execution -----

  lemma {:induction false} CoExecuted(ev: Footprint, r: nat, p: nat) returns (taken: set<nat>)
    requires r <= |ev| && p <= |ev| && !Opposed(ev, r, p)
    ensures Executed(ev, r, taken) && Executed(ev, p, taken)
  {
    var s, t := Frames(ev, r), Frames(ev, p);
    FramesAreConsistent(ev, r);
    FramesAreConsistent(ev, p);
    ReachedTogether(s, t);
    assert forall i: nat :: OppositeAt(t, s, i) ==> OppositeAt(s, t, i);
    ReachedTogether(t, s);
    taken := Thens(s) + Thens(t);
    assert taken == Thens(t) + Thens(s);
  }

  /** A lock is held at p on every execution if and only if every branch around its acquire is also
      around p, and every release of it up to p lies in a branch opposite to p. */
  lemma {:induction false} MustHoldExactly(ev: Footprint, p: nat, c: nat)
    requires p < |ev| && c < p && IsAcquire(ev, c)
    ensures MustHold(ev, p, c) <==>
      BranchesEnclose(ev, c, p) && forall r :: c < r <= p && ReleaseOf(ev, r, c) ==> Opposed(ev, r, p)
  {
    if MustHold(ev, p, c) {
      FramesAreConsistent(ev, c);
      FramesAreConsistent(ev, p);
      forall taken: set<nat> | Reaches(Frames(ev, p), taken)
        ensures Reaches(Frames(ev, c), taken)
      {
        assert Executed(ev, p, taken);
      }
      ReachingMeansEnclosing(Frames(ev, c), Frames(ev, p), |ev|);
      forall r | c < r <= p && ReleaseOf(ev, r, c)
        ensures Opposed(ev, r, p)
      {
        if !Opposed(ev, r, p) {
          var taken := CoExecuted(ev, r, p);
        }
      }
    }
    if BranchesEnclose(ev, c, p) && forall r :: c < r <= p && ReleaseOf(ev, r, c) ==> Opposed(ev, r, p) {
      forall taken: set<nat> | Executed(ev, p, taken)
        ensures Executed(ev, c, taken)
        ensures forall r :: c < r <= p && ReleaseOf(ev, r, c) ==> !Executed(ev, r, taken)
      {
        forall r | c < r <= p && ReleaseOf(ev, r, c)
          ensures !Executed(ev, r, taken)
        {
          OppositesNeverMeet(Frames(ev, r), Frames(ev, p), taken);
        }
      }
    }
  }

  // ----- footprints without an else -----

  lemma {:induction false} NoElseFrames(ev: Footprint, i: nat)
    requires ElseFree(ev) && i <= |ev|
    ensures forall f :: f in Frames(ev, i) ==> !f.arm.InElse?
  {
    if i > 0 {
      NoElseFrames(ev, i - 1);
    }
  }

  /** The lock acquired at c is released in the condition of an if, before p, which lies there too. */
  ghost predicate ReleasedInCondition(ev: Footprint, p: nat, c: nat) {
    exists i, r :: c < i < r <= p < |ev| && ev[i].ty.IfStmt? && p < NextThen(ev, i) && ReleaseOf(ev, r, c)
  }

  /** Without an else, a lock is held on every execution that reaches p if and only if its chain is
      reported at p, every branch around its acquire is also around p, and p does not come after a
      release of it in the condition of one if. */
  lemma {:induction false} ElseFreeRangesAreExact(ev: Footprint, p: nat, c: nat)
    requires ElseFree(ev) && p < |ev| && !ev[p].ty.ThenBlock?
    ensures MustHold(ev, p, c) <==>
      Reported(Index(ev), c, p) && c < p && BranchesEnclose(ev, c, p) && !ReleasedInCondition(ev, p, c)
  {
    ReportedInClosedForm(ev, p, c);
    if c < p && IsAcquire(ev, c) {
      MustHoldExactly(ev, p, c);
      NoElseFrames(ev, p);
      forall r | c < r <= p
        ensures !Opposed(ev, r, p)
      {
        NoElseFrames(ev, r);
      }
      if HeldAtPendingIf(ev, c, p) {
        var i :| 0 <= i < p && ev[i].ty.IfStmt? && p < NextThen(ev, i) && OpenAt(ev, i, c);
        OpenInClosedForm(ev, i, c);
        assert forall r :: c < r <= p && ReleaseOf(ev, r, c) ==> i < r;
      }
    }
  }

  /** lock; if (unlock, access) {} */
  const RELEASED_IN_CONDITION: Footprint :=
    [Entry([], LockAcquire), Entry([], IfStmt), Entry([], LockRelease), Entry([], Read), Entry([], ThenBlock),
        Entry([], EndIf)]

  /** Behind a release in a condition the lock is still reported, though no execution holds it there. */
  lemma {:induction false} ConditionHidesRelease()
    ensures ElseFree(RELEASED_IN_CONDITION) && EveryIfHasThen(RELEASED_IN_CONDITION)
    ensures Reported(Index(RELEASED_IN_CONDITION), 0, 3) && BranchesEnclose(RELEASED_IN_CONDITION, 0, 3)
    ensures !MustHold(RELEASED_IN_CONDITION, 3, 0)
  {
    var ev := RELEASED_IN_CONDITION;
    assert NextThen(ev, 3) == 4 && NextThen(ev, 2) == 4 && NextThen(ev, 1) == 4;
    assert OpenAt(ev, 1, 0);
    assert HeldAtPendingIf(ev, 0, 3);
    RangesRefineMachine(ev, 3, 0);
    assert ReleaseOf(ev, 2, 0);
    assert ReleasedInCondition(ev, 3, 0);
    ElseFreeRangesAreExact(ev, 3, 0);
    assert Frames(ev, 0) == [];
  }

  // ----- footprints with an else -----

  /** What a report means: the lock was acquired before p, and every release of it up to p is followed
      by an else at depth 1; or it was open at an if in whose condition p lies. */
  lemma {:induction false} ReportedInClosedForm(ev: Footprint, p: nat, c: nat)
    requires p < |ev| && !ev[p].ty.ThenBlock?
    ensures Reported(Index(ev), c, p) <==>
      || (c < p && IsAcquire(ev, c) && forall r :: c < r <= p && ReleaseOf(ev, r, c) ==> ReopenedBetween(ev, r, p))
      || HeldAtPendingIf(ev, c, p)
    ensures Reported(Index(ev), c, p) ==> c < p && IsAcquire(ev, c)
  {
    RangesRefineMachine(ev, p, c);
    OpenInClosedForm(ev, p, c);
    OpenInClosedForm(ev, p + 1, c);
    assert !ReopenedBetween(ev, p, p) && !ReopenedBetween(ev, p, p + 1);
    assert forall r :: ReopenedBetween(ev, r, p) ==> ReopenedBetween(ev, r, p + 1);
  }

  /** The two places where the ranges look past a release of c at r: an else at depth 1 between the
      release and p, and a condition in which both lie. */
  ghost predicate LookedPast(ev: Footprint, r: nat, c: nat, p: nat)
    requires p < |ev|
  {
    && c < r <= p && ReleaseOf(ev, r, c)
    && (ReopenedBetween(ev, r, p) || exists i :: 0 <= i < r && ev[i].ty.IfStmt? && p < NextThen(ev, i))
  }

  /** Every release between the acquire of a reported chain and p is one that the ranges look past. */
  lemma {:induction false} ReportLooksPastReleases(ev: Footprint, p: nat, c: nat)
    requires p < |ev| && !ev[p].ty.ThenBlock? && Reported(Index(ev), c, p)
    ensures forall r :: c < r <= p && ReleaseOf(ev, r, c) ==> LookedPast(ev, r, c, p)
  {
    ReportedInClosedForm(ev, p, c);
    if HeldAtPendingIf(ev, c, p) {
      var i :| 0 <= i < p && ev[i].ty.IfStmt? && p < NextThen(ev, i) && OpenAt(ev, i, c);
      OpenInClosedForm(ev, i, c);
      assert forall r :: ReopenedBetween(ev, r, i) ==> ReopenedBetween(ev, r, p);
    }
  }

  /** What is reported holds on every execution if and only if every branch around the acquire is also
      around p and every release that the ranges look past lies in a branch opposite to p; and what
      holds on every execution is reported if and only if every release up to p is followed by an else
      at depth 1, or the lock was open at an if in whose condition p lies. */
  lemma {:induction false} RangesAreRightExactly(ev: Footprint, p: nat, c: nat)
    requires p < |ev| && !ev[p].ty.ThenBlock?
    ensures Reported(Index(ev), c, p) ==>
              (MustHold(ev, p, c) <==>
               c < p && BranchesEnclose(ev, c, p) && forall r :: LookedPast(ev, r, c, p) ==> Opposed(ev, r, p))
    ensures MustHold(ev, p, c) ==>
              (Reported(Index(ev), c, p) <==>
               || (forall r :: c < r <= p && ReleaseOf(ev, r, c) ==> ReopenedBetween(ev, r, p))
               || HeldAtPendingIf(ev, c, p))
  {
    ReportedInClosedForm(ev, p, c);
    if Reported(Index(ev), c, p) {
      ReportLooksPastReleases(ev, p, c);
    }
    if c < p && IsAcquire(ev, c) {
      MustHoldExactly(ev, p, c);
    }
  }

  /** No if lies in another, and within an if the then-block comes first. */
  ghost predicate Flat(ev: Footprint) {
    && (forall i :: 0 <= i <= |ev| ==> Depth(ev, i) <= 1)
    && (forall i :: 0 <= i < |ev| && ev[i].ty.ThenBlock? ==> forall f :: f in Frames(ev, i) ==> f.arm.InCondition?)
  }

  lemma {:induction false} FlatFrames(ev: Footprint, i: nat)
    requires Flat(ev) && i <= |ev|
    ensures |Frames(ev, i)| == Depth(ev, i)
  {
    if i > 0 {
      FlatFrames(ev, i - 1);
      AdvanceLength(Frames(ev, i - 1), i - 1, ev[i - 1].ty);
      assert Depth(ev, i) <= 1 && Depth(ev, i - 1) <= 1;
    }
  }

  lemma {:induction false} AdvanceLength(s: seq<Frame>, n: nat, ty: AccessType)
    ensures |Advance(s, n, ty)| ==
            if ty.IfStmt? then |s| + 1 else if ty.EndIf? && s != [] then |s| - 1 else |s|
  {
  }

  /** If i is over, or has come to its else-branch. */
  ghost predicate PastThen(s: seq<Frame>, i: nat) {
    Frame(i, InCondition) !in s && Frame(i, InThen) !in s
  }

  lemma {:induction false} AdvancePastThen(s: seq<Frame>, n: nat, ty: AccessType, i: nat)
    requires i < n && PastThen(s, i) && (ty.ThenBlock? ==> forall f :: f in s ==> f.arm.InCondition?)
    ensures PastThen(Advance(s, n, ty), i)
  {
    if ty.ThenBlock? && s != [] {
      assert s[|s| - 1] in s;
    }
  }

  lemma {:induction false} AdvanceBeforeElse(s: seq<Frame>, n: nat, ty: AccessType, i: nat)
    requires i < n && Frame(i, InElse) !in s && (ty.ElseStmt? ==> s == [])
    ensures Frame(i, InElse) !in Advance(s, n, ty)
  {
  }

  lemma {:induction false} ElseIsLast(ev: Footprint, r: nat, p: nat, i: nat)
    requires Flat(ev) && i < r <= p <= |ev| && PastThen(Frames(ev, r), i)
    ensures PastThen(Frames(ev, p), i)
    decreases p
  {
    if r < p {
      ElseIsLast(ev, r, p - 1, i);
      AdvancePastThen(Frames(ev, p - 1), p - 1, ev[p - 1].ty, i);
    }
  }

  /** From the then-block of an if to its else-branch only through an else at depth 1. */
  lemma {:induction false} ThenToElse(ev: Footprint, r: nat, p: nat, i: nat)
    requires Flat(ev) && i < r < p <= |ev| && !ev[r].ty.ElseStmt?
    requires Frame(i, InElse) !in Frames(ev, r) && Frame(i, InElse) in Frames(ev, p)
    ensures ReopenedBetween(ev, r, p)
    decreases p
  {
    var n := p - 1;
    if n > r && Frame(i, InElse) in Frames(ev, n) {
      ThenToElse(ev, r, n, i);
    } else {
      ElseBegins(ev, n, i);
    }
  }

  lemma {:induction false} ElseBegins(ev: Footprint, n: nat, i: nat)
    requires Flat(ev) && i < n < |ev| && Frame(i, InElse) !in Frames(ev, n) && Frame(i, InElse) in Frames(ev, n + 1)
    ensures ev[n].ty.ElseStmt? && Depth(ev, n) == 1
  {
    var s := Frames(ev, n);
    assert Frames(ev, n + 1) == Advance(s, n, ev[n].ty);
    FlatFrames(ev, n);
    assert Depth(ev, n) <= 1;
    if !ev[n].ty.ElseStmt? || s == [] {
      AdvanceBeforeElse(s, n, ev[n].ty, i);
    }
  }

  lemma {:induction false} FlatOpposites(ev: Footprint, r: nat, p: nat)
    requires Flat(ev) && r <= p <= |ev| && r < |ev| && !ev[r].ty.ElseStmt? && Opposed(ev, r, p)
    ensures ReopenedBetween(ev, r, p)
  {
    var s := Frames(ev, r);
    FramesAreConsistent(ev, r);
    FramesPerIf(ev, r);
    var i: nat :| OppositeAt(s, Frames(ev, p), i);
    if Frame(i, InElse) in s {
      assert PastThen(s, i);
      ElseIsLast(ev, r, p, i);
    } else {
      ThenToElse(ev, r, p, i);
    }
  }

  /** Without nested ifs, every lock that is held on every execution is reported. */
  lemma {:induction false} FlatRangesMissNothing(ev: Footprint, p: nat, c: nat)
    requires Flat(ev) && p < |ev| && !ev[p].ty.ThenBlock? && MustHold(ev, p, c)
    ensures Reported(Index(ev), c, p)
  {
    RangesAreRightExactly(ev, p, c);
    MustHoldExactly(ev, p, c);
    forall r | c < r <= p && ReleaseOf(ev, r, c)
      ensures ReopenedBetween(ev, r, p)
    {
      FlatOpposites(ev, r, p);
    }
  }

  /** lock; unlock; if (..) {} else { access } */
  const RELEASED_BEFORE_IF: Footprint :=
    [Entry([], LockAcquire), Entry([], LockRelease), Entry([], IfStmt), Entry([], ThenBlock), Entry([], ElseStmt),
        Entry([], Read), Entry([], EndIf)]

  /** A lock released before the if is reported inside the else-branch, though no execution holds it there. */
  lemma {:induction false} ElseReopensReleasedLock()
    ensures EveryIfHasThen(RELEASED_BEFORE_IF) && CleanConditions(RELEASED_BEFORE_IF)
    ensures Reported(Index(RELEASED_BEFORE_IF), 0, 5)
    ensures forall taken: set<nat> :: Executed(RELEASED_BEFORE_IF, 1, taken)
    ensures !MustHold(RELEASED_BEFORE_IF, 5, 0)
  {
    CleanBeforeIf();
    OpenInElse();
    CleanRangesAreTheMachine(RELEASED_BEFORE_IF, 5, 0);
    ReleasedOnEveryExecution();
  }

  lemma {:induction false} CleanBeforeIf()
    ensures EveryIfHasThen(RELEASED_BEFORE_IF) && CleanConditions(RELEASED_BEFORE_IF)
  {
    var ev := RELEASED_BEFORE_IF;
    assert NextThen(ev, 3) == 3 && NextThen(ev, 2) == 3;
  }

  lemma {:induction false} OpenInElse()
    ensures OpenAt(RELEASED_BEFORE_IF, 5, 0) && OpenAt(RELEASED_BEFORE_IF, 6, 0)
  {
    var ev := RELEASED_BEFORE_IF;
    assert Depth(ev, 2) == 0 && Depth(ev, 3) == 1 && Depth(ev, 4) == 1;
  }

  lemma {:induction false} ReleasedOnEveryExecution()
    ensures Frames(RELEASED_BEFORE_IF, 1) == [] && !MustHold(RELEASED_BEFORE_IF, 5, 0)
  {
    var ev := RELEASED_BEFORE_IF;
    assert Frames(ev, 0) == [];
    assert ReleaseOf(ev, 1, 0) && !Opposed(ev, 1, 5);
    MustHoldExactly(ev, 5, 0);
  }

  /** lock; if (..) { if (..) { unlock } else { access } } */
  const RELEASED_IN_NESTED_IF: Footprint :=
    [Entry([], LockAcquire), Entry([], IfStmt), Entry([], ThenBlock), Entry([], IfStmt), Entry([], ThenBlock),
        Entry([], LockRelease),
     Entry([], ElseStmt), Entry([], Read), Entry([], EndIf), Entry([], EndIf)]

  /** A lock released in a nested then-block is not reported inside the else-branch, though every
      execution that gets there holds it. */
  lemma {:induction false} NestedElseForgetsLock()
    ensures CleanConditions(RELEASED_IN_NESTED_IF)
    ensures MustHold(RELEASED_IN_NESTED_IF, 7, 0) && !Reported(Index(RELEASED_IN_NESTED_IF), 0, 7)
  {
    var ev := RELEASED_IN_NESTED_IF;
    NestedHeld();
    NestedClean();
    NestedDepths();
    assert ReleaseOf(ev, 5, 0) && !ReopenedBetween(ev, 5, 7);
    ReportedInClosedForm(ev, 7, 0);
  }

  lemma {:induction false} NestedClean()
    ensures CleanConditions(RELEASED_IN_NESTED_IF)
  {
    var ev := RELEASED_IN_NESTED_IF;
    assert NextThen(ev, 2) == 2 && NextThen(ev, 1) == 2 && NextThen(ev, 4) == 4 && NextThen(ev, 3) == 4;
  }

  lemma {:induction false} OnlyRelease(r: nat)
    requires r < 10 && RELEASED_IN_NESTED_IF[r].ty.LockRelease?
    ensures r == 5
  {
  }

  lemma {:induction false} NestedHeld()
    ensures MustHold(RELEASED_IN_NESTED_IF, 7, 0)
  {
    var ev := RELEASED_IN_NESTED_IF;
    NestedFrames();
    assert OppositeAt(Frames(ev, 5), Frames(ev, 7), 3);
    forall r | 0 < r <= 7 && ReleaseOf(ev, r, 0)
      ensures Opposed(ev, r, 7)
    {
      OnlyRelease(r);
    }
    MustHoldExactly(ev, 7, 0);
  }

  lemma {:induction false} NestedDepths()
    ensures Depth(RELEASED_IN_NESTED_IF, 6) == 2
  {
    var ev := RELEASED_IN_NESTED_IF;
    assert Depth(ev, 1) == 0 && Depth(ev, 2) == 1 && Depth(ev, 3) == 1 && Depth(ev, 4) == 2 && Depth(ev, 5) == 2;
  }

  lemma {:induction false} NestedFrames()
    ensures var ev := RELEASED_IN_NESTED_IF;
            && Frames(ev, 0) == []
            && Frames(ev, 5) == [Frame(1, InThen), Frame(3, InThen)]
            && Frames(ev, 7) == [Frame(1, InThen), Frame(3, InElse)]
  {
    var ev := RELEASED_IN_NESTED_IF;
    FramesAdvance(ev, 0);
    FramesAdvance(ev, 1);
    assert Frames(ev, 2) == [Frame(1, InCondition)];
    FramesAdvance(ev, 2);
    assert Frames(ev, 3) == [Frame(1, InThen)];
    FramesAdvance(ev, 3);
    assert Frames(ev, 4) == [Frame(1, InThen), Frame(3, InCondition)];
    FramesAdvance(ev, 4);
    FramesAdvance(ev, 5);
    FramesAdvance(ev, 6);
  }

  lemma {:induction false} FramesAdvance(ev: Footprint, i: nat)
    requires i < |ev|
    ensures Frames(ev, i + 1) == Advance(Frames(ev, i), i, ev[i].ty)
  {
  }
}
