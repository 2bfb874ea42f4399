/** Turning a footprint into protection ranges (src/core.c:1044-1093), and what the ranges say. */
module LockRanges {
  import opened CIntegers
  import opened VarAccesses
  import opened LockHash
  import opened LockTracking

  function Increment(depth: nat): nat {
    if depth == SIZE_MAX then 0 else depth + 1
  }

  function Decrement(depth: nat): nat {
    if depth == 0 then SIZE_MAX else depth - 1
  }

  /** Branch depth before entry i. */
  function Depth(ev: Footprint, i: nat): nat
    requires i <= |ev|
  {
    if i == 0 then 0
    else match ev[i - 1].ty
      case IfStmt => Increment(Depth(ev, i - 1))
      case EndIf => Decrement(Depth(ev, i - 1))
      case _ => Depth(ev, i - 1)
  }

  /** The first then-block at or after i, or the end of the footprint. */
  function NextThen(ev: Footprint, i: nat): (t: nat)
    requires i <= |ev|
    ensures i <= t <= |ev|
    ensures t < |ev| ==> ev[t].ty.ThenBlock?
    ensures forall j :: i <= j < t ==> !ev[j].ty.ThenBlock?
    decreases |ev| - i
  {
    if i == |ev| || ev[i].ty.ThenBlock? then i else NextThen(ev, i + 1)
  }

  /** Without this the C search for a then-block runs off the footprint. */
  ghost predicate EveryIfHasThen(ev: Footprint) {
    forall i :: 0 <= i < |ev| && ev[i].ty.IfStmt? ==> NextThen(ev, i) < |ev|
  }

  function Step(ev: Footprint, i: nat, fs: seq<LpField>): seq<LpField>
    requires i < |ev|
  {
    match ev[i].ty
    case LockAcquire => fs + [NewField(i, ev[i].usr, i)]
    case LockRelease => Released(fs, Hash(ev[i].usr), i)
    case IfStmt => Extend(fs, Split(NextThen(ev, i), Increment(Depth(ev, i))))
    case ElseStmt => Extend(fs, Reopen(i, Decrement(Depth(ev, i))))
    case _ => fs
  }

  /** The array before entry i. */
  function Fields(ev: Footprint, i: nat): seq<LpField>
    requires i <= |ev|
  {
    if i == 0 then [] else Step(ev, i - 1, Fields(ev, i - 1))
  }

  function Index(ev: Footprint): seq<LpField> {
    Fields(ev, |ev|)
  }

  method AnnotateLockProtectionRanges(ev: Footprint, arr: ProtectionFieldArray)
    requires EveryIfHasThen(ev)
    requires arr.Valid() && arr.lpFields == []
    modifies arr
    ensures arr.Valid() && arr.lpFields == Index(ev)
  {
    var branchDepth := 0;
    for i := 0 to |ev|
      invariant arr.Valid() && arr.lpFields == Fields(ev, i)
      invariant branchDepth == Depth(ev, i)
    {
      AcquiredBefore(ev, i);
      match ev[i].ty
      case LockAcquire =>
        arr.AddLockProtectionField(i, ev[i].usr, i);
      case LockRelease =>
        arr.SetProtectionRangeEnd(ev[i].usr, i);
      case IfStmt =>
        branchDepth := Increment(branchDepth);
        var startOfBranch := i + 1;
        while !ev[startOfBranch].ty.ThenBlock?
          invariant i < startOfBranch <= NextThen(ev, i)
          invariant NextThen(ev, i) == NextThen(ev, startOfBranch)
          decreases |ev| - startOfBranch
        {
          startOfBranch := startOfBranch + 1;
        }
        arr.AddProtectionRangeFieldsActive(startOfBranch, branchDepth);
      case ElseStmt =>
        arr.AddProtectionRangeFieldsInactive(i, Decrement(branchDepth));
      case EndIf =>
        branchDepth := Decrement(branchDepth);
      case _ =>
    }
  }

  // ----- what every reachable array satisfies -----

  ghost predicate IsAcquire(ev: Footprint, c: nat) {
    c < |ev| && ev[c].ty.LockAcquire?
  }

  /** Before entry i every chain belongs to an earlier acquire and carries the hash of its lock. */
  ghost predicate ChainsAreAcquires(ev: Footprint, i: nat, fs: seq<LpField>) {
    forall k :: 0 <= k < |fs| ==>
      && fs[k].lockVa < i && IsAcquire(ev, fs[k].lockVa)
      && fs[k].lockObjHash == Hash(ev[fs[k].lockVa].usr)
  }

  lemma {:induction false} AcquiredBefore(ev: Footprint, i: nat)
    requires i <= |ev|
    ensures ChainsAreAcquires(ev, i, Fields(ev, i))
  {
    if i > 0 {
      AcquiredBefore(ev, i - 1);
      StepKeepsChains(ev, i - 1, Fields(ev, i - 1));
    }
  }

  function ExtensionAt(ev: Footprint, i: nat): Extension
    requires i < |ev| && (ev[i].ty.IfStmt? || ev[i].ty.ElseStmt?)
  {
    if ev[i].ty.IfStmt? then Split(NextThen(ev, i), Increment(Depth(ev, i))) else Reopen(i, Decrement(Depth(ev, i)))
  }

  lemma {:induction false} ExtensionKeepsChains(ev: Footprint, i: nat, fs: seq<LpField>, x: Extension)
    requires ChainsAreAcquires(ev, i, fs)
    ensures ChainsAreAcquires(ev, i + 1, Extend(fs, x))
  {
    var r := Extend(fs, x);
    ExtendUpToFacts(fs, x, |fs|);
    forall k | |fs| <= k < |r|
      ensures r[k].lockVa < i && IsAcquire(ev, r[k].lockVa) && r[k].lockObjHash == Hash(ev[r[k].lockVa].usr)
    {
      assert HasSource(fs, x, r, k);
    }
  }

  lemma {:induction false} StepKeepsChains(ev: Footprint, i: nat, fs: seq<LpField>)
    requires i < |ev| && ChainsAreAcquires(ev, i, fs)
    ensures ChainsAreAcquires(ev, i + 1, Step(ev, i, fs))
  {
    if ev[i].ty.IfStmt? || ev[i].ty.ElseStmt? {
      ExtensionKeepsChains(ev, i, fs, ExtensionAt(ev, i));
    }
  }

  /** Every reachable array is a well-formed forest of chains. */
  lemma {:induction false} FieldsAreWellFormed(ev: Footprint, i: nat)
    requires i <= |ev|
    ensures WellFormed(Fields(ev, i))
  {
    if i > 0 {
      FieldsAreWellFormed(ev, i - 1);
      AcquiredBefore(ev, i - 1);
      var fs := Fields(ev, i - 1);
      match ev[i - 1].ty
      case LockAcquire => AcquireKeepsWellFormed(fs, NewField(i - 1, ev[i - 1].usr, i - 1));
      case LockRelease => ClosingKeepsWellFormed(fs, Released(fs, Hash(ev[i - 1].usr), i - 1));
      case IfStmt => ExtendKeepsWellFormed(fs, ExtensionAt(ev, i - 1));
      case ElseStmt => ExtendKeepsWellFormed(fs, ExtensionAt(ev, i - 1));
      case _ =>
    }
  }

  // ----- the one-pass machine -----

  /** Whether the lock acquired at entry c is open before entry i, by one pass over the entries: an
      acquire opens, a release closes everything with its hash, an else at depth 1 opens every
      chain there is, and nothing else matters. */
  ghost predicate OpenAt(ev: Footprint, i: nat, c: nat): (open: bool)
    requires i <= |ev|
    ensures open ==> c < i && IsAcquire(ev, c)
  {
    i > 0 &&
    match ev[i - 1].ty
    case LockAcquire => c == i - 1 || OpenAt(ev, i - 1, c)
    case LockRelease => OpenAt(ev, i - 1, c) && Hash(ev[i - 1].usr) != Hash(ev[c].usr)
    case ElseStmt => if Depth(ev, i - 1) == 1 then IsAcquire(ev, c) && c < i - 1 else OpenAt(ev, i - 1, c)
    case _ => OpenAt(ev, i - 1, c)
  }

  /** The machine in closed form: open means acquired, and every later release of the same lock was
      followed by an else at depth 1. */
  ghost predicate ReleaseOf(ev: Footprint, r: nat, c: nat) {
    r < |ev| && c < |ev| && ev[r].ty.LockRelease? && Hash(ev[r].usr) == Hash(ev[c].usr)
  }

  ghost predicate ReopenedBetween(ev: Footprint, r: nat, i: nat)
    requires i <= |ev|
  {
    exists e :: r < e < i && ev[e].ty.ElseStmt? && Depth(ev, e) == 1
  }

  lemma {:induction false} OpenInClosedForm(ev: Footprint, i: nat, c: nat)
    requires i <= |ev|
    ensures OpenAt(ev, i, c) <==>
            (c < i && IsAcquire(ev, c) && forall r :: c < r < i && ReleaseOf(ev, r, c) ==> ReopenedBetween(ev, r, i))
  {
    if i > 0 {
      OpenInClosedForm(ev, i - 1, c);
      if c < i && IsAcquire(ev, c) {
        if ev[i - 1].ty.ElseStmt? && Depth(ev, i - 1) == 1 {
          assert forall r :: c < r < i && ReleaseOf(ev, r, c) ==> r < i - 1 && ReopenedBetween(ev, r, i);
        } else {
          assert forall r :: c < r < i - 1 ==> (ReopenedBetween(ev, r, i) <==> ReopenedBetween(ev, r, i - 1));
          assert !ReopenedBetween(ev, i - 1, i);
        }
      }
    }
  }

  // ----- the array refines the machine -----

  /** Some if before entry n, whose then-block is entry t, found c open. */
  ghost predicate PendingFor(ev: Footprint, n: nat, t: nat, c: nat)
    requires n <= |ev|
  {
    exists i :: 0 <= i < n && ev[i].ty.IfStmt? && NextThen(ev, i) == t && OpenAt(ev, i, c)
  }

  ghost predicate IsTail(fs: seq<LpField>, k: nat, c: nat) {
    k < |fs| && fs[k].lockVa == c && fs[k].next.None?
  }

  /** A segment of c reaches from i or earlier up to e. */
  ghost predicate Bridges(fs: seq<LpField>, c: nat, i: nat, e: nat) {
    exists k :: 0 <= k < |fs| && fs[k].lockVa == c && fs[k].start <= i && fs[k].end == At(e)
  }

  ghost predicate HasTail(fs: seq<LpField>, c: nat) {
    exists k :: IsTail(fs, k, c)
  }

  ghost predicate TailsFollowMachine(ev: Footprint, n: nat, fs: seq<LpField>)
    requires n <= |ev|
  {
    && (forall c: nat :: c < n && IsAcquire(ev, c) ==> HasTail(fs, c))
    && (forall k :: 0 <= k < |fs| && fs[k].next.None? ==>
          fs[k].branchDepth == 0 && (fs[k].end.Unbounded? <==> OpenAt(ev, n, fs[k].lockVa)))
  }

  /** A segment that starts or ends at n or later does so because of a pending if. */
  ghost predicate LateBoundsArePending(ev: Footprint, n: nat, fs: seq<LpField>)
    requires n <= |ev|
  {
    forall k :: 0 <= k < |fs| ==>
      && (n <= fs[k].start ==> PendingFor(ev, n, fs[k].start, fs[k].lockVa))
      && (fs[k].end.At? && n <= fs[k].end.idx ==> PendingFor(ev, n, fs[k].end.idx, fs[k].lockVa))
  }

  ghost predicate PendingIfsAreBridged(ev: Footprint, n: nat, fs: seq<LpField>)
    requires n <= |ev|
  {
    forall i, c :: 0 <= i < n && ev[i].ty.IfStmt? && n <= NextThen(ev, i) && OpenAt(ev, i, c) ==>
        Bridges(fs, c, i, NextThen(ev, i))
  }

  ghost predicate Agrees(ev: Footprint, n: nat, fs: seq<LpField>)
    requires n <= |ev|
  {
    TailsFollowMachine(ev, n, fs) && LateBoundsArePending(ev, n, fs) && PendingIfsAreBridged(ev, n, fs)
  }

  ghost predicate FollowsMachine(ev: Footprint, n: nat, fs: seq<LpField>)
    requires n <= |ev|
  {
    && Linked(fs)
    && ChainsAreAcquires(ev, n, fs)
    && Agrees(ev, n, fs)
  }

  lemma {:induction false} NextThenSame(ev: Footprint, i: nat, n: nat)
    requires i <= |ev| && i <= n <= NextThen(ev, i)
    ensures NextThen(ev, n) == NextThen(ev, i)
    decreases n - i
  {
    if i < n {
      NextThenSame(ev, i + 1, n);
    }
  }

  lemma {:induction false} AcquireRefines(ev: Footprint, n: nat, fs: seq<LpField>)
    requires n < |ev| && ev[n].ty.LockAcquire? && FollowsMachine(ev, n, fs)
    ensures Agrees(ev, n + 1, Step(ev, n, fs))
  {
    var r := Step(ev, n, fs);
    KeptSegments(ev, n, fs, r);
    forall c: nat | c < n + 1 && IsAcquire(ev, c)
      ensures HasTail(r, c)
    {
      if c < n {
        var k :| IsTail(fs, k, c);
        assert IsTail(r, k, c);
      } else {
        assert IsTail(r, |fs|, c);
      }
    }
  }

  /** Whatever a step appends starts no later than the entry, and whatever it closes is closed at the entry. */
  lemma {:induction false} KeptSegments(ev: Footprint, n: nat, fs: seq<LpField>, r: seq<LpField>)
    requires n < |ev| && !ev[n].ty.IfStmt? && |fs| <= |r|
    requires LateBoundsArePending(ev, n, fs) && PendingIfsAreBridged(ev, n, fs)
    requires forall k :: 0 <= k < |fs| ==> r[k].lockVa == fs[k].lockVa && r[k].start == fs[k].start
    requires forall k :: 0 <= k < |fs| ==> r[k].end == fs[k].end || (fs[k].end.Unbounded? && r[k].end == At(n))
    requires forall k :: |fs| <= k < |r| ==> r[k].start == n && r[k].end.Unbounded?
    ensures LateBoundsArePending(ev, n + 1, r) && PendingIfsAreBridged(ev, n + 1, r)
  {
    forall k | 0 <= k < |r|
      ensures n + 1 <= r[k].start ==> PendingFor(ev, n + 1, r[k].start, r[k].lockVa)
      ensures r[k].end.At? && n + 1 <= r[k].end.idx ==> PendingFor(ev, n + 1, r[k].end.idx, r[k].lockVa)
    {
      if k < |fs| {
        assert fs[k] == fs[k];
      }
    }
    forall i, c | 0 <= i < n + 1 && ev[i].ty.IfStmt? && n + 1 <= NextThen(ev, i) && OpenAt(ev, i, c)
      ensures Bridges(r, c, i, NextThen(ev, i))
    {
      assert Bridges(fs, c, i, NextThen(ev, i));
      var k :| 0 <= k < |fs| && fs[k].lockVa == c && fs[k].start <= i && fs[k].end == At(NextThen(ev, i));
      assert r[k].lockVa == c;
    }
  }

  lemma {:induction false} ReleaseRefines(ev: Footprint, n: nat, fs: seq<LpField>)
    requires n < |ev| && ev[n].ty.LockRelease? && FollowsMachine(ev, n, fs)
    ensures Agrees(ev, n + 1, Step(ev, n, fs))
  {
    var r := Step(ev, n, fs);
    KeptSegments(ev, n, fs, r);
    forall c: nat | c < n + 1 && IsAcquire(ev, c)
      ensures HasTail(r, c)
    {
      var k :| IsTail(fs, k, c);
      assert IsTail(r, k, c);
    }
  }

  lemma {:induction false} ExtensionKeepsTails(ev: Footprint, n: nat, fs: seq<LpField>, x: Extension, r: seq<LpField>)
    requires n < |ev| && (ev[n].ty.IfStmt? || ev[n].ty.ElseStmt?) && FollowsMachine(ev, n, fs)
    requires x == ExtensionAt(ev, n) && |fs| <= |r| && ExtendsFirst(fs, x, r, |fs|)
    ensures TailsFollowMachine(ev, n + 1, r)
  {
    forall c: nat | c < n + 1 && IsAcquire(ev, c)
      ensures HasTail(r, c)
    {
      assert HasTail(fs, c);
      var k: nat :| IsTail(fs, k, c);
      if Selected(fs[k], x) {
        assert IsTail(r, r[k].next.value, c);
      } else {
        assert IsTail(r, k, c);
      }
    }
    forall k | 0 <= k < |r| && r[k].next.None?
      ensures r[k].branchDepth == 0 && (r[k].end.Unbounded? <==> OpenAt(ev, n + 1, r[k].lockVa))
    {
      if k < |fs| {
        assert !Selected(fs[k], x);
      } else {
        assert HasSource(fs, x, r, k);
        var j :| Continues(fs, x, r, j, k);
        assert LinkedAt(fs, j);
      }
    }
  }

  lemma {:induction false} SplitBoundsArePending(ev: Footprint, n: nat, fs: seq<LpField>, r: seq<LpField>)
    requires n < |ev| && ev[n].ty.IfStmt? && FollowsMachine(ev, n, fs)
    requires |fs| <= |r| && ExtendsFirst(fs, ExtensionAt(ev, n), r, |fs|)
    ensures LateBoundsArePending(ev, n + 1, r)
  {
    forall k | 0 <= k < |r|
      ensures n + 1 <= r[k].start ==> PendingFor(ev, n + 1, r[k].start, r[k].lockVa)
      ensures r[k].end.At? && n + 1 <= r[k].end.idx ==> PendingFor(ev, n + 1, r[k].end.idx, r[k].lockVa)
    {
      var j := k;
      if |fs| <= k {
        assert HasSource(fs, ExtensionAt(ev, n), r, k);
        j :| Continues(fs, ExtensionAt(ev, n), r, j, k);
      }
      assert LinkedAt(fs, j);
      assert fs[j].end.Unbounded? ==> OpenAt(ev, n, r[k].lockVa);
      assert fs[j].end.Unbounded? ==> PendingFor(ev, n + 1, NextThen(ev, n), r[k].lockVa);
    }
  }

  lemma {:induction false} IfRefines(ev: Footprint, n: nat, fs: seq<LpField>)
    requires n < |ev| && ev[n].ty.IfStmt? && FollowsMachine(ev, n, fs)
    ensures Agrees(ev, n + 1, Step(ev, n, fs))
  {
    var x, r := ExtensionAt(ev, n), Step(ev, n, fs);
    ExtendUpToFacts(fs, x, |fs|);
    ExtensionKeepsTails(ev, n, fs, x, r);
    SplitBoundsArePending(ev, n, fs, r);
    forall i, c | 0 <= i < n + 1 && ev[i].ty.IfStmt? && n + 1 <= NextThen(ev, i) && OpenAt(ev, i, c)
      ensures Bridges(r, c, i, NextThen(ev, i))
    {
      if i < n {
        BridgeSurvives(fs, x, r, c, i, NextThen(ev, i));
      } else {
        SplitBridges(ev, n, fs, r, c);
      }
    }
  }

  lemma {:induction false} BridgeSurvives(fs: seq<LpField>, x: Extension, r: seq<LpField>, c: nat, i: nat, e: nat)
    requires Linked(fs) && |fs| <= |r| && ExtendsFirst(fs, x, r, |fs|) && Bridges(fs, c, i, e)
    ensures Bridges(r, c, i, e)
  {
    var k :| 0 <= k < |fs| && fs[k].lockVa == c && fs[k].start <= i && fs[k].end == At(e);
    assert r[k].lockVa == c && r[k].start <= i && r[k].end == At(e);
  }

  /** The if at n splits the open segment of c; when that segment itself starts later than n, an
      earlier pending if has left one that reaches as far. */
  lemma {:induction false} SplitBridges(ev: Footprint, n: nat, fs: seq<LpField>, r: seq<LpField>, c: nat)
    requires n < |ev| && ev[n].ty.IfStmt? && FollowsMachine(ev, n, fs) && OpenAt(ev, n, c)
    requires |fs| <= |r| && ExtendsFirst(fs, ExtensionAt(ev, n), r, |fs|)
    ensures Bridges(r, c, n, NextThen(ev, n))
  {
    assert HasTail(fs, c);
    var k: nat :| IsTail(fs, k, c);
    assert fs[k].end.Unbounded?;
    if fs[k].start <= n {
      assert r[k].lockVa == c && r[k].end == At(NextThen(ev, n));
    } else {
      assert PendingFor(ev, n, fs[k].start, c);
      var i :| 0 <= i < n && ev[i].ty.IfStmt? && NextThen(ev, i) == fs[k].start && OpenAt(ev, i, c);
      NextThenSame(ev, i, n);
      assert Bridges(fs, c, i, NextThen(ev, i));
      BridgeSurvives(fs, ExtensionAt(ev, n), r, c, i, NextThen(ev, n));
    }
  }

  lemma {:induction false} ElseRefines(ev: Footprint, n: nat, fs: seq<LpField>)
    requires n < |ev| && ev[n].ty.ElseStmt? && FollowsMachine(ev, n, fs)
    ensures Agrees(ev, n + 1, Step(ev, n, fs))
  {
    var x, r := ExtensionAt(ev, n), Step(ev, n, fs);
    ExtendUpToFacts(fs, x, |fs|);
    ExtensionKeepsTails(ev, n, fs, x, r);
    forall k | |fs| <= k < |r|
      ensures r[k].start == n && r[k].end.Unbounded?
    {
      assert HasSource(fs, x, r, k);
    }
    KeptSegments(ev, n, fs, r);
  }

  lemma {:induction false} OtherRefines(ev: Footprint, n: nat, fs: seq<LpField>)
    requires n < |ev| && !ev[n].ty.LockAcquire? && !ev[n].ty.LockRelease? && !ev[n].ty.IfStmt? && !ev[n].ty.ElseStmt?
    requires FollowsMachine(ev, n, fs)
    ensures Agrees(ev, n + 1, fs)
  {
    KeptSegments(ev, n, fs, fs);
  }

  lemma {:induction false} StepRefines(ev: Footprint, n: nat, fs: seq<LpField>)
    requires n < |ev| && FollowsMachine(ev, n, fs)
    ensures Agrees(ev, n + 1, Step(ev, n, fs))
  {
    match ev[n].ty
    case LockAcquire => AcquireRefines(ev, n, fs);
    case LockRelease => ReleaseRefines(ev, n, fs);
    case IfStmt => IfRefines(ev, n, fs);
    case ElseStmt => ElseRefines(ev, n, fs);
    case _ => OtherRefines(ev, n, fs);
  }

  lemma {:induction false} ArrayFollowsMachine(ev: Footprint, n: nat)
    requires n <= |ev|
    ensures FollowsMachine(ev, n, Fields(ev, n))
  {
    FieldsAreWellFormed(ev, n);
    AcquiredBefore(ev, n);
    if n > 0 {
      ArrayFollowsMachine(ev, n - 1);
      StepRefines(ev, n - 1, Fields(ev, n - 1));
    }
  }

  ghost predicate StartsChain(fs: seq<LpField>, k: nat, c: nat) {
    k < |fs| && fs[k].isLlStart && fs[k].lockVa == c
  }

  ghost predicate HasStart(fs: seq<LpField>, c: nat) {
    exists k: nat :: StartsChain(fs, k, c)
  }

  /** The chains number the acquires: every acquire so far starts exactly one, and nothing else does. */
  lemma {:induction false} OneChainPerAcquire(ev: Footprint, n: nat)
    requires n <= |ev|
    ensures forall c: nat :: c < n && IsAcquire(ev, c) <==> HasStart(Fields(ev, n), c)
    ensures forall j: nat, k: nat, c: nat ::
      StartsChain(Fields(ev, n), j, c) && StartsChain(Fields(ev, n), k, c) ==> j == k
  {
    var fs := Fields(ev, n);
    ArrayFollowsMachine(ev, n);
    forall c: nat | c < n && IsAcquire(ev, c)
      ensures HasStart(fs, c)
    {
      assert HasTail(fs, c);
      var tail :| IsTail(fs, tail, c);
      var first := FirstElement(fs, tail);
      assert LinkedAt(fs, first);
      assert StartsChain(fs, first, c);
    }
    assert forall k: nat, c: nat :: StartsChain(fs, k, c) ==> c < n && IsAcquire(ev, c);
    forall j: nat, k: nat, c: nat | StartsChain(fs, j, c) && StartsChain(fs, k, c)
      ensures j == k
    {
      assert LinkedAt(fs, j) && LinkedAt(fs, k);
    }
  }

  // ----- a footprint that makes the array grow while it is being split -----

  /** Five locks are taken, then an if follows. */
  const FIVE_LOCKS_THEN_IF: Footprint :=
    [Entry([1], LockAcquire), Entry([2], LockAcquire), Entry([3], LockAcquire), Entry([4], LockAcquire),
     Entry([5], LockAcquire), Entry([], IfStmt), Entry([], ThenBlock), Entry([], EndIf)]

  lemma {:induction false} AllSelected(fs: seq<LpField>, x: Extension, n: nat)
    requires n <= |fs| && forall k :: 0 <= k < n ==> Selected(fs[k], x)
    ensures |ExtendUpTo(fs, x, n)| == |fs| + n
  {
    if n > 0 {
      AllSelected(fs, x, n - 1);
    }
  }

  /** As many open segments as acquires, while there is nothing else. */
  lemma {:induction false} OnlyAcquires(ev: Footprint, n: nat)
    requires n <= |ev| && forall i :: 0 <= i < n ==> ev[i].ty.LockAcquire?
    ensures |Fields(ev, n)| == n && forall k :: 0 <= k < n ==> Fields(ev, n)[k].end.Unbounded?
  {
    if n > 0 {
      OnlyAcquires(ev, n - 1);
    }
  }

  /** Splitting nothing but open segments doubles the array. */
  lemma {:induction false} AllOpenDouble(fs: seq<LpField>, x: Extension, capacity: nat)
    requires x.Split? && forall k :: 0 <= k < |fs| ==> fs[k].end.Unbounded?
    ensures |Extend(fs, x)| == 2 * |fs|
    ensures 0 < |fs| && capacity <= 2 * |fs| ==> !StaysPut(fs, x, capacity)
  {
    AllSelected(fs, x, |fs|);
    ExtensionLength(fs, x, |fs|);
  }

  lemma {:induction false} FiveSplit()
    ensures |Fields(FIVE_LOCKS_THEN_IF, 5)| == 5 && |Fields(FIVE_LOCKS_THEN_IF, 6)| == 10
    ensures Fields(FIVE_LOCKS_THEN_IF, 6) == Extend(Fields(FIVE_LOCKS_THEN_IF, 5), Split(6, 1))
    ensures !StaysPut(Fields(FIVE_LOCKS_THEN_IF, 5), Split(6, 1), NUM_LP_FIELDS)
  {
    OnlyAcquires(FIVE_LOCKS_THEN_IF, 5);
    SixthStep(Fields(FIVE_LOCKS_THEN_IF, 5));
    AllOpenDouble(Fields(FIVE_LOCKS_THEN_IF, 5), Split(6, 1), NUM_LP_FIELDS);
  }

  lemma {:induction false} SixthStep(fs: seq<LpField>)
    ensures Step(FIVE_LOCKS_THEN_IF, 5, fs) == Extend(fs, Split(6, 1))
  {
    NoIfYet(FIVE_LOCKS_THEN_IF, 5);
    assert NextThen(FIVE_LOCKS_THEN_IF, 5) == 6;
  }

  lemma {:induction false} NoIfYet(ev: Footprint, n: nat)
    requires n <= |ev| && forall i :: 0 <= i < n ==> ev[i].ty.LockAcquire?
    ensures Depth(ev, n) == 0
  {
    if n > 0 {
      NoIfYet(ev, n - 1);
    }
  }

  /** The if finds the array half full, and splitting all five segments fills it: the array moves
      after the pointer to the element being split was taken. */
  method GrowsWhileSplitting() returns (arr: ProtectionFieldArray)
    ensures fresh(arr) && arr.Valid() && arr.lpFields == Fields(FIVE_LOCKS_THEN_IF, 6)
    ensures |Fields(FIVE_LOCKS_THEN_IF, 5)| == 5 && |arr.lpFields| == NUM_LP_FIELDS
    ensures arr.capacity != NUM_LP_FIELDS
  {
    hide Hash;
    var ev := FIVE_LOCKS_THEN_IF;
    arr := new ProtectionFieldArray();
    for i := 0 to 5
      invariant fresh(arr) && arr.Valid() && arr.lpFields == Fields(ev, i) && arr.capacity == NUM_LP_FIELDS
    {
      AcquiredBefore(ev, i);
      OnlyAcquires(ev, i);
      assert Fields(ev, i + 1) == Fields(ev, i) + [NewField(i, ev[i].usr, i)];
      arr.AddLockProtectionField(i, ev[i].usr, i);
    }
    FiveSplit();
    arr.AddProtectionRangeFieldsActive(6, 1);
  }
}
