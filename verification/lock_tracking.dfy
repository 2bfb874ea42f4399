/** The array of protection ranges (src/lock_tracking.c). Every acquired lock owns a chain of index
    segments scattered over one growing array; a segment links to the next one of its chain. Links
    are array indices here. */
module LockTracking {
  import opened VarAccesses
  import opened LockHash
  import opened Sequences

  const NUM_LP_FIELDS := 10

  /** The C writes SIZE_MAX for a segment that is still open. */
  datatype RangeEnd = At(idx: nat) | Unbounded

  /** `lockVa` is the footprint index of the acquiring entry; copies keep it, so it names the chain. */
  datatype LpField = LpField(
    lockVa: nat,
    next: Option<nat>,
    branchDepth: nat,
    start: nat,
    end: RangeEnd,
    lockObjHash: uint32,
    isLlStart: bool)

  // ----- what one operation does to the array -----

  function NewField(lockVa: nat, usr: CString, start: nat): LpField {
    LpField(lockVa, None, 0, start, Unbounded, Hash(usr), true)
  }

  predicate Releases(f: LpField, hash: uint32) {
    f.end.Unbounded? && f.lockObjHash == hash
  }

  function Released(fs: seq<LpField>, hash: uint32, end: nat): (r: seq<LpField>)
    ensures |r| == |fs|
  {
    seq(|fs|, k requires 0 <= k < |fs| => if Releases(fs[k], hash) then fs[k].(end := At(end)) else fs[k])
  }

  /** The two operations that extend chains: an if splits the open ones, an else reopens closed ones. */
  datatype Extension = Split(start: nat, depth: nat) | Reopen(start: nat, depth: nat)

  predicate Selected(f: LpField, x: Extension) {
    match x
    case Split(_, _) => f.end.Unbounded?
    case Reopen(_, depth) => f.next.None? && f.end.At? && f.branchDepth == depth
  }

  function Extended(f: LpField, x: Extension, newIdx: nat): LpField {
    match x
    case Split(start, depth) => f.(next := Some(newIdx), end := At(start), branchDepth := depth)
    case Reopen(_, _) => f.(next := Some(newIdx))
  }

  function Continuation(f: LpField, x: Extension): LpField {
    f.(isLlStart := false, next := None, start := x.start, end := Unbounded)
  }

  /** The array after the first n elements have been looked at. */
  function ExtendUpTo(fs: seq<LpField>, x: Extension, n: nat): (r: seq<LpField>)
    requires n <= |fs|
    ensures |fs| <= |r| <= |fs| + n
    ensures forall k :: n <= k < |fs| ==> r[k] == fs[k]
  {
    if n == 0 then fs
    else
      var g := ExtendUpTo(fs, x, n - 1);
      if Selected(fs[n - 1], x)
      then g[n - 1 := Extended(fs[n - 1], x, |g|)] + [Continuation(fs[n - 1], x)]
      else g
  }

  function Extend(fs: seq<LpField>, x: Extension): seq<LpField> {
    ExtendUpTo(fs, x, |fs|)
  }

  // ----- chains -----

  /** No element of k's chain lies strictly between k and hi. */
  ghost predicate NoneBetween(fs: seq<LpField>, k: int, hi: int)
    requires 0 <= k < |fs|
  {
    forall m :: k < m < hi && m < |fs| ==> fs[m].lockVa != fs[k].lockVa
  }

  ghost predicate FirstOfChain(fs: seq<LpField>, k: int)
    requires 0 <= k < |fs|
  {
    forall j :: 0 <= j < k ==> fs[j].lockVa != fs[k].lockVa
  }

  ghost predicate LinkedAt(fs: seq<LpField>, k: int)
    requires 0 <= k < |fs|
  {
    && (fs[k].next.None? ==> NoneBetween(fs, k, |fs|))
    && (fs[k].next.Some? ==>
          && k < fs[k].next.value < |fs|
          && fs[fs[k].next.value].lockVa == fs[k].lockVa
          && NoneBetween(fs, k, fs[k].next.value))
    && (fs[k].isLlStart <==> FirstOfChain(fs, k))
    && (fs[k].end.Unbounded? ==> fs[k].next.None?)
  }

  /** The array is a disjoint union of chains, one per acquire: a segment links to the very next
      element of its own chain, only the first element of a chain is marked as a start, and only
      the last one can still be open. */
  ghost predicate Linked(fs: seq<LpField>) {
    forall k :: 0 <= k < |fs| ==> LinkedAt(fs, k)
  }

  /** Chains start in the order in which their locks were acquired. */
  ghost predicate ChainsInOrder(fs: seq<LpField>) {
    forall j, k :: 0 <= j < k < |fs| && fs[j].isLlStart && fs[k].isLlStart ==> fs[j].lockVa < fs[k].lockVa
  }

  ghost predicate WellFormed(fs: seq<LpField>) {
    Linked(fs) && ChainsInOrder(fs)
  }

  /** Element j of r continues element k of fs. */
  ghost predicate Continues(fs: seq<LpField>, x: Extension, r: seq<LpField>, k: int, j: int) {
    && 0 <= k < |fs| <= j < |r|
    && Selected(fs[k], x)
    && r[k] == Extended(fs[k], x, j)
    && r[j] == Continuation(fs[k], x)
  }

  ghost predicate HasSource(fs: seq<LpField>, x: Extension, r: seq<LpField>, j: int) {
    exists k :: Continues(fs, x, r, k, j)
  }

  /** r is fs with every selected one of its first n elements extended by exactly one new element. */
  ghost predicate ExtendsFirst(fs: seq<LpField>, x: Extension, r: seq<LpField>, n: nat)
    requires n <= |fs| <= |r|
  {
    && (forall k :: 0 <= k < n && !Selected(fs[k], x) ==> r[k] == fs[k])
    && (forall k :: 0 <= k < n && Selected(fs[k], x) ==> r[k].next.Some? && Continues(fs, x, r, k, r[k].next.value))
    && (forall k :: n <= k < |fs| ==> r[k] == fs[k])
    && (forall j :: |fs| <= j < |r| ==> HasSource(fs, x, r, j))
  }

  lemma {:induction false} ExtendUpToFacts(fs: seq<LpField>, x: Extension, n: nat)
    requires n <= |fs|
    ensures ExtendsFirst(fs, x, ExtendUpTo(fs, x, n), n)
  {
    if n > 0 {
      ExtendUpToFacts(fs, x, n - 1);
      var g, r := ExtendUpTo(fs, x, n - 1), ExtendUpTo(fs, x, n);
      forall k | 0 <= k < n && Selected(fs[k], x)
        ensures r[k].next.Some? && Continues(fs, x, r, k, r[k].next.value)
      {
        if k < n - 1 {
          assert Continues(fs, x, g, k, g[k].next.value);
        }
      }
      forall j | |fs| <= j < |r|
        ensures HasSource(fs, x, r, j)
      {
        if j < |g| {
          assert HasSource(fs, x, g, j);
          var k :| Continues(fs, x, g, k, j);
          assert Continues(fs, x, r, k, j);
        } else {
          assert Continues(fs, x, r, n - 1, j);
        }
      }
    }
  }

  ghost function SelectedBelow(fs: seq<LpField>, x: Extension, n: nat): set<nat> {
    set k: nat | k < n && k < |fs| && Selected(fs[k], x)
  }

  /** One new element for every selected one. */
  lemma {:induction false} ExtensionLength(fs: seq<LpField>, x: Extension, n: nat)
    requires n <= |fs|
    ensures |ExtendUpTo(fs, x, n)| == |fs| + |SelectedBelow(fs, x, n)|
  {
    if n > 0 {
      ExtensionLength(fs, x, n - 1);
      assert SelectedBelow(fs, x, n) ==
        SelectedBelow(fs, x, n - 1) + if Selected(fs[n - 1], x) then {n - 1} else {};
    } else {
      assert SelectedBelow(fs, x, n) == {};
    }
  }

  /** Whether an array of this capacity stays where it is while it is extended. */
  ghost predicate StaysPut(fs: seq<LpField>, x: Extension, capacity: nat) {
    var added := SelectedBelow(fs, x, |fs|);
    added == {} || |fs| + |added| < capacity
  }

  lemma {:induction false} OneContinuationPerChain(fs: seq<LpField>, x: Extension, r: seq<LpField>, i: int, k: int,
      j: int, m: int)
    requires Linked(fs)
    requires Continues(fs, x, r, i, k) && Continues(fs, x, r, j, m) && fs[i].lockVa == fs[j].lockVa
    ensures i == j && k == m
  {
    assert LinkedAt(fs, i) && LinkedAt(fs, j);
  }

  lemma {:induction false} ContinuationComesNext(fs: seq<LpField>, x: Extension, r: seq<LpField>, k: int, m: int)
    requires Linked(fs) && |fs| <= |r| && ExtendsFirst(fs, x, r, |fs|)
    requires 0 <= k < m < |r| && |fs| <= m && r[k].lockVa == r[m].lockVa
    ensures k < |fs| && r[k].next.Some? && r[k].next.value <= m
  {
    assert HasSource(fs, x, r, m);
    var j :| Continues(fs, x, r, j, m);
    if k < |fs| {
      assert LinkedAt(fs, k) && LinkedAt(fs, j);
    } else {
      assert HasSource(fs, x, r, k);
      var i :| Continues(fs, x, r, i, k);
      OneContinuationPerChain(fs, x, r, i, k, j, m);
    }
  }

  lemma {:induction false} ExtendKeepsWellFormed(fs: seq<LpField>, x: Extension)
    requires WellFormed(fs)
    ensures WellFormed(Extend(fs, x))
  {
    var r := Extend(fs, x);
    ExtendUpToFacts(fs, x, |fs|);
    forall k | 0 <= k < |r|
      ensures LinkedAt(r, k)
    {
      forall m | k < m < |r| && |fs| <= m && r[k].lockVa == r[m].lockVa
        ensures k < |fs| && r[k].next.Some? && r[k].next.value <= m
      {
        ContinuationComesNext(fs, x, r, k, m);
      }
      if k < |fs| {
        assert LinkedAt(fs, k);
      } else {
        assert HasSource(fs, x, r, k);
      }
    }
    forall j, k | 0 <= j < k < |r| && r[j].isLlStart && r[k].isLlStart
      ensures r[j].lockVa < r[k].lockVa
    {
      assert |fs| <= k ==> HasSource(fs, x, r, k);
      assert fs[j].isLlStart && fs[k].isLlStart;
    }
  }

  /** Closing segments breaks no chain. */
  lemma {:induction false} ClosingKeepsWellFormed(fs: seq<LpField>, r: seq<LpField>)
    requires WellFormed(fs) && |r| == |fs|
    requires forall k :: 0 <= k < |fs| ==> r[k] == fs[k] || (r[k].end.At? && r[k] == fs[k].(end := r[k].end))
    ensures WellFormed(r)
  {
    assert forall j :: 0 <= j < |r| ==> r[j].lockVa == fs[j].lockVa;
    forall k | 0 <= k < |r|
      ensures LinkedAt(r, k)
    {
      assert LinkedAt(fs, k);
      assert FirstOfChain(r, k) <==> FirstOfChain(fs, k);
    }
  }

  lemma {:induction false} AcquireKeepsWellFormed(fs: seq<LpField>, f: LpField)
    requires WellFormed(fs) && f.next.None? && f.isLlStart
    requires forall k :: 0 <= k < |fs| ==> fs[k].lockVa < f.lockVa
    ensures WellFormed(fs + [f])
  {
    var r := fs + [f];
    assert forall j :: 0 <= j < |fs| ==> r[j] == fs[j];
    forall k | 0 <= k < |r|
      ensures LinkedAt(r, k)
    {
      if k < |fs| {
        assert LinkedAt(fs, k);
        assert FirstOfChain(r, k) <==> FirstOfChain(fs, k);
      }
    }
  }

  // ----- the queries -----

  predicate Covers(f: LpField, p: nat) {
    f.start < p && (f.end.At? ==> p < f.end.idx)
  }

  /** What the C calls a conditional protection. */
  predicate CondProt(f: LpField) {
    f.next.Some? && f.end.Unbounded? && f.branchDepth != 0
  }

  /** A linked segment is never open, so no segment is ever a conditional protection. */
  lemma {:induction false} NeverCondProt(fs: seq<LpField>, k: nat)
    requires Linked(fs) && k < |fs|
    ensures !CondProt(fs[k])
  {
    assert LinkedAt(fs, k);
  }

  /** The elements whose segment covers p. */
  ghost function Active(fs: seq<LpField>, p: nat): set<nat> {
    set k: nat | k < |fs| && Covers(fs[k], p)
  }

  /** Reports come chain by chain, and along a chain in index order. */
  ghost predicate ReportedBefore(fs: seq<LpField>, x: nat, y: nat) {
    x < |fs| && y < |fs| && (fs[x].lockVa < fs[y].lockVa || (fs[x].lockVa == fs[y].lockVa && x < y))
  }

  ghost predicate InReportOrder(fs: seq<LpField>, out: seq<nat>) {
    && (forall i :: 0 <= i < |out| ==> out[i] < |fs|)
    && (forall i, j :: 0 <= i < j < |out| ==> ReportedBefore(fs, out[i], out[j]))
  }

  ghost predicate Started(fs: seq<LpField>, m: nat, i: nat)
    requires m < |fs| && i <= |fs|
  {
    exists j :: 0 <= j < i && fs[j].lockVa == fs[m].lockVa
  }

  lemma {:induction false} StartedStep(fs: seq<LpField>, i: nat)
    requires Linked(fs) && i < |fs|
    ensures forall m: nat :: m < |fs| ==> (Started(fs, m, i + 1) <==>
      (Started(fs, m, i) || (fs[i].isLlStart && fs[m].lockVa == fs[i].lockVa)))
  {
    assert LinkedAt(fs, i);
    forall m: nat | m < |fs|
      ensures Started(fs, m, i + 1) <==> (Started(fs, m, i) || (fs[i].isLlStart && fs[m].lockVa == fs[i].lockVa))
    {
      if fs[m].lockVa == fs[i].lockVa {
        assert Started(fs, m, i + 1);
        if !fs[i].isLlStart {
          var j :| 0 <= j < i && fs[j].lockVa == fs[i].lockVa;
        }
      }
    }
  }

  lemma {:induction false} AllStarted(fs: seq<LpField>)
    ensures forall m: nat :: m < |fs| ==> Started(fs, m, |fs|)
  {
    forall m: nat | m < |fs|
      ensures Started(fs, m, |fs|)
    {
      assert fs[m].lockVa == fs[m].lockVa;
    }
  }

  /** The chain of m started at an element before i, so its lock was acquired before i's. */
  lemma {:induction false} StartOfChain(fs: seq<LpField>, m: nat, i: nat)
    requires WellFormed(fs) && m < |fs| && i < |fs| && fs[i].isLlStart && Started(fs, m, i)
    ensures fs[m].lockVa < fs[i].lockVa
  {
    var j :| 0 <= j < i && fs[j].lockVa == fs[m].lockVa;
    var first := FirstElement(fs, j);
    assert LinkedAt(fs, first);
  }

  lemma {:induction false} FirstElement(fs: seq<LpField>, j: nat) returns (first: nat)
    requires j < |fs|
    ensures first <= j && fs[first].lockVa == fs[j].lockVa && FirstOfChain(fs, first)
  {
    first := j;
    if !FirstOfChain(fs, j) {
      var i :| 0 <= i < j && fs[i].lockVa == fs[j].lockVa;
      first := FirstElement(fs, i);
    }
  }

  lemma {:induction false} ReportsConcat(fs: seq<LpField>, i: nat, out: seq<nat>, chain: seq<nat>)
    requires WellFormed(fs) && i < |fs| && fs[i].isLlStart
    requires InReportOrder(fs, out) && InReportOrder(fs, chain)
    requires forall m :: m in out ==> Started(fs, m, i)
    requires forall m :: m in chain ==> fs[m].lockVa == fs[i].lockVa
    ensures InReportOrder(fs, out + chain)
  {
    forall x, y | 0 <= x < y < |out + chain|
      ensures ReportedBefore(fs, (out + chain)[x], (out + chain)[y])
    {
      if x < |out| <= y {
        StartOfChain(fs, out[x], i);
        assert chain[y - |out|] in chain;
      }
    }
  }

  /** The reports of all chains that start before element i. */
  ghost predicate ReportedUpTo(fs: seq<LpField>, p: nat, out: seq<nat>, i: nat)
    requires i <= |fs|
  {
    (forall m :: m in out <==> m in Active(fs, p) && Started(fs, m, i)) && InReportOrder(fs, out)
  }

  lemma {:induction false} ReportStep(fs: seq<LpField>, p: nat, out: seq<nat>, i: nat, chain: seq<nat>)
    requires WellFormed(fs) && i < |fs| && fs[i].isLlStart && ReportedUpTo(fs, p, out, i) && InReportOrder(fs, chain)
    requires forall m :: m in chain <==> m in Active(fs, p) && fs[m].lockVa == fs[i].lockVa
    ensures ReportedUpTo(fs, p, out + chain, i + 1)
  {
    StartedStep(fs, i);
    ReportsConcat(fs, i, out, chain);
  }

  lemma {:induction false} SkipStep(fs: seq<LpField>, p: nat, out: seq<nat>, i: nat)
    requires WellFormed(fs) && i < |fs| && !fs[i].isLlStart && ReportedUpTo(fs, p, out, i)
    ensures ReportedUpTo(fs, p, out, i + 1)
  {
    StartedStep(fs, i);
  }

  lemma {:induction false} ReportsCount(fs: seq<LpField>, p: nat, out: seq<nat>)
    requires forall m :: m in out <==> m in Active(fs, p)
    requires InReportOrder(fs, out)
    ensures |out| == |Active(fs, p)| <= |fs|
  {
    ElementsOfDistinct(out);
    assert Elements(out) == Active(fs, p);
    SubsetIsNoLarger(Active(fs, p), Below(|fs|));
  }

  class ProtectionFieldArray {
    var lpFields: seq<LpField>
    var capacity: nat

    ghost predicate Roomy()
      reads this
    {
      NUM_LP_FIELDS <= capacity && |lpFields| <= capacity
    }

    ghost predicate Valid()
      reads this
    {
      Roomy() && WellFormed(lpFields)
    }

    constructor ()
      ensures Valid() && lpFields == [] && capacity == NUM_LP_FIELDS
    {
      lpFields := [];
      capacity := NUM_LP_FIELDS;
    }

    method AddLockProtectionField(lockVa: nat, usr: CString, start: nat)
      requires Valid()
      requires forall k :: 0 <= k < |lpFields| ==> lpFields[k].lockVa < lockVa
      modifies this
      ensures Valid()
      ensures lpFields == old(lpFields) + [NewField(lockVa, usr, start)]
      ensures capacity == if old(|lpFields| >= capacity) then 2 * old(capacity) else old(capacity)
    {
      if |lpFields| >= capacity {
        capacity := 2 * capacity;
      }
      AcquireKeepsWellFormed(lpFields, NewField(lockVa, usr, start));
      lpFields := lpFields + [NewField(lockVa, usr, start)];
    }

    method AddLockProtectionCopy(k: nat) returns (newIdx: nat)
      requires Roomy() && k < |lpFields|
      modifies this
      ensures Roomy() && newIdx == old(|lpFields|)
      ensures lpFields == old(lpFields) + [old(lpFields)[k].(isLlStart := false, next := None)]
      ensures capacity == if old(|lpFields| >= capacity - 1) then 2 * old(capacity) else old(capacity)
    {
      if |lpFields| >= capacity - 1 {
        capacity := 2 * capacity;
      }
      newIdx := |lpFields|;
      lpFields := lpFields + [lpFields[k].(isLlStart := false, next := None)];
    }

    /** The tail of k's chain. */
    method GetLinkedListEnd(k: nat) returns (tail: nat)
      requires Linked(lpFields) && k < |lpFields|
      ensures k <= tail < |lpFields| && lpFields[tail].next.None? && lpFields[tail].lockVa == lpFields[k].lockVa
      ensures lpFields[k].next.None? ==> tail == k
    {
      tail := k;
      while lpFields[tail].next.Some?
        invariant k <= tail < |lpFields| && lpFields[tail].lockVa == lpFields[k].lockVa
        invariant lpFields[k].next.None? ==> tail == k
        decreases |lpFields| - tail
      {
        assert LinkedAt(lpFields, tail);
        tail := lpFields[tail].next.value;
      }
    }

    method SetProtectionRangeEnd(usr: CString, end: nat)
      requires Valid()
      modifies this`lpFields
      ensures Valid()
      ensures lpFields == Released(old(lpFields), Hash(usr), end)
    {
      hide Hash;
      var hash := GenHash(usr);
      ghost var was := lpFields;
      for i := 0 to |lpFields|
        invariant |lpFields| == |was| && WellFormed(lpFields)
        invariant forall k :: 0 <= k < i ==> lpFields[k] == Released(was, hash, end)[k]
        invariant forall k :: i <= k < |was| ==> lpFields[k] == was[k]
      {
        if lpFields[i].end.Unbounded? && lpFields[i].lockObjHash == hash {
          assert LinkedAt(lpFields, i);
          var tail := GetLinkedListEnd(i);
          ghost var prev := lpFields;
          lpFields := lpFields[tail := lpFields[tail].(end := At(end))];
          ClosingKeepsWellFormed(prev, lpFields);
        }
      }
    }

    /** Splits every open segment. The last ensures clause says when the block is left in place: the
        C keeps a pointer to the element it copies, and that pointer outlives the block otherwise. */
    method AddProtectionRangeFieldsActive(start: nat, depth: nat)
      requires Valid()
      modifies this
      ensures Valid()
      ensures lpFields == Extend(old(lpFields), Split(start, depth))
      ensures capacity == old(capacity) <==> StaysPut(old(lpFields), Split(start, depth), old(capacity))
    {
      var n := |lpFields|;
      ghost var was := lpFields;
      for i := 0 to n
        invariant Roomy() && lpFields == ExtendUpTo(was, Split(start, depth), i)
        invariant old(capacity) <= capacity
        invariant capacity == old(capacity) <==> |lpFields| == |was| || |lpFields| < old(capacity)
      {
        if lpFields[i].end.Unbounded? {
          var newIdx := AddLockProtectionCopy(i);
          lpFields := lpFields[i := lpFields[i].(next := Some(newIdx), end := At(start))];
          lpFields := lpFields[i := lpFields[i].(branchDepth := depth)];
          lpFields := lpFields[newIdx := lpFields[newIdx].(start := start, end := Unbounded)];
        }
      }
      ExtendKeepsWellFormed(was, Split(start, depth));
      ExtensionLength(was, Split(start, depth), n);
    }

    method AddProtectionRangeFieldsInactive(start: nat, depth: nat)
      requires Valid()
      modifies this
      ensures Valid()
      ensures lpFields == Extend(old(lpFields), Reopen(start, depth))
      ensures capacity == old(capacity) <==> StaysPut(old(lpFields), Reopen(start, depth), old(capacity))
    {
      var n := |lpFields|;
      ghost var was := lpFields;
      for i := 0 to n
        invariant Roomy() && lpFields == ExtendUpTo(was, Reopen(start, depth), i)
        invariant old(capacity) <= capacity
        invariant capacity == old(capacity) <==> |lpFields| == |was| || |lpFields| < old(capacity)
      {
        if lpFields[i].next.None? && lpFields[i].end.At? && lpFields[i].branchDepth == depth {
          var newIdx := AddLockProtectionCopy(i);
          lpFields := lpFields[i := lpFields[i].(next := Some(newIdx))];
          lpFields := lpFields[newIdx := lpFields[newIdx].(start := start, end := Unbounded)];
        }
      }
      ExtendKeepsWellFormed(was, Reopen(start, depth));
      ExtensionLength(was, Reopen(start, depth), n);
    }

    /** The walk along one chain, from its start i. */
    method ReportChain(i: nat, p: nat) returns (out: seq<nat>)
      requires Valid() && i < |lpFields| && lpFields[i].isLlStart
      ensures forall m :: m in out <==> m in Active(lpFields, p) && lpFields[m].lockVa == lpFields[i].lockVa
      ensures InReportOrder(lpFields, out)
    {
      out := [];
      var k, more := i, true;
      assert LinkedAt(lpFields, i);
      while more
        invariant i <= k < |lpFields| && lpFields[k].lockVa == lpFields[i].lockVa
        invariant forall m :: m in out <==>
          m in Active(lpFields, p) && lpFields[m].lockVa == lpFields[i].lockVa && (more ==> m < k)
        invariant InReportOrder(lpFields, out)
        decreases more, |lpFields| - k
      {
        assert LinkedAt(lpFields, k);
        NeverCondProt(lpFields, k);
        if Covers(lpFields[k], p) || CondProt(lpFields[k]) {
          assert forall m :: m in out ==> ReportedBefore(lpFields, m, k);
          out := out + [k];
        }
        if lpFields[k].next.Some? {
          k := lpFields[k].next.value;
        } else {
          more := false;
        }
      }
    }

    /** Walks every chain from its start and reports the segments that cover p: all of them, each
        exactly once, so the reports fit in a buffer as long as the array. */
    method GetLpFieldsInRange(p: nat) returns (out: seq<nat>)
      requires Valid()
      ensures |out| == |Active(lpFields, p)| <= |lpFields|
      ensures forall m :: m in out <==> m in Active(lpFields, p)
      ensures InReportOrder(lpFields, out)
    {
      out := [];
      for i := 0 to |lpFields|
        invariant ReportedUpTo(lpFields, p, out, i)
      {
        if lpFields[i].isLlStart {
          var chain := ReportChain(i, p);
          ReportStep(lpFields, p, out, i, chain);
          out := out + chain;
        } else {
          SkipStep(lpFields, p, out, i);
        }
      }
      AllStarted(lpFields);
      ReportsCount(lpFields, p, out);
    }
  }

  // ----- the verdict -----

  datatype SharedProtectionQuality = Protected | Unprotected | Uncertain

  ghost predicate SomeCut(fs: seq<LpField>, active: set<nat>)
  {
    exists k :: k in active && k < |fs| && fs[k].branchDepth != 0
  }

  ghost predicate HasHash(fs: seq<LpField>, active: set<nat>, hash: uint32)
  {
    exists k :: k in active && k < |fs| && fs[k].lockObjHash == hash
  }

  /** An active element carries the hash, and neither it nor an active one reported before it was cut. */
  ghost predicate HasHashBeforeCut(fs: seq<LpField>, active: set<nat>, hash: uint32)
  {
    exists k :: k in active && k < |fs| && fs[k].lockObjHash == hash && NoCutUpTo(fs, active, k)
  }

  ghost predicate NoCutUpTo(fs: seq<LpField>, active: set<nat>, k: nat)
  {
    forall m :: m in active && (m == k || ReportedBefore(fs, m, k)) && m < |fs| ==> fs[m].branchDepth == 0
  }

  ghost predicate Reports(fs: seq<LpField>, active: set<nat>, out: seq<nat>) {
    (forall m :: m in active <==> m in out) && InReportOrder(fs, out)
  }

  lemma {:induction false} NoCutBefore(fs: seq<LpField>, active: set<nat>, out: seq<nat>, y: nat)
    requires Reports(fs, active, out) && y < |out|
    requires forall z :: 0 <= z <= y ==> fs[out[z]].branchDepth == 0
    ensures NoCutUpTo(fs, active, out[y])
  {
    forall m | m in active && (m == out[y] || ReportedBefore(fs, m, out[y])) && m < |fs|
      ensures fs[m].branchDepth == 0
    {
      var z :| 0 <= z < |out| && out[z] == m;
      assert y < z ==> ReportedBefore(fs, out[y], out[z]);
    }
  }

  lemma {:induction false} CutBlocks(fs: seq<LpField>, active: set<nat>, out: seq<nat>, y: nat, hash: uint32)
    requires Reports(fs, active, out) && y < |out| && fs[out[y]].branchDepth != 0
    requires forall z :: 0 <= z < y ==> fs[out[z]].lockObjHash != hash
    ensures !HasHashBeforeCut(fs, active, hash)
    ensures SomeCut(fs, active)
  {
    assert out[y] in out;
    forall k | k in active && k < |fs| && fs[k].lockObjHash == hash
      ensures !NoCutUpTo(fs, active, k)
    {
      var z :| 0 <= z < |out| && out[z] == k;
      assert y < z ==> ReportedBefore(fs, out[y], out[z]);
    }
  }

  /** Which of the three verdicts the two sets of active segments call for. Only the second array's
      branch depths are looked at, as in the C. */
  ghost predicate Judged(fa: seq<LpField>, fb: seq<LpField>, i: nat, j: nat, q: SharedProtectionQuality) {
    var activeA, activeB := Active(fa, i), Active(fb, j);
    && (q.Protected? <==>
          (|activeA| == |activeB| && forall k :: k in activeA ==> HasHashBeforeCut(fb, activeB, fa[k].lockObjHash)))
    && (q.Unprotected? <==>
          (|activeA| != |activeB| ||
           (!SomeCut(fb, activeB) && exists k :: k in activeA && !HasHash(fb, activeB, fa[k].lockObjHash))))
  }

  method MatchingProtectionFieldArrays(a: ProtectionFieldArray, b: ProtectionFieldArray, i: nat, j: nat)
    returns (q: SharedProtectionQuality)
    requires a.Valid() && b.Valid()
    ensures Judged(a.lpFields, b.lpFields, i, j, q)
  {
    var protectionsA := a.GetLpFieldsInRange(i);
    var protectionsB := b.GetLpFieldsInRange(j);
    if |protectionsA| != |protectionsB| {
      return Unprotected;
    }
    ghost var fb := b.lpFields;
    ghost var activeB := Active(fb, j);
    for x := 0 to |protectionsA|
      invariant forall x' :: 0 <= x' < x ==> HasHashBeforeCut(fb, activeB, a.lpFields[protectionsA[x']].lockObjHash)
    {
      var fieldA := a.lpFields[protectionsA[x]];
      var contains := false;
      var y := 0;
      while y < |protectionsB|
        invariant 0 <= y <= |protectionsB|
        invariant forall y' :: 0 <= y' < y ==>
          fb[protectionsB[y']].branchDepth == 0 && fb[protectionsB[y']].lockObjHash != fieldA.lockObjHash
      {
        var fieldB := b.lpFields[protectionsB[y]];
        assert protectionsB[y] in activeB;
        if fieldB.branchDepth != 0 || fieldB.branchDepth != 0 {
          CutBlocks(fb, activeB, protectionsB, y, fieldA.lockObjHash);
          assert protectionsA[x] in Active(a.lpFields, i);
          return Uncertain;
        }
        if fieldA.lockObjHash == fieldB.lockObjHash {
          NoCutBefore(fb, activeB, protectionsB, y);
          contains := true;
          break;
        }
        y := y + 1;
      }
      if !contains {
        assert protectionsA[x] in Active(a.lpFields, i);
        return Unprotected;
      }
    }
    q := Protected;
  }
}
