/** The workers that parse the files (src/prong_thread_pool.c:26-105) as a step system: any number
    of threads, any interleaving. */
module ThreadPool {
  import opened CIntegers
  import opened Sequences

  /** Where a thread is in its loop. */
  datatype Pc =
    | AtLock                     // about to lock the mutex
    | Locked                     // about to read next_file_idx
    | Read(idx: nat)             // has read it, about to increment
    | Incremented(idx: nat)      // about to compare with the number of files
    | Leaving                    // no file left: num_active taken down, about to unlock and leave
    | Claimed(idx: nat)          // about to unlock
    | Parsing(idx: nat)          // outside the lock, filling tu_array[idx]
    | Exhausted                  // left the loop: no file left
    | Failed(idx: nat)           // left the thread: tu_array[idx] could not be parsed

  datatype Pool = Pool(
    pcs: seq<Pc>,
    owner: int,                  // the thread that holds the mutex, or -1
    nextFileIdx: nat,
    numActive: nat,
    claims: seq<(nat, nat)>,     // every (file, thread) that got as far as unlocking with a file
    writes: seq<(nat, nat)>)     // every (slot of tu_array, thread) that has been written

  function Start(threads: nat): Pool {
    Pool(seq(threads, _ => AtLock), -1, 0, 0, [], [])
  }

  predicate HoldsMutex(pc: Pc) {
    pc.Locked? || pc.Read? || pc.Incremented? || pc.Leaving? || pc.Claimed?
  }

  predicate Done(pc: Pc) {
    pc.Exhausted? || pc.Failed?
  }

  /** A thread goes on after a file it could parse, and leaves after one it could not. */
  function AfterParse(fails: set<nat>, i: nat): Pc {
    if i in fails then Failed(i) else AtLock
  }

  /** One step of thread t; `fails` are the files that cannot be parsed. */
  ghost predicate Step(count: nat, fails: set<nat>, s: Pool, t: nat, s': Pool) {
    t < |s.pcs| && !Done(s.pcs[t]) &&
    match s.pcs[t]
    case AtLock => s.owner == -1 && s' == s.(owner := t, pcs := s.pcs[t := Locked])
    case Locked => s' == s.(pcs := s.pcs[t := Read(s.nextFileIdx)])
    case Read(i) => s' == s.(nextFileIdx := s.nextFileIdx + 1, pcs := s.pcs[t := Incremented(i)])
    case Incremented(i) =>
      if i >= count
      then s' == s.(numActive := if s.numActive == 0 then SIZE_MAX else s.numActive - 1, pcs := s.pcs[t := Leaving])
      else s' == s.(claims := s.claims + [(i, t)], pcs := s.pcs[t := Claimed(i)])
    case Leaving => s' == s.(owner := -1, pcs := s.pcs[t := Exhausted])
    case Claimed(i) => s' == s.(owner := -1, pcs := s.pcs[t := Parsing(i)])
    case Parsing(i) => s' == s.(writes := s.writes + [(i, t)], pcs := s.pcs[t := AfterParse(fails, i)])
  }

  // ----- what every step keeps -----

  ghost predicate MutexIsExclusive(s: Pool) {
    && (s.owner == -1 || 0 <= s.owner < |s.pcs|)
    && forall t :: 0 <= t < |s.pcs| ==> (HoldsMutex(s.pcs[t]) <==> s.owner == t)
  }

  predicate GaveUp(pc: Pc) {
    pc.Leaving? || pc.Exhausted?
  }

  /** next_file_idx without the increment of a thread that has not yet looked at its index. */
  ghost function Settled(s: Pool): int {
    if 0 <= s.owner < |s.pcs| && s.pcs[s.owner].Incremented? then s.nextFileIdx - 1 else s.nextFileIdx
  }

  function CountGaveUp(pcs: seq<Pc>): nat {
    if pcs == [] then 0 else CountGaveUp(pcs[..|pcs| - 1]) + (if GaveUp(pcs[|pcs| - 1]) then 1 else 0)
  }

  /** Files are claimed in order, one per turn, until they run out; after that every turn is one
      thread giving up. */
  ghost predicate ClaimsInOrder(count: nat, s: Pool) {
    && (forall k :: 0 <= k < |s.claims| ==> s.claims[k].0 == k)
    && |s.claims| <= count
    && Settled(s) == |s.claims| + CountGaveUp(s.pcs)
    && (CountGaveUp(s.pcs) > 0 ==> |s.claims| == count)
    && forall t :: 0 <= t < |s.pcs| ==>
         match s.pcs[t]
         case Read(i) => i == s.nextFileIdx
         case Incremented(i) => i + 1 == s.nextFileIdx
         case _ => true
  }

  predicate WorksOn(pc: Pc, i: nat) {
    pc == Claimed(i) || pc == Parsing(i)
  }

  predicate ClaimedBy(s: Pool, i: nat, t: nat) {
    i < |s.claims| && s.claims[i] == (i, t)
  }

  /** Each claimed file is being worked on by its claimer or has been written by it, once. */
  ghost predicate WritesFollowClaims(s: Pool) {
    && (forall t: nat, i: nat :: t < |s.pcs| && WorksOn(s.pcs[t], i) ==> ClaimedBy(s, i, t))
    && (forall k :: 0 <= k < |s.writes| ==> ClaimedBy(s, s.writes[k].0, s.writes[k].1))
    && (forall k, l :: 0 <= k < l < |s.writes| ==> s.writes[k].0 != s.writes[l].0)
    && (forall i :: 0 <= i < |s.claims| ==>
          (s.claims[i].1 < |s.pcs| && (s.claims[i] in s.writes <==> !WorksOn(s.pcs[s.claims[i].1], i))))
  }

  ghost predicate Inv(count: nat, s: Pool) {
    MutexIsExclusive(s) && ClaimsInOrder(count, s) && WritesFollowClaims(s)
  }

  lemma {:induction false} CountAfterUpdate(pcs: seq<Pc>, t: nat, pc: Pc)
    requires t < |pcs|
    ensures CountGaveUp(pcs[t := pc]) ==
      CountGaveUp(pcs) - (if GaveUp(pcs[t]) then 1 else 0) + (if GaveUp(pc) then 1 else 0)
  {
    var n := |pcs| - 1;
    if t == n {
      assert pcs[t := pc][..n] == pcs[..n];
    } else {
      assert pcs[t := pc][..n] == pcs[..n][t := pc];
      CountAfterUpdate(pcs[..n], t, pc);
    }
  }

  lemma {:induction false} StepKeepsInv(count: nat, fails: set<nat>, s: Pool, t: nat, s': Pool)
    requires Inv(count, s) && Step(count, fails, s, t, s')
    ensures Inv(count, s') && |s'.pcs| == |s.pcs|
  {
    CountAfterUpdate(s.pcs, t, s'.pcs[t]);
    assert s'.pcs == s.pcs[t := s'.pcs[t]];
    StepKeepsMutex(count, fails, s, t, s');
    StepKeepsOrder(count, fails, s, t, s');
    StepKeepsWrites(count, fails, s, t, s');
  }

  lemma {:induction false} StepKeepsMutex(count: nat, fails: set<nat>, s: Pool, t: nat, s': Pool)
    requires MutexIsExclusive(s) && Step(count, fails, s, t, s')
    ensures MutexIsExclusive(s')
  {
  }

  lemma {:induction false} StepKeepsOrder(count: nat, fails: set<nat>, s: Pool, t: nat, s': Pool)
    requires MutexIsExclusive(s) && ClaimsInOrder(count, s) && Step(count, fails, s, t, s')
    requires CountGaveUp(s'.pcs) == CountGaveUp(s.pcs) - (if GaveUp(s.pcs[t]) then 1
        else 0) + (if GaveUp(s'.pcs[t]) then 1 else 0)
    ensures ClaimsInOrder(count, s')
  {
    assert forall u :: 0 <= u < |s.pcs| && u != t ==> s'.pcs[u] == s.pcs[u];
  }

  lemma {:induction false} StepKeepsWrites(count: nat, fails: set<nat>, s: Pool, t: nat, s': Pool)
    requires MutexIsExclusive(s) && ClaimsInOrder(count, s) && WritesFollowClaims(s) && Step(count, fails, s, t, s')
    ensures WritesFollowClaims(s')
  {
    forall u: nat, i: nat | u < |s'.pcs| && WorksOn(s'.pcs[u], i)
      ensures ClaimedBy(s', i, u)
    {
      WorkersClaimed(count, fails, s, t, s', u, i);
    }
    forall k | 0 <= k < |s'.writes|
      ensures ClaimedBy(s', s'.writes[k].0, s'.writes[k].1)
      ensures forall l :: k < l < |s'.writes| ==> s'.writes[k].0 != s'.writes[l].0
    {
      WritesAreClaimed(count, fails, s, t, s', k);
    }
    forall i | 0 <= i < |s'.claims|
      ensures s'.claims[i].1 < |s'.pcs| && (s'.claims[i] in s'.writes <==> !WorksOn(s'.pcs[s'.claims[i].1], i))
    {
      ClaimsAreWritten(count, fails, s, t, s', i);
    }
  }

  lemma {:induction false} WorkersClaimed(count: nat, fails: set<nat>, s: Pool, t: nat, s': Pool, u: nat, i: nat)
    requires MutexIsExclusive(s) && ClaimsInOrder(count, s) && WritesFollowClaims(s) && Step(count, fails, s, t, s')
    requires u < |s'.pcs| && WorksOn(s'.pcs[u], i)
    ensures ClaimedBy(s', i, u)
  {
    if u != t || s.pcs[t].Claimed? {
      assert WorksOn(s.pcs[u], i);
    }
  }

  lemma {:induction false} WritesAreClaimed(count: nat, fails: set<nat>, s: Pool, t: nat, s': Pool, k: nat)
    requires WritesFollowClaims(s) && Step(count, fails, s, t, s') && k < |s'.writes|
    ensures ClaimedBy(s', s'.writes[k].0, s'.writes[k].1)
    ensures forall l :: k < l < |s'.writes| ==> s'.writes[k].0 != s'.writes[l].0
  {
    if k < |s.writes| {
      assert ClaimedBy(s, s.writes[k].0, s.writes[k].1);
    }
    if s.pcs[t].Parsing? {
      var i := s.pcs[t].idx;
      assert WorksOn(s.pcs[t], i) && ClaimedBy(s, i, t);
      assert s.claims[i] !in s.writes;
    }
  }

  lemma {:induction false} ClaimsAreWritten(count: nat, fails: set<nat>, s: Pool, t: nat, s': Pool, i: nat)
    requires MutexIsExclusive(s) && ClaimsInOrder(count, s) && WritesFollowClaims(s) && Step(count, fails, s, t, s')
    requires i < |s'.claims|
    ensures s'.claims[i].1 < |s'.pcs| && (s'.claims[i] in s'.writes <==> !WorksOn(s'.pcs[s'.claims[i].1], i))
  {
    if i < |s.claims| {
      assert s'.claims[i] == s.claims[i];
      if s.pcs[t].Parsing? {
        assert WorksOn(s.pcs[t], s.pcs[t].idx);
      }
    } else {
      assert forall k :: 0 <= k < |s.writes| ==> ClaimedBy(s, s.writes[k].0, s.writes[k].1);
    }
  }

  // ----- runs -----

  ghost predicate AnyStep(count: nat, fails: set<nat>, s: Pool, s': Pool) {
    exists t :: Step(count, fails, s, t, s')
  }

  ghost predicate Run(count: nat, fails: set<nat>, threads: nat, run: seq<Pool>) {
    && run != []
    && run[0] == Start(threads)
    && forall k :: 0 <= k < |run| - 1 ==> AnyStep(count, fails, run[k], run[k + 1])
  }

  lemma {:induction false} NobodyGaveUp(pcs: seq<Pc>)
    requires forall t :: 0 <= t < |pcs| ==> pcs[t].AtLock?
    ensures CountGaveUp(pcs) == 0
  {
    if pcs != [] {
      NobodyGaveUp(pcs[..|pcs| - 1]);
    }
  }

  lemma {:induction false} RunKeepsInv(count: nat, fails: set<nat>, threads: nat, run: seq<Pool>, k: nat)
    requires Run(count, fails, threads, run) && k < |run|
    ensures Inv(count, run[k]) && |run[k].pcs| == threads
  {
    if k == 0 {
      NobodyGaveUp(run[0].pcs);
    } else {
      RunKeepsInv(count, fails, threads, run, k - 1);
      assert AnyStep(count, fails, run[k - 1], run[k]);
      var t :| Step(count, fails, run[k - 1], t, run[k]);
      StepKeepsInv(count, fails, run[k - 1], t, run[k]);
    }
  }

  /** In every reachable state at most one thread is inside the critical section. */
  lemma {:induction false} MutualExclusion(count: nat, fails: set<nat>, threads: nat, run: seq<Pool>, k: nat, t: nat,
      u: nat)
    requires Run(count, fails, threads, run) && k < |run| && t < |run[k].pcs| && u < |run[k].pcs|
    requires HoldsMutex(run[k].pcs[t]) && HoldsMutex(run[k].pcs[u])
    ensures t == u
  {
    RunKeepsInv(count, fails, threads, run, k);
  }

  /** No file is claimed twice and no slot written twice; a slot is written by the thread that
      claimed its file; and outside the critical section next_file_idx is the number of claims plus
      the number of threads that gave up. */
  lemma {:induction false} NothingClaimedTwice(count: nat, fails: set<nat>, threads: nat, run: seq<Pool>, k: nat)
    requires Run(count, fails, threads, run) && k < |run|
    ensures var s := run[k];
            && (forall i, j :: 0 <= i < j < |s.claims| ==> s.claims[i].0 != s.claims[j].0)
            && (forall i, j :: 0 <= i < j < |s.writes| ==> s.writes[i].0 != s.writes[j].0)
            && (forall w :: w in s.writes ==> w in s.claims && w.0 < count)
            && (s.owner == -1 ==> s.nextFileIdx == |s.claims| + CountGaveUp(s.pcs))
  {
    RunKeepsInv(count, fails, threads, run, k);
    var s := run[k];
    forall w | w in s.writes
      ensures w in s.claims && w.0 < count
    {
      var j :| 0 <= j < |s.writes| && s.writes[j] == w;
      assert ClaimedBy(s, w.0, w.1);
    }
  }

  lemma {:induction false} SomeGaveUp(pcs: seq<Pc>, t: nat)
    requires t < |pcs| && GaveUp(pcs[t])
    ensures CountGaveUp(pcs) > 0
  {
    if t < |pcs| - 1 {
      SomeGaveUp(pcs[..|pcs| - 1], t);
    }
  }

  ghost function WrittenSlots(s: Pool): set<nat> {
    set w | w in s.writes :: w.0
  }

  ghost predicate IsClaimed(s: Pool, i: nat) {
    exists u: nat :: (i, u) in s.claims
  }

  /** Once a thread has left because no file was left, every file has been claimed, and once all
      threads are done, every slot has been written, whether or not its file could be parsed. */
  lemma {:induction false} ExhaustionMeansAllClaimed(count: nat, fails: set<nat>, threads: nat, run: seq<Pool>,
      k: nat, t: nat)
    requires Run(count, fails, threads, run) && k < |run| && t < |run[k].pcs| && run[k].pcs[t].Exhausted?
    ensures forall i: nat :: i < count ==> IsClaimed(run[k], i)
    ensures (forall u :: 0 <= u < |run[k].pcs| ==> Done(run[k].pcs[u])) ==> WrittenSlots(run[k]) == Below(count)
  {
    RunKeepsInv(count, fails, threads, run, k);
    var s := run[k];
    SomeGaveUp(s.pcs, t);
    forall i: nat | i < count
      ensures IsClaimed(s, i)
    {
      assert s.claims[i] == (i, s.claims[i].1);
    }
    if forall u :: 0 <= u < |s.pcs| ==> Done(s.pcs[u]) {
      AllWritten(count, s);
    }
  }

  lemma {:induction false} AllWritten(count: nat, s: Pool)
    requires Inv(count, s) && |s.claims| == count && forall u :: 0 <= u < |s.pcs| ==> Done(s.pcs[u])
    ensures WrittenSlots(s) == Below(count)
  {
    forall i: nat | i < count
      ensures i in WrittenSlots(s)
    {
      assert s.claims[i] in s.writes;
      assert s.claims[i].0 == i;
    }
    forall i | i in WrittenSlots(s)
      ensures i < count
    {
      var w :| w in s.writes && w.0 == i;
      var j :| 0 <= j < |s.writes| && s.writes[j] == w;
      assert ClaimedBy(s, w.0, w.1);
    }
  }

  // ----- failures -----

  /** What a thread that claimed the unparsable file i is left with. */
  predicate StuckOn(pc: Pc, i: nat) {
    WorksOn(pc, i) || pc == Failed(i)
  }

  /** A thread that claims a file that cannot be parsed claims nothing after it, and only such a
      thread has failed. */
  ghost predicate FailuresAreLast(fails: set<nat>, s: Pool) {
    && (forall i :: 0 <= i < |s.claims| && i in fails ==> s.claims[i].1 < |s.pcs| && StuckOn(s.pcs[s.claims[i].1], i))
    && (forall i, j :: 0 <= i < j < |s.claims| && i in fails ==> s.claims[i].1 != s.claims[j].1)
    && (forall t :: 0 <= t < |s.pcs| && s.pcs[t].Failed? ==> s.pcs[t].idx in fails && ClaimedBy(s, s.pcs[t].idx, t))
  }

  lemma {:induction false} StepKeepsFailures(count: nat, fails: set<nat>, s: Pool, t: nat, s': Pool)
    requires Inv(count, s) && FailuresAreLast(fails, s) && Step(count, fails, s, t, s')
    ensures FailuresAreLast(fails, s')
  {
    assert forall u :: 0 <= u < |s.pcs| && u != t ==> s'.pcs[u] == s.pcs[u];
    assert s.claims <= s'.claims;
    if s.pcs[t].Parsing? {
      assert WorksOn(s.pcs[t], s.pcs[t].idx);
    }
    forall i | 0 <= i < |s'.claims| && i in fails
      ensures s'.claims[i].1 < |s'.pcs| && StuckOn(s'.pcs[s'.claims[i].1], i)
    {
      if i < |s.claims| {
        assert StuckOn(s.pcs[s.claims[i].1], i);
      }
    }
    forall i, j | 0 <= i < j < |s'.claims| && i in fails
      ensures s'.claims[i].1 != s'.claims[j].1
    {
      assert StuckOn(s.pcs[s.claims[i].1], i);
    }
    forall u | 0 <= u < |s'.pcs| && s'.pcs[u].Failed?
      ensures s'.pcs[u].idx in fails && ClaimedBy(s', s'.pcs[u].idx, u)
    {
      if u != t {
        assert ClaimedBy(s, s.pcs[u].idx, u);
      }
    }
  }

  lemma {:induction false} RunKeepsFailures(count: nat, fails: set<nat>, threads: nat, run: seq<Pool>, k: nat)
    requires Run(count, fails, threads, run) && k < |run|
    ensures FailuresAreLast(fails, run[k])
  {
    if k > 0 {
      RunKeepsFailures(count, fails, threads, run, k - 1);
      RunKeepsInv(count, fails, threads, run, k - 1);
      assert AnyStep(count, fails, run[k - 1], run[k]);
      var t :| Step(count, fails, run[k - 1], t, run[k]);
      StepKeepsFailures(count, fails, run[k - 1], t, run[k]);
    }
  }

  /** The files that cannot be parsed, of all but the last. */
  ghost function FailingBeforeLast(count: nat, fails: set<nat>): set<nat> {
    if count == 0 then {} else fails * Below(count - 1)
  }

  /** If all files were claimed, the claimers of the unparsable ones before the last, and that of the
      last, are different threads. */
  lemma {:induction false} ClaimersAreMany(count: nat, fails: set<nat>, s: Pool)
    requires Inv(count, s) && FailuresAreLast(fails, s) && 0 < |s.claims| == count
    ensures |FailingBeforeLast(count, fails)| < |s.pcs|
  {
    var files := FailingBeforeLast(count, fails) + {count - 1};
    var claimer := (i: nat) => if i < |s.claims| then s.claims[i].1 else 0;
    ImageIsAsLarge(files, claimer);
    SubsetIsNoLarger(Image(files, claimer), Below(|s.pcs|));
  }

  lemma {:induction false} AllFailed(count: nat, s: Pool, t: nat)
    requires ClaimsInOrder(count, s) && |s.claims| < count && t < |s.pcs| && Done(s.pcs[t])
    ensures s.pcs[t].Failed?
  {
    if s.pcs[t].Exhausted? {
      SomeGaveUp(s.pcs, t);
    }
  }

  lemma {:induction false} FailureBeforeLast(count: nat, fails: set<nat>, s: Pool, t: nat)
    requires ClaimsInOrder(count, s) && FailuresAreLast(fails, s) && |s.claims| < count && t < |s.pcs|
    requires s.pcs[t].Failed?
    ensures s.pcs[t].idx in FailingBeforeLast(count, fails)
    ensures s.pcs[t].idx < |s.claims| && s.claims[s.pcs[t].idx].1 == t
  {
    assert ClaimedBy(s, s.pcs[t].idx, t);
  }

  /** If some file is left and all threads are done, each of them failed on a file before the last. */
  lemma {:induction false} FailuresAreMany(count: nat, fails: set<nat>, s: Pool)
    requires ClaimsInOrder(count, s) && FailuresAreLast(fails, s) && |s.claims| < count
    requires forall t :: 0 <= t < |s.pcs| ==> Done(s.pcs[t])
    ensures |s.pcs| <= |FailingBeforeLast(count, fails)|
  {
    var failures := seq(|s.pcs|, t requires 0 <= t < |s.pcs| => FailureOf(s.pcs[t]));
    forall t: nat | t < |s.pcs|
      ensures failures[t] in FailingBeforeLast(count, fails)
      ensures failures[t] < |s.claims| && s.claims[failures[t]].1 == t
    {
      AllFailed(count, s, t);
      FailureBeforeLast(count, fails, s, t);
    }
    DistinctFitIn(failures, FailingBeforeLast(count, fails));
  }

  /** The file a failed thread failed on. */
  function FailureOf(pc: Pc): nat {
    if pc.Failed? then pc.idx else 0
  }

  /** When all threads are done, every slot has been written if and only if there are no files, or
      fewer of them than there are threads cannot be parsed, the last file aside. */
  lemma {:induction false} AllWrittenExactly(count: nat, fails: set<nat>, threads: nat, run: seq<Pool>, k: nat)
    requires Run(count, fails, threads, run) && k < |run| && forall t :: 0 <= t < |run[k].pcs| ==> Done(run[k].pcs[t])
    ensures WrittenSlots(run[k]) == Below(count) <==> count == 0 || |FailingBeforeLast(count, fails)| < threads
  {
    RunKeepsInv(count, fails, threads, run, k);
    RunKeepsFailures(count, fails, threads, run, k);
    var s := run[k];
    if |s.claims| == count {
      AllWritten(count, s);
      if count > 0 {
        ClaimersAreMany(count, fails, s);
      }
    } else {
      FailuresAreMany(count, fails, s);
      UnclaimedIsUnwritten(count, s);
    }
  }

  lemma {:induction false} UnclaimedIsUnwritten(count: nat, s: Pool)
    requires Inv(count, s) && |s.claims| < count
    ensures WrittenSlots(s) != Below(count)
  {
    forall w | w in s.writes
      ensures w.0 < |s.claims|
    {
      var j :| 0 <= j < |s.writes| && s.writes[j] == w;
      assert ClaimedBy(s, w.0, w.1);
    }
    assert |s.claims| in Below(count) && |s.claims| !in WrittenSlots(s);
  }

  /** One thread, two files, the first of which cannot be parsed. */
  const ONE_THREAD_FAILS: seq<Pool> := [
    Pool([AtLock], -1, 0, 0, [], []),
    Pool([Locked], 0, 0, 0, [], []),
    Pool([Read(0)], 0, 0, 0, [], []),
    Pool([Incremented(0)], 0, 1, 0, [], []),
    Pool([Claimed(0)], 0, 1, 0, [(0, 0)], []),
    Pool([Parsing(0)], -1, 1, 0, [(0, 0)], []),
    Pool([Failed(0)], -1, 1, 0, [(0, 0)], [(0, 0)])]

  /** The thread leaves, and the second file is never claimed, though it could be parsed. */
  lemma {:induction false} FileIsLeftUnclaimed()
    ensures Run(2, {0}, 1, ONE_THREAD_FAILS)
    ensures Done(ONE_THREAD_FAILS[6].pcs[0]) && !IsClaimed(ONE_THREAD_FAILS[6], 1)
    ensures WrittenSlots(ONE_THREAD_FAILS[6]) != Below(2)
  {
    var run := ONE_THREAD_FAILS;
    assert run[0] == Start(1);
    forall k | 0 <= k < |run| - 1
      ensures AnyStep(2, {0}, run[k], run[k + 1])
    {
      assert Step(2, {0}, run[k], 0, run[k + 1]);
    }
    RunKeepsInv(2, {0}, 1, run, 6);
    UnclaimedIsUnwritten(2, run[6]);
  }

  // ----- termination -----

  function Weight(pc: Pc): nat {
    match pc
    case Claimed(_) => 7
    case Parsing(_) => 6
    case AtLock => 5
    case Locked => 4
    case Read(_) => 3
    case Incremented(_) => 2
    case Leaving => 1
    case Exhausted => 0
    case Failed(_) => 0
  }

  function TotalWeight(pcs: seq<Pc>): nat {
    if pcs == [] then 0 else TotalWeight(pcs[..|pcs| - 1]) + Weight(pcs[|pcs| - 1])
  }

  lemma {:induction false} WeightAfterUpdate(pcs: seq<Pc>, t: nat, pc: Pc)
    requires t < |pcs|
    ensures TotalWeight(pcs[t := pc]) == TotalWeight(pcs) - Weight(pcs[t]) + Weight(pc)
  {
    var n := |pcs| - 1;
    if t == n {
      assert pcs[t := pc][..n] == pcs[..n];
    } else {
      assert pcs[t := pc][..n] == pcs[..n][t := pc];
      WeightAfterUpdate(pcs[..n], t, pc);
    }
  }

  ghost function StepsLeft(count: nat, s: Pool): int {
    8 * (count - |s.claims|) + TotalWeight(s.pcs)
  }

  lemma {:induction false} StepMakesProgress(count: nat, fails: set<nat>, s: Pool, t: nat, s': Pool)
    requires Inv(count, s) && Step(count, fails, s, t, s')
    ensures 0 <= StepsLeft(count, s') < StepsLeft(count, s)
  {
    StepKeepsInv(count, fails, s, t, s');
    WeightAfterUpdate(s.pcs, t, s'.pcs[t]);
    assert s'.pcs == s.pcs[t := s'.pcs[t]];
  }

  lemma {:induction false} WeightAtStart(pcs: seq<Pc>)
    requires forall t :: 0 <= t < |pcs| ==> pcs[t].AtLock?
    ensures TotalWeight(pcs) == 5 * |pcs|
  {
    if pcs != [] {
      WeightAtStart(pcs[..|pcs| - 1]);
    }
  }

  /** Every run is finite, whatever the interleaving and whichever parses fail. */
  lemma {:induction false} RunsTerminate(count: nat, fails: set<nat>, threads: nat, run: seq<Pool>)
    requires Run(count, fails, threads, run)
    ensures |run| <= 8 * count + 5 * threads + 1
  {
    WeightAtStart(run[0].pcs);
    StepsAreSpent(count, fails, threads, run, |run| - 1);
  }

  lemma {:induction false} StepsAreSpent(count: nat, fails: set<nat>, threads: nat, run: seq<Pool>, k: nat)
    requires Run(count, fails, threads, run) && k < |run|
    ensures 0 <= StepsLeft(count, run[k]) <= StepsLeft(count, run[0]) - k
  {
    RunKeepsInv(count, fails, threads, run, k);
    if k > 0 {
      StepsAreSpent(count, fails, threads, run, k - 1);
      RunKeepsInv(count, fails, threads, run, k - 1);
      assert AnyStep(count, fails, run[k - 1], run[k]);
      var t :| Step(count, fails, run[k - 1], t, run[k]);
      StepMakesProgress(count, fails, run[k - 1], t, run[k]);
    }
  }

  /** And no run gets stuck: as long as some thread is not done, some thread can move. */
  lemma {:induction false} NoDeadlock(count: nat, fails: set<nat>, threads: nat, run: seq<Pool>, k: nat, t: nat)
    requires Run(count, fails, threads, run) && k < |run| && t < |run[k].pcs| && !Done(run[k].pcs[t])
    ensures exists s' :: AnyStep(count, fails, run[k], s')
  {
    RunKeepsInv(count, fails, threads, run, k);
    var s := run[k];
    if s.owner == -1 {
      ThreadCanMove(count, fails, s, t);
    } else {
      ThreadCanMove(count, fails, s, s.owner);
    }
  }

  lemma {:induction false} ThreadCanMove(count: nat, fails: set<nat>, s: Pool, t: nat)
    requires t < |s.pcs| && !Done(s.pcs[t]) && (s.pcs[t].AtLock? ==> s.owner == -1)
    ensures exists s' :: AnyStep(count, fails, s, s')
  {
    var s' := match s.pcs[t]
      case AtLock => s.(owner := t, pcs := s.pcs[t := Locked])
      case Locked => s.(pcs := s.pcs[t := Read(s.nextFileIdx)])
      case Read(i) => s.(nextFileIdx := s.nextFileIdx + 1, pcs := s.pcs[t := Incremented(i)])
      case Incremented(i) =>
        if i >= count
        then s.(numActive := if s.numActive == 0 then SIZE_MAX else s.numActive - 1, pcs := s.pcs[t := Leaving])
        else s.(claims := s.claims + [(i, t)], pcs := s.pcs[t := Claimed(i)])
      case Leaving => s.(owner := -1, pcs := s.pcs[t := Exhausted])
      case Claimed(i) => s.(owner := -1, pcs := s.pcs[t := Parsing(i)])
      case Parsing(i) => s.(writes := s.writes + [(i, t)], pcs := s.pcs[t := AfterParse(fails, i)])
      case _ => s;
    assert Step(count, fails, s, t, s');
    assert AnyStep(count, fails, s, s');
  }
}
