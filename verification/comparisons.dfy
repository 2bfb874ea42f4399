/** Comparing every function with every other (src/prong.c:248-279). One comparison takes entries off
    the footprints that the next ones see. */
module Comparisons {
  import opened VarAccesses
  import opened LockHash
  import opened LockTracking
  import opened LockRanges
  import opened Verdict
  import opened Reporting

  /** Entry i of function a was reported together with entry j of function b. */
  datatype Report = Report(a: nat, i: nat, b: nat, j: nat)

  type Reports = seq<Report>

  predicate Touches(r: Report, f: nat, k: nat) {
    (r.a == f && r.i == k) || (r.b == f && r.j == k)
  }

  ghost predicate InReport(reports: Reports, f: nat, k: nat) {
    exists r :: r in reports && Touches(r, f, k)
  }

  ghost predicate SharesEntry(r: Report, s: Report) {
    Touches(s, r.a, r.i) || Touches(s, r.b, r.j)
  }

  function Lift(pairs: Pairs, a: nat, b: nat): (r: Reports)
    ensures |r| == |pairs|
  {
    seq(|pairs|, k requires 0 <= k < |pairs| => Report(a, pairs[k].0, b, pairs[k].1))
  }

  /** What the C keeps of an entry after a report, as a footprint: the reported entries are null. */
  ghost predicate NulledBy(was: Footprint, now: Footprint, reports: Reports, f: nat) {
    |now| == |was| && forall k: nat :: k < |was| ==>
        now[k] == if InReport(reports, f, k) then was[k].(ty := Null) else was[k]
  }

  ghost predicate Genuine(start: seq<Footprint>, r: Report) {
    && r.a < |start| && r.b < |start| && r.a != r.b
    && r.i < |start[r.a]| && r.j < |start[r.b]|
    && SameVariable(start[r.a][r.i], start[r.b][r.j])
  }

  ghost predicate AllGenuine(start: seq<Footprint>, reports: Reports) {
    forall r :: r in reports ==> Genuine(start, r)
  }

  /** No entry of any function is in two reports. */
  ghost predicate EachOnce(reports: Reports) {
    forall x, y :: 0 <= x < y < |reports| ==> !SharesEntry(reports[x], reports[y])
  }

  /** The footprints at some point of the run, and what has been reported by then. */
  ghost predicate RunState(start: seq<Footprint>, now: seq<Footprint>, reports: Reports) {
    && |now| == |start|
    && (forall f: nat :: f < |start| ==> NulledBy(start[f], now[f], reports, f))
    && AllGenuine(start, reports)
    && EachOnce(reports)
  }

  // ----- one comparison -----

  lemma {:induction false} LiftedPair(pairs: Pairs, a: nat, b: nat, i: nat, j: nat)
    ensures Report(a, i, b, j) in Lift(pairs, a, b) <==> (i, j) in pairs
  {
    var rs := Lift(pairs, a, b);
    if (i, j) in pairs {
      var k :| 0 <= k < |pairs| && pairs[k] == (i, j);
      assert rs[k] == Report(a, i, b, j);
    }
  }

  lemma {:induction false} LiftedTouch(pairs: Pairs, a: nat, b: nat, f: nat, k: nat)
    requires a != b
    ensures InReport(Lift(pairs, a, b), f, k) <==> (f == a && k in Firsts(pairs)) || (f == b && k in Seconds(pairs))
  {
    var rs := Lift(pairs, a, b);
    if f == a && k in Firsts(pairs) {
      var p :| p in pairs && p.0 == k;
      LiftedPair(pairs, a, b, k, p.1);
      assert Touches(Report(a, k, b, p.1), f, k);
    }
    if f == b && k in Seconds(pairs) {
      var p :| p in pairs && p.1 == k;
      LiftedPair(pairs, a, b, p.0, k);
      assert Touches(Report(a, p.0, b, k), f, k);
    }
  }

  lemma {:induction false} InMoreReports(reports: Reports, more: Reports, f: nat, k: nat)
    ensures InReport(reports + more, f, k) <==> InReport(reports, f, k) || InReport(more, f, k)
  {
    assert forall r :: r in reports + more <==> r in reports || r in more;
  }

  /** Only entries nobody reported yet are candidates of the next comparison. */
  lemma {:induction false} CandidatesAreFresh(start: seq<Footprint>, now: seq<Footprint>, reports: Reports, a: nat,
      b: nat, i: nat, j: nat)
    requires RunState(start, now, reports) && a < |start| && b < |start| && (i, j) in Overlaps(now[a], now[b])
    ensures i < |start[a]| && j < |start[b]| && SameVariable(start[a][i], start[b][j])
    ensures !InReport(reports, a, i) && !InReport(reports, b, j)
  {
    assert NulledBy(start[a], now[a], reports, a) && NulledBy(start[b], now[b], reports, b);
  }

  /** One comparison of two different functions, whatever its candidates are. */
  ghost predicate Compared(now: seq<Footprint>, next: seq<Footprint>, cand: set<(nat, nat)>, pairs: Pairs, a: nat,
      b: nat)
  {
    && |next| == |now| && a < |now| && b < |now| && a != b
    && cand <= Overlaps(now[a], now[b])
    && GreedyMatching(cand, pairs)
    && Nullified(now[a], next[a], Firsts(pairs))
    && Nullified(now[b], next[b], Seconds(pairs))
    && forall f: nat :: f < |now| && f != a && f != b ==> next[f] == now[f]
  }

  lemma {:induction false} ComparisonNulls(start: seq<Footprint>, now: seq<Footprint>, next: seq<Footprint>,
      reports: Reports, cand: set<(nat, nat)>, pairs: Pairs, a: nat, b: nat, f: nat)
    requires RunState(start, now, reports) && Compared(now, next, cand, pairs, a, b) && f < |start|
    ensures NulledBy(start[f], next[f], reports + Lift(pairs, a, b), f)
  {
    assert NulledBy(start[f], now[f], reports, f);
    forall k: nat | k < |start[f]|
      ensures next[f][k] ==
              if InReport(reports + Lift(pairs, a, b), f, k) then start[f][k].(ty := Null) else start[f][k]
    {
      InMoreReports(reports, Lift(pairs, a, b), f, k);
      LiftedTouch(pairs, a, b, f, k);
    }
  }

  lemma {:induction false} LiftedOnce(cand: set<(nat, nat)>, pairs: Pairs, a: nat, b: nat)
    requires GreedyMatching(cand, pairs) && a != b
    ensures EachOnce(Lift(pairs, a, b))
  {
    GreedyIsMaximalMatching(cand, pairs);
    var rs := Lift(pairs, a, b);
    forall x, y | 0 <= x < y < |rs|
      ensures !SharesEntry(rs[x], rs[y])
    {
      var p, q := pairs[x], pairs[y];
      assert (p.0, p.1) in pairs && (q.0, q.1) in pairs;
      assert p.0 == q.0 ==> (p.0, q.1) in pairs;
      assert p.1 == q.1 ==> (q.0, p.1) in pairs;
    }
  }

  lemma {:induction false} OnceTogether(reports: Reports, more: Reports)
    requires EachOnce(reports) && EachOnce(more)
    requires forall r :: r in more ==> !InReport(reports, r.a, r.i) && !InReport(reports, r.b, r.j)
    ensures EachOnce(reports + more)
  {
    var all := reports + more;
    forall x, y | 0 <= x < y < |all|
      ensures !SharesEntry(all[x], all[y])
    {
      if x < |reports| <= y {
        var r, s := all[x], all[y];
        assert s in more && r in reports;
        assert Touches(r, r.a, r.i) && Touches(r, r.b, r.j);
      }
    }
  }

  lemma {:induction false} LiftedAreNew(start: seq<Footprint>, now: seq<Footprint>, next: seq<Footprint>,
      reports: Reports, cand: set<(nat, nat)>, pairs: Pairs, a: nat, b: nat, r: Report)
    requires RunState(start, now, reports) && Compared(now, next, cand, pairs, a, b) && r in Lift(pairs, a, b)
    ensures Genuine(start, r) && !InReport(reports, r.a, r.i) && !InReport(reports, r.b, r.j)
    ensures r.a == a && r.b == b && (r.i, r.j) in cand
  {
    LiftedPair(pairs, r.a, r.b, r.i, r.j);
    var k :| 0 <= k < |pairs| && Lift(pairs, a, b)[k] == r;
    assert pairs[k] == (r.i, r.j) && (r.i, r.j) in pairs;
    CandidatesAreFresh(start, now, reports, a, b, r.i, r.j);
  }

  /** A comparison keeps the run consistent. */
  lemma {:induction false} ComparisonKeepsRun(start: seq<Footprint>, now: seq<Footprint>, next: seq<Footprint>,
      reports: Reports, cand: set<(nat, nat)>, pairs: Pairs, a: nat, b: nat)
    requires RunState(start, now, reports) && Compared(now, next, cand, pairs, a, b)
    ensures RunState(start, next, reports + Lift(pairs, a, b))
  {
    var more := Lift(pairs, a, b);
    forall f: nat | f < |start|
      ensures NulledBy(start[f], next[f], reports + more, f)
    {
      ComparisonNulls(start, now, next, reports, cand, pairs, a, b, f);
    }
    forall r | r in more
      ensures Genuine(start, r) && !InReport(reports, r.a, r.i) && !InReport(reports, r.b, r.j)
    {
      LiftedAreNew(start, now, next, reports, cand, pairs, a, b, r);
    }
    LiftedOnce(cand, pairs, a, b);
    OnceTogether(reports, more);
  }

  // ----- what later comparisons see -----

  predicate IsLock(v: VarAccess) {
    v.ty.LockAcquire? || v.ty.LockRelease?
  }

  predicate LockAt(ev: Footprint, k: nat) {
    k < |ev| && IsLock(ev[k])
  }

  /** Some live entries have been nulled, none of them a lock. */
  ghost predicate Blanked(was: Footprint, now: Footprint) {
    && |now| == |was|
    && forall k: nat :: k < |was| ==>
         now[k] == was[k] || (Live(was[k]) && !IsLock(was[k]) && now[k] == was[k].(ty := Null))
  }

  lemma {:induction false} SameThens(was: Footprint, now: Footprint, i: nat)
    requires |now| == |was| && i <= |was|
    requires forall k: nat :: k < |was| ==> (was[k].ty.ThenBlock? <==> now[k].ty.ThenBlock?)
    ensures NextThen(now, i) == NextThen(was, i)
    decreases |was| - i
  {
    if i < |was| && !was[i].ty.ThenBlock? {
      SameThens(was, now, i + 1);
    }
  }

  lemma {:induction false} SameStep(was: Footprint, now: Footprint, i: nat, fs: seq<LpField>)
    requires Blanked(was, now) && i < |was| && Depth(now, i) == Depth(was, i)
    ensures Step(now, i, fs) == Step(was, i, fs) && Depth(now, i + 1) == Depth(was, i + 1)
  {
    SameThens(was, now, i);
    if now[i] != was[i] {
      assert Live(was[i]) && !IsLock(was[i]) && now[i].ty.Null?;
    }
  }

  lemma {:induction false} SameFields(was: Footprint, now: Footprint, i: nat)
    requires Blanked(was, now) && i <= |was|
    ensures Fields(now, i) == Fields(was, i) && Depth(now, i) == Depth(was, i)
  {
    if i > 0 {
      SameFields(was, now, i - 1);
      SameStep(was, now, i - 1, Fields(was, i - 1));
    }
  }

  /** Nulling accesses does not change the protection ranges. */
  lemma {:induction false} AccessesDoNotProtect(was: Footprint, now: Footprint)
    requires Blanked(was, now)
    ensures Index(now) == Index(was)
  {
    SameFields(was, now, |was|);
  }

  /** No report takes a lock entry off a footprint. */
  ghost predicate NoLockReported(start: seq<Footprint>, reports: Reports)
    requires AllGenuine(start, reports)
  {
    forall r :: r in reports ==> !IsLock(start[r.a][r.i]) && !IsLock(start[r.b][r.j])
  }

  lemma {:induction false} RunKeepsThens(start: seq<Footprint>, now: seq<Footprint>, reports: Reports, f: nat)
    requires RunState(start, now, reports) && f < |start| && EveryIfHasThen(start[f])
    ensures EveryIfHasThen(now[f])
  {
    assert NulledBy(start[f], now[f], reports, f);
    forall k: nat | k < |start[f]|
      ensures start[f][k].ty.ThenBlock? <==> now[f][k].ty.ThenBlock?
      ensures now[f][k].ty.IfStmt? ==> start[f][k].ty.IfStmt?
    {
      if InReport(reports, f, k) {
        var r :| r in reports && Touches(r, f, k);
        assert Genuine(start, r);
      }
    }
    forall i | 0 <= i < |now[f]| && now[f][i].ty.IfStmt?
      ensures NextThen(now[f], i) < |now[f]|
    {
      SameThens(start[f], now[f], i);
    }
  }

  lemma {:induction false} RunBlanks(start: seq<Footprint>, now: seq<Footprint>, reports: Reports, f: nat)
    requires RunState(start, now, reports) && NoLockReported(start, reports) && f < |start|
    ensures Blanked(start[f], now[f])
  {
    assert NulledBy(start[f], now[f], reports, f);
    forall k: nat | k < |start[f]| && InReport(reports, f, k)
      ensures Live(start[f][k]) && !IsLock(start[f][k])
    {
      var r :| r in reports && Touches(r, f, k);
      assert Genuine(start, r);
    }
  }

  /** The candidates of one comparison, with lock tracking or without. */
  ghost function Candidates(tracking: bool, a: Footprint, b: Footprint): set<(nat, nat)> {
    if tracking then BadOverlaps(a, b) else Overlaps(a, b)
  }

  ghost predicate Undisturbed(tracking: bool, start: seq<Footprint>, reports: Reports)
    requires AllGenuine(start, reports)
  {
    tracking ==> NoLockReported(start, reports)
  }

  /** As long as no lock entry goes, a later comparison has the candidates it would have had at the
      start, less the reported entries. */
  lemma {:induction false} LaterCandidates(tracking: bool, start: seq<Footprint>, now: seq<Footprint>, reports: Reports,
      a: nat, b: nat, i: nat, j: nat)
    requires RunState(start, now, reports) && Undisturbed(tracking, start, reports) && a < |start| && b < |start|
    ensures (i, j) in Candidates(tracking, now[a], now[b]) <==>
      (i, j) in Candidates(tracking, start[a], start[b]) && !InReport(reports, a, i) && !InReport(reports, b, j)
  {
    assert NulledBy(start[a], now[a], reports, a) && NulledBy(start[b], now[b], reports, b);
    if tracking {
      RunBlanks(start, now, reports, a);
      RunBlanks(start, now, reports, b);
      AccessesDoNotProtect(start[a], now[a]);
      AccessesDoNotProtect(start[b], now[b]);
    }
  }

  // ----- the whole run -----

  /** Every candidate that a and b had at the start has been reported at one end at least. */
  ghost predicate PairSettled(tracking: bool, start: seq<Footprint>, reports: Reports, a: nat, b: nat)
    requires a < |start| && b < |start|
  {
    forall i: nat, j: nat :: (i, j) in Candidates(tracking, start[a], start[b]) ==>
        InReport(reports, a, i) || InReport(reports, b, j)
  }

  /** Whatever was reported was a candidate at the start. */
  ghost predicate OnlyCandidates(tracking: bool, start: seq<Footprint>, reports: Reports)
    requires AllGenuine(start, reports)
  {
    forall r :: r in reports ==> (r.i, r.j) in Candidates(tracking, start[r.a], start[r.b])
  }

  ghost predicate SettledUpTo(tracking: bool, start: seq<Footprint>, reports: Reports, m: nat, n: nat) {
    forall a: nat, b: nat :: a < |start| && b < |start| && a != b && (a < m || (a == m && b < n)) ==>
      PairSettled(tracking, start, reports, a, b)
  }

  /** No two entries that would be reported together at the start include a lock. */
  ghost predicate NoLockCandidates(start: seq<Footprint>) {
    forall a: nat, b: nat, i: nat, j: nat ::
      a < |start| && b < |start| && a != b && (i, j) in BadOverlaps(start[a], start[b]) ==>
        !LockAt(start[a], i) && !LockAt(start[b], j)
  }

  /** Nor are any such two entries both locks. */
  ghost predicate NoLockPairs(start: seq<Footprint>) {
    forall a: nat, b: nat, i: nat, j: nat ::
      a < |start| && b < |start| && a != b && (i, j) in BadOverlaps(start[a], start[b]) ==>
        !LockAt(start[a], i) || !LockAt(start[b], j)
  }

  /** What holds before the functions m and n are compared. */
  ghost predicate RunUpTo(tracking: bool, start: seq<Footprint>, now: seq<Footprint>, reports: Reports, m: nat,
      n: nat)
  {
    && RunState(start, now, reports)
    && (Undisturbed(tracking, start, reports) ==>
          OnlyCandidates(tracking, start, reports) && SettledUpTo(tracking, start, reports, m, n))
    && (tracking && NoLockCandidates(start) ==> NoLockReported(start, reports))
  }

  lemma {:induction false} ComparisonSettles(tracking: bool, start: seq<Footprint>, now: seq<Footprint>,
      next: seq<Footprint>,
      reports: Reports, pairs: Pairs, a: nat, b: nat)
    requires RunState(start, now, reports) && Undisturbed(tracking, start, reports)
    requires a < |start| && b < |start| && a != b
    requires GreedyMatching(Candidates(tracking, now[a], now[b]), pairs)
    ensures PairSettled(tracking, start, reports + Lift(pairs, a, b), a, b)
  {
    var more := Lift(pairs, a, b);
    GreedyIsMaximalMatching(Candidates(tracking, now[a], now[b]), pairs);
    forall i: nat, j: nat | (i, j) in Candidates(tracking, start[a], start[b])
      ensures InReport(reports + more, a, i) || InReport(reports + more, b, j)
    {
      LaterCandidates(tracking, start, now, reports, a, b, i, j);
      InMoreReports(reports, more, a, i);
      InMoreReports(reports, more, b, j);
      LiftedTouch(pairs, a, b, a, i);
      LiftedTouch(pairs, a, b, b, j);
      TakenSets(pairs, i, j);
    }
  }

  lemma {:induction false} OldPairsStaySettled(tracking: bool, start: seq<Footprint>, reports: Reports,
      more: Reports, a: nat, b: nat)
    requires a < |start| && b < |start| && PairSettled(tracking, start, reports, a, b)
    ensures PairSettled(tracking, start, reports + more, a, b)
  {
    forall i: nat, j: nat | (i, j) in Candidates(tracking, start[a], start[b])
      ensures InReport(reports + more, a, i) || InReport(reports + more, b, j)
    {
      InMoreReports(reports, more, a, i);
      InMoreReports(reports, more, b, j);
    }
  }

  lemma {:induction false} RunStep(tracking: bool, start: seq<Footprint>, now: seq<Footprint>, next: seq<Footprint>,
      reports: Reports, pairs: Pairs, a: nat, b: nat)
    requires RunUpTo(tracking, start, now, reports, a, b)
    requires a < |now| && b < |now| && Compared(now, next, Candidates(tracking, now[a], now[b]), pairs, a, b)
    ensures RunUpTo(tracking, start, next, reports + Lift(pairs, a, b), a, b + 1)
  {
    var more := Lift(pairs, a, b);
    var cand := Candidates(tracking, now[a], now[b]);
    ComparisonKeepsRun(start, now, next, reports, cand, pairs, a, b);
    if tracking && NoLockCandidates(start) {
      forall r | r in more
        ensures !IsLock(start[r.a][r.i]) && !IsLock(start[r.b][r.j])
      {
        LiftedAreNew(start, now, next, reports, cand, pairs, a, b, r);
        LaterCandidates(tracking, start, now, reports, a, b, r.i, r.j);
      }
    }
    if Undisturbed(tracking, start, reports + more) {
      assert Undisturbed(tracking, start, reports);
      forall r | r in more
        ensures (r.i, r.j) in Candidates(tracking, start[r.a], start[r.b])
      {
        LiftedAreNew(start, now, next, reports, cand, pairs, a, b, r);
        LaterCandidates(tracking, start, now, reports, a, b, r.i, r.j);
      }
      ComparisonSettles(tracking, start, now, next, reports, pairs, a, b);
      forall c: nat, d: nat | c < |start| && d < |start| && c != d && (c < a || (c == a && d < b))
        ensures PairSettled(tracking, start, reports + more, c, d)
      {
        OldPairsStaySettled(tracking, start, reports, more, c, d);
      }
    }
  }

  /** Two locks that would be reported together at the start: one of them is reported in the end. */
  lemma {:induction false} LockPairIsReported(start: seq<Footprint>, now: seq<Footprint>, reports: Reports)
    requires RunUpTo(true, start, now, reports, |start|, 0) && NoLockReported(start, reports)
    ensures NoLockPairs(start)
  {
    forall a: nat, b: nat, i: nat, j: nat |
      a < |start| && b < |start| && a != b && (i, j) in BadOverlaps(start[a], start[b])
      ensures !LockAt(start[a], i) || !LockAt(start[b], j)
    {
      assert PairSettled(true, start, reports, a, b);
      assert (i, j) in Candidates(true, start[a], start[b]);
      NoLockAt(start, reports, a, i);
      NoLockAt(start, reports, b, j);
    }
  }

  lemma {:induction false} NoLockAt(start: seq<Footprint>, reports: Reports, f: nat, k: nat)
    requires AllGenuine(start, reports) && NoLockReported(start, reports) && f < |start|
    ensures InReport(reports, f, k) ==> !LockAt(start[f], k)
  {
    if InReport(reports, f, k) {
      var r :| r in reports && Touches(r, f, k);
      assert Genuine(start, r);
    }
  }

  // ----- the run, comparison by comparison -----

  /** A run begins with the footprints as built; every comparison reports pairs of entries of two
      functions and leaves new footprints. */
  datatype Run =
    | Begin(start: seq<Footprint>)
    | Compare(before: Run, a: nat, b: nat, pairs: Pairs, after: seq<Footprint>)

  function StartOf(run: Run): seq<Footprint> {
    match run
    case Begin(start) => start
    case Compare(before, _, _, _, _) => StartOf(before)
  }

  function NowOf(run: Run): seq<Footprint> {
    match run
    case Begin(start) => start
    case Compare(_, _, _, _, after) => after
  }

  function ReportsOf(run: Run): Reports {
    match run
    case Begin(_) => []
    case Compare(before, a, b, pairs, _) => ReportsOf(before) + Lift(pairs, a, b)
  }

  ghost predicate ComparesAt(tracking: bool, run: Run, a: nat, b: nat) {
    && run.Compare? && run.a == a && run.b == b
    && var now := NowOf(run.before);
       a < |now| && b < |now| && Compared(now, run.after, Candidates(tracking, now[a], now[b]), run.pairs, a, b)
  }

  /** The run compares the ordered pairs of different functions, of which there are n, row by row up
      to (m, k). */
  ghost predicate RunsTo(tracking: bool, run: Run, n: nat, m: nat, k: nat)
    decreases m, k
  {
    if k > 0 && m != k - 1 then ComparesAt(tracking, run, m, k - 1) && RunsTo(tracking, run.before, n, m, k - 1)
    else if k > 0 then RunsTo(tracking, run, n, m, k - 1)
    else if m > 0 then RunsTo(tracking, run, n, m - 1, n)
    else run.Begin? && |run.start| == n
  }

  /** The run meets its invariant at (m, k). */
  ghost predicate Meets(tracking: bool, run: Run, m: nat, k: nat) {
    RunUpTo(tracking, StartOf(run), NowOf(run), ReportsOf(run), m, k)
  }

  lemma {:induction false} BeginMeets(tracking: bool, run: Run)
    requires run.Begin?
    ensures Meets(tracking, run, 0, 0)
  {
  }

  lemma {:induction false} PositionMovesOn(tracking: bool, run: Run, m: nat)
    ensures Meets(tracking, run, m, m) ==> Meets(tracking, run, m, m + 1)
    ensures Meets(tracking, run, m, |StartOf(run)|) ==> Meets(tracking, run, m + 1, 0)
  {
  }

  lemma {:induction false} ComparisonMovesOn(tracking: bool, run: Run, m: nat, k: nat)
    requires ComparesAt(tracking, run, m, k) && Meets(tracking, run.before, m, k)
    ensures Meets(tracking, run, m, k + 1)
  {
    RunStep(tracking, StartOf(run), NowOf(run.before), run.after, ReportsOf(run.before), run.pairs, m, k);
  }

  /** A run, taken back comparison by comparison, meets its invariant. */
  lemma {:induction false} RunMeetsInvariant(tracking: bool, run: Run, n: nat, m: nat, k: nat)
    requires RunsTo(tracking, run, n, m, k) && k <= n
    ensures |StartOf(run)| == n && Meets(tracking, run, m, k)
    decreases m, k
  {
    hide Meets;
    if k > 0 && m != k - 1 {
      RunMeetsInvariant(tracking, run.before, n, m, k - 1);
      ComparisonMovesOn(tracking, run, m, k - 1);
    } else if k > 0 {
      RunMeetsInvariant(tracking, run, n, m, k - 1);
      PositionMovesOn(tracking, run, m);
    } else if m > 0 {
      RunMeetsInvariant(tracking, run, n, m - 1, n);
      PositionMovesOn(tracking, run, m - 1);
    } else {
      BeginMeets(tracking, run);
    }
  }

  /** Every report is of two live entries of one variable, no entry is reported twice, and exactly the
      reported entries are nulled. Without lock tracking, or as long as no lock entry is reported, all
      candidates of the original footprints are settled and nothing else is reported. No lock entry is
      reported if the original footprints have no candidates with a lock, and only if they have none
      with two. */
  ghost predicate Concludes(tracking: bool, start: seq<Footprint>, now: seq<Footprint>, reports: Reports) {
    && RunState(start, now, reports)
    && (Undisturbed(tracking, start, reports) ==>
          OnlyCandidates(tracking, start, reports) && SettledUpTo(tracking, start, reports, |start|, 0))
    && (tracking && NoLockCandidates(start) ==>
          && NoLockReported(start, reports)
          && OnlyCandidates(tracking, start, reports) && SettledUpTo(tracking, start, reports, |start|, 0))
    && (tracking && NoLockReported(start, reports) ==> NoLockPairs(start))
  }

  lemma {:induction false} RunConcludes(tracking: bool, run: Run, n: nat)
    requires RunsTo(tracking, run, n, n, 0)
    ensures Concludes(tracking, StartOf(run), NowOf(run), ReportsOf(run))
  {
    RunMeetsInvariant(tracking, run, n, n, 0);
    if tracking && NoLockReported(StartOf(run), ReportsOf(run)) {
      LockPairIsReported(StartOf(run), NowOf(run), ReportsOf(run));
    }
  }

  /** Before the comparison (m, k). */
  ghost predicate Records(tracking: bool, run: Run, start: seq<Footprint>, now: seq<Footprint>, reports: Reports,
      m: nat, k: nat)
  {
    RunsTo(tracking, run, |start|, m, k) && StartOf(run) == start && NowOf(run) == now && ReportsOf(run) == reports
  }

  ghost function Snapshot(funcs: seq<array<VarAccess>>): (s: seq<Footprint>)
    reads funcs
    ensures |s| == |funcs| && forall f: nat :: f < |funcs| ==> s[f] == funcs[f][..]
  {
    seq(|funcs|, f requires 0 <= f < |funcs| reads funcs => funcs[f][..])
  }

  method CompareTwo(funcs: seq<array<VarAccess>>, tracking: bool, a: nat, b: nat) returns (pairs: Pairs)
    requires forall f, g :: 0 <= f < g < |funcs| ==> funcs[f] != funcs[g]
    requires a < |funcs| && b < |funcs| && a != b
    requires tracking ==> EveryIfHasThen(funcs[a][..]) && EveryIfHasThen(funcs[b][..])
    modifies funcs[a], funcs[b]
    ensures Compared(old(Snapshot(funcs)), Snapshot(funcs),
              Candidates(tracking, old(funcs[a][..]), old(funcs[b][..])), pairs, a, b)
  {
    if tracking {
      var qualities;
      pairs, qualities := FindUnprotectedVa(funcs[a], funcs[b]);
    } else {
      pairs := FindVaOverlap(funcs[a], funcs[b]);
    }
  }

  method CompareNext(funcs: seq<array<VarAccess>>, tracking: bool, i: nat, j: nat, reported: Reports,
      ghost before: Run, ghost start: seq<Footprint>)
    returns (reports: Reports, ghost run: Run)
    requires forall f, g :: 0 <= f < g < |funcs| ==> funcs[f] != funcs[g]
    requires tracking ==> forall f :: 0 <= f < |start| ==> EveryIfHasThen(start[f])
    requires i < |funcs| && j < |funcs| && |start| == |funcs|
    requires Records(tracking, before, start, Snapshot(funcs), reported, i, j)
    modifies funcs[i], funcs[j]
    ensures Records(tracking, run, start, Snapshot(funcs), reports, i, j + 1)
  {
    if i == j {
      RecordsMoveOn(tracking, before, start, Snapshot(funcs), reported, i);
      return reported, before;
    }
    if tracking {
      RunMeetsInvariant(tracking, before, |funcs|, i, j);
      RunKeepsThens(start, Snapshot(funcs), reported, i);
      RunKeepsThens(start, Snapshot(funcs), reported, j);
    }
    var pairs := CompareTwo(funcs, tracking, i, j);
    run := Compare(before, i, j, pairs, Snapshot(funcs));
    reports := reported + Lift(pairs, i, j);
  }

  lemma {:induction false} RecordsMoveOn(tracking: bool, run: Run, start: seq<Footprint>, now: seq<Footprint>,
      reports: Reports, m: nat)
    ensures Records(tracking, run, start, now, reports, m, m) ==> Records(tracking, run, start, now, reports, m, m + 1)
    ensures Records(tracking, run, start, now, reports, m, |start|) ==>
        Records(tracking, run, start, now, reports, m + 1, 0)
  {
  }

  /** The inner loop: function i against all others. */
  method CompareRow(funcs: seq<array<VarAccess>>, tracking: bool, i: nat, reported: Reports,
      ghost before: Run, ghost start: seq<Footprint>)
    returns (reports: Reports, ghost run: Run)
    requires forall f, g :: 0 <= f < g < |funcs| ==> funcs[f] != funcs[g]
    requires tracking ==> forall f :: 0 <= f < |start| ==> EveryIfHasThen(start[f])
    requires i < |funcs| == |start|
    requires Records(tracking, before, start, Snapshot(funcs), reported, i, 0)
    modifies funcs
    ensures Records(tracking, run, start, Snapshot(funcs), reports, i + 1, 0)
  {
    hide RunsTo;
    reports, run := reported, before;
    for j := 0 to |funcs|
      invariant Records(tracking, run, start, Snapshot(funcs), reports, i, j)
    {
      reports, run := CompareNext(funcs, tracking, i, j, reports, run, start);
    }
    RecordsMoveOn(tracking, run, start, Snapshot(funcs), reports, i);
  }

  /** Compares all ordered pairs of different functions. */
  method CompareAll(funcs: seq<array<VarAccess>>, tracking: bool) returns (reports: Reports, ghost run: Run)
    requires forall f, g :: 0 <= f < g < |funcs| ==> funcs[f] != funcs[g]
    requires tracking ==> forall f :: 0 <= f < |funcs| ==> EveryIfHasThen(funcs[f][..])
    modifies funcs
    ensures Records(tracking, run, old(Snapshot(funcs)), Snapshot(funcs), reports, |funcs|, 0)
    ensures Concludes(tracking, old(Snapshot(funcs)), Snapshot(funcs), reports)
  {
    reports := [];
    ghost var start := Snapshot(funcs);
    run := Begin(start);
    for i := 0 to |funcs|
      invariant Records(tracking, run, start, Snapshot(funcs), reports, i, 0)
    {
      reports, run := CompareRow(funcs, tracking, i, reports, run, start);
    }
    RunConcludes(tracking, run, |funcs|);
  }

  /** Without lock tracking the run leaves no live entries of one variable in two functions. */
  lemma {:induction false} NoOverlapIsLeft(start: seq<Footprint>, now: seq<Footprint>, reports: Reports, a: nat, b: nat)
    requires RunUpTo(false, start, now, reports, |start|, 0) && a < |start| && b < |start| && a != b
    ensures Overlaps(now[a], now[b]) == {}
  {
    assert PairSettled(false, start, reports, a, b);
    forall i: nat, j: nat
      ensures (i, j) !in Overlaps(now[a], now[b])
    {
      LaterCandidates(false, start, now, reports, a, b, i, j);
    }
  }

  // ----- when a lock entry goes -----

  /** lock m; lock n */
  const TAKES_BOTH: Footprint := [Entry([1], LockAcquire), Entry([2], LockAcquire)]

  /** lock n; access x */
  const TAKES_INNER: Footprint := [Entry([2], LockAcquire), Entry([3], Read)]

  /** What is left of them when the entries on n have been reported. */
  const BOTH_BLANKED: Footprint := [Entry([1], LockAcquire), Entry([2], Null)]

  const INNER_BLANKED: Footprint := [Entry([2], Null), Entry([3], Read)]

  lemma {:induction false} LocksAreCandidates()
    ensures BadOverlaps(TAKES_BOTH, TAKES_INNER) == {(1, 0)}
  {
    AllPlain();
    BranchFreeUnprotected(TAKES_BOTH, TAKES_INNER, 1, 0);
    assert HeldAt(TAKES_BOTH, 1, 0);
    assert Hash([1]) in HeldHashes(TAKES_BOTH, 1);
    assert HeldHashes(TAKES_INNER, 0) == {};
  }

  lemma {:induction false} AccessesAreNoCandidates()
    ensures (1, 1) !in BadOverlaps(TAKES_INNER, TAKES_INNER)
  {
    AllPlain();
    BranchFreeUnprotected(TAKES_INNER, TAKES_INNER, 1, 1);
    assert IsAcquire(TAKES_INNER, 0);
  }

  lemma {:induction false} BlankedAreCandidates()
    ensures BadOverlaps(BOTH_BLANKED, TAKES_INNER) == BadOverlaps(INNER_BLANKED, BOTH_BLANKED) == {}
    ensures BadOverlaps(INNER_BLANKED, TAKES_INNER) == {(1, 1)}
  {
    AllPlain();
    BranchFreeUnprotected(INNER_BLANKED, TAKES_INNER, 1, 1);
    assert !TakesLocks(INNER_BLANKED);
  }

  /** A comparison with one candidate reports it, and one with none changes nothing. */
  lemma {:induction false} FewCandidates(now: seq<Footprint>, next: seq<Footprint>, cand: set<(nat, nat)>, pairs: Pairs,
      a: nat, b: nat, i: nat, j: nat)
    requires Compared(now, next, cand, pairs, a, b) && cand <= {(i, j)}
    ensures cand == {} ==> next == now
    ensures cand == {(i, j)} ==>
      Firsts(pairs) == {i} && Seconds(pairs) == {j} && Report(a, i, b, j) in Lift(pairs, a, b)
  {
    assert forall x: nat, y: nat :: (x, y) in pairs ==> (x, y) in cand;
    LiftedPair(pairs, a, b, i, j);
    TakenSets(pairs, i, j);
    if cand == {} {
      assert forall p :: p in pairs ==> (p.0, p.1) in cand;
      assert Firsts(pairs) == {} && Seconds(pairs) == {};
      assert forall f: nat :: f < |now| ==> next[f] == now[f];
    } else {
      assert !TakenFirst(pairs, i, j) && !TakenSecond(pairs, i, j);
      assert forall p :: p in pairs ==> p.0 == i && p.1 == j;
    }
  }

  /** Three functions: one takes m and n, the other two take n and access x. The first comparison
      reports the lock entries on n of the first two, since only one of them is taken under m. The
      second function has lost its lock then, and its access to x is reported against that of the
      third, with which it was not badly protected at the start. */
  lemma {:induction false} ReportedLockProtectsNoMore(run: Run)
    requires RunsTo(true, run, 3, 3, 0) && StartOf(run) == [TAKES_BOTH, TAKES_INNER, TAKES_INNER]
    ensures Report(0, 1, 1, 0) in ReportsOf(run) && Report(1, 1, 2, 1) in ReportsOf(run)
    ensures (1, 1) !in BadOverlaps(TAKES_INNER, TAKES_INNER)
  {
    AccessesAreNoCandidates();
    assert RunsTo(true, run, 3, 2, 3) && RunsTo(true, run, 3, 2, 2) && RunsTo(true, run.before, 3, 2, 1);
    assert RunsTo(true, run.before.before, 3, 2, 0);
    FourComparisons(run.before.before);
    assert Report(0, 1, 1, 0) in ReportsOf(run.before.before) && Report(1, 1, 2, 1) in ReportsOf(run.before.before);
  }

  lemma {:induction false} FirstComparison(run: Run)
    requires ComparesAt(true, run, 0, 1) && NowOf(run.before) == [TAKES_BOTH, TAKES_INNER, TAKES_INNER]
    ensures run.after == [BOTH_BLANKED, INNER_BLANKED, TAKES_INNER] && Report(0, 1, 1, 0) in Lift(run.pairs, 0, 1)
  {
    LocksAreCandidates();
    FewCandidates(NowOf(run.before), run.after, {(1, 0)}, run.pairs, 0, 1, 1, 0);
    assert run.after[0] == BOTH_BLANKED && run.after[1] == INNER_BLANKED && run.after[2] == TAKES_INNER;
  }

  lemma {:induction false} TwoComparisons(run: Run)
    requires RunsTo(true, run, 3, 1, 0) && StartOf(run) == [TAKES_BOTH, TAKES_INNER, TAKES_INNER]
    ensures NowOf(run) == [BOTH_BLANKED, INNER_BLANKED, TAKES_INNER]
    ensures Report(0, 1, 1, 0) in ReportsOf(run)
  {
    assert RunsTo(true, run, 3, 0, 3) && RunsTo(true, run.before, 3, 0, 2);
    var first := run.before;
    assert RunsTo(true, first.before, 3, 0, 1) && RunsTo(true, first.before, 3, 0, 0);
    assert NowOf(first.before) == StartOf(first.before) == StartOf(first) == StartOf(run);
    FirstComparison(first);
    BlankedAreCandidates();
    FewCandidates(first.after, run.after, {}, run.pairs, 0, 2, 0, 0);
  }

  lemma {:induction false} FourComparisons(run: Run)
    requires RunsTo(true, run, 3, 2, 0) && StartOf(run) == [TAKES_BOTH, TAKES_INNER, TAKES_INNER]
    ensures Report(0, 1, 1, 0) in ReportsOf(run) && Report(1, 1, 2, 1) in ReportsOf(run)
  {
    BlankedAreCandidates();
    assert RunsTo(true, run, 3, 1, 3) && RunsTo(true, run.before, 3, 1, 2) && RunsTo(true, run.before, 3, 1, 1);
    var third := run.before;
    assert RunsTo(true, third.before, 3, 1, 0);
    TwoComparisons(third.before);
    FewCandidates(NowOf(third.before), third.after, {}, third.pairs, 1, 0, 0, 0);
    FewCandidates(third.after, run.after, {(1, 1)}, run.pairs, 1, 2, 1, 1);
  }

  method ArrayOf(s: Footprint) returns (a: array<VarAccess>)
    ensures fresh(a) && a[..] == s
  {
    a := new VarAccess[|s|](i requires 0 <= i < |s| => s[i]);
  }

  /** And such a run there is. */
  method RunOverThree() returns (reports: Reports)
    ensures Report(0, 1, 1, 0) in reports && Report(1, 1, 2, 1) in reports
  {
    hide RunsTo, Concludes;
    var both := ArrayOf(TAKES_BOTH);
    var inner := ArrayOf(TAKES_INNER);
    var again := ArrayOf(TAKES_INNER);
    ghost var run;
    reports, run := CompareAll([both, inner, again], true);
    ReportedLockProtectsNoMore(run);
  }

  lemma {:induction false} AllPlain()
    ensures Plain(TAKES_BOTH) && Plain(TAKES_INNER) && IfFree(TAKES_INNER)
    ensures Plain(INNER_BLANKED)
  {
    assert [1 as byte] == [] + [1 as byte] + [] && [2 as byte] == [] + [2 as byte] + [];
    OneByteApartNeverCollide([], 1, 2, []);
  }
}
