/** Reporting pairs of accesses of two functions (src/core.c:986-1012, src/core.c:1095-1158). Both
    loops take entries off the footprints as they report them. What they print is returned here. */
module Reporting {
  import opened CIntegers
  import opened VarAccesses
  import opened LockTracking
  import opened LockRanges
  import opened LockHash
  import opened RangeInvariants
  import opened RangeQueries
  import opened Verdict

  predicate Live(v: VarAccess) {
    !IsPlaceholder(v.ty)
  }

  predicate SameVariable(v: VarAccess, w: VarAccess) {
    Live(v) && Live(w) && v.usr == w.usr
  }

  type Pairs = seq<(nat, nat)>

  ghost function Overlaps(a: Footprint, b: Footprint): set<(nat, nat)> {
    set i: nat, j: nat | i < |a| && j < |b| && SameVariable(a[i], b[j]) :: (i, j)
  }

  // ----- greedy matchings -----

  ghost predicate TakenFirst(pairs: Pairs, i: nat, j: nat) {
    exists y: nat :: y < j && (i, y) in pairs
  }

  ghost predicate TakenSecond(pairs: Pairs, i: nat, j: nat) {
    exists x: nat :: x < i && (x, j) in pairs
  }

  /** Of the candidates before (m, n) in row order exactly those are reported neither of whose
      entries was reported before. */
  ghost predicate GreedyUpTo(cand: set<(nat, nat)>, pairs: Pairs, m: nat, n: nat) {
    forall i: nat, j: nat :: (i, j) in pairs <==>
      ((i < m || (i == m && j < n)) && (i, j) in cand && !TakenFirst(pairs, i, j) && !TakenSecond(pairs, i, j))
  }

  /** The greedy matching of the candidates: a candidate is reported unless one of its entries was
      reported with an earlier partner. */
  ghost predicate GreedyMatching(cand: set<(nat, nat)>, pairs: Pairs) {
    && NoRepeats(pairs)
    && forall i: nat, j: nat :: (i, j) in pairs <==>
         ((i, j) in cand && !TakenFirst(pairs, i, j) && !TakenSecond(pairs, i, j))
  }

  ghost predicate NoRepeats(pairs: Pairs) {
    forall k, l :: 0 <= k < l < |pairs| ==> pairs[k] != pairs[l]
  }

  ghost predicate InFirst(pairs: Pairs, i: nat) {
    exists j: nat :: (i, j) in pairs
  }

  ghost predicate InSecond(pairs: Pairs, j: nat) {
    exists i: nat :: (i, j) in pairs
  }

  /** A greedy matching is a maximal matching. */
  lemma {:induction false} GreedyIsMaximalMatching(cand: set<(nat, nat)>, pairs: Pairs)
    requires GreedyMatching(cand, pairs)
    ensures forall i: nat, j: nat, k: nat :: (i, j) in pairs && (i, k) in pairs ==> j == k
    ensures forall i: nat, j: nat, k: nat :: (i, j) in pairs && (k, j) in pairs ==> i == k
    ensures forall i: nat, j: nat :: (i, j) in cand ==> InFirst(pairs, i) || InSecond(pairs, j)
  {
    forall i: nat, j: nat, k: nat | (i, j) in pairs && (i, k) in pairs && j < k
      ensures false
    {
      assert TakenFirst(pairs, i, k);
    }
    forall i: nat, j: nat, k: nat | (i, j) in pairs && (k, j) in pairs && i < k
      ensures false
    {
      assert TakenSecond(pairs, k, j);
    }
    forall i: nat, j: nat | (i, j) in cand
      ensures InFirst(pairs, i) || InSecond(pairs, j)
    {
      if !TakenFirst(pairs, i, j) && !TakenSecond(pairs, i, j) {
        assert (i, j) in pairs;
      }
    }
  }

  lemma {:induction false} GreedyStep(cand: set<(nat, nat)>, pairs: Pairs, i: nat, j: nat, next: Pairs)
    requires GreedyUpTo(cand, pairs, i, j) && NoRepeats(pairs)
    requires next == if (i, j) in cand && !InFirst(pairs, i) && !InSecond(pairs, j) then pairs + [(i, j)] else pairs
    ensures GreedyUpTo(cand, next, i, j + 1) && NoRepeats(next)
  {
    assert InFirst(pairs, i) <==> TakenFirst(pairs, i, j);
    assert InSecond(pairs, j) <==> TakenSecond(pairs, i, j);
    forall x: nat, y: nat | x < i || (x == i && y <= j)
      ensures TakenFirst(next, x, y) <==> TakenFirst(pairs, x, y)
      ensures TakenSecond(next, x, y) <==> TakenSecond(pairs, x, y)
    {
      if TakenFirst(next, x, y) {
        var z: nat :| z < y && (x, z) in next;
        assert (x, z) in pairs;
      }
      if TakenSecond(next, x, y) {
        var z: nat :| z < x && (z, y) in next;
        assert (z, y) in pairs;
      }
      assert forall p :: p in pairs ==> p in next;
    }
  }

  // ----- which entries are reported -----

  ghost predicate SharedAccess(a: Footprint, b: Footprint, i: nat, j: nat) {
    i < |a| && j < |b| && a[i].usr == b[j].usr && IsAccess(a[i].ty) && IsAccess(b[j].ty)
  }

  ghost predicate OnlySharedAccesses(a: Footprint, b: Footprint, pairs: Pairs) {
    forall i: nat, j: nat :: (i, j) in pairs ==> SharedAccess(a, b, i, j)
  }

  lemma {:induction false} OverlapsAreShared(a: Footprint, b: Footprint)
    ensures forall i: nat, j: nat :: (i, j) in Overlaps(a, b) <==> SharedAccess(a, b, i, j)
  {
    forall i: nat, j: nat | i < |a| && j < |b|
      ensures SameVariable(a[i], b[j]) <==> SharedAccess(a, b, i, j)
    {
      AccessesAreNoPlaceholders(a[i].ty);
      AccessesAreNoPlaceholders(b[j].ty);
    }
  }

  /** Without lock tracking every shared access is reported, at one end at least, and nothing else. */
  lemma {:induction false} SharedAccessesAreReported(a: Footprint, b: Footprint, pairs: Pairs)
    requires GreedyMatching(Overlaps(a, b), pairs)
    ensures forall i: nat, j: nat :: SharedAccess(a, b, i, j) ==> InFirst(pairs, i) || InSecond(pairs, j)
    ensures OnlySharedAccesses(a, b, pairs)
  {
    OverlapsAreShared(a, b);
    GreedyIsMaximalMatching(Overlaps(a, b), pairs);
  }

  // ----- what the loops do to the footprints -----

  ghost predicate Nullified(was: Footprint, now: Footprint, taken: set<nat>) {
    |now| == |was| && forall i: nat :: i < |was| ==> now[i] == if i in taken then was[i].(ty := Null) else was[i]
  }

  ghost function Firsts(pairs: Pairs): set<nat> {
    set p | p in pairs :: p.0
  }

  ghost function Seconds(pairs: Pairs): set<nat> {
    set p | p in pairs :: p.1
  }

  lemma {:induction false} TakenSets(pairs: Pairs, i: nat, j: nat)
    ensures i in Firsts(pairs) <==> InFirst(pairs, i)
    ensures j in Seconds(pairs) <==> InSecond(pairs, j)
    ensures Firsts(pairs + [(i, j)]) == Firsts(pairs) + {i}
    ensures Seconds(pairs + [(i, j)]) == Seconds(pairs) + {j}
  {
    if i in Firsts(pairs) {
      var p :| p in pairs && p.0 == i;
      assert (i, p.1) in pairs;
    }
    if j in Seconds(pairs) {
      var p :| p in pairs && p.1 == j;
      assert (p.0, j) in pairs;
    }
    var next := pairs + [(i, j)];
    assert (i, j) in next;
    assert forall p :: p in next <==> p in pairs || p == (i, j);
  }

  /** The state of either double loop before (i, j): what has been reported, and the two footprints. */
  ghost predicate Progress(a0: Footprint, b0: Footprint, cand: set<(nat, nat)>, pairs: Pairs,
      a: Footprint, b: Footprint, i: nat, j: nat)
  {
    && GreedyUpTo(cand, pairs, i, j)
    && NoRepeats(pairs)
    && Nullified(a0, a, Firsts(pairs))
    && Nullified(b0, b, Seconds(pairs))
  }

  lemma {:induction false} StillOverlap(a0: Footprint, b0: Footprint, cand: set<(nat, nat)>, pairs: Pairs,
      a: Footprint, b: Footprint, i: nat, j: nat)
    requires Progress(a0, b0, cand, pairs, a, b, i, j) && i < |a0| && j < |b0|
    ensures SameVariable(a[i], b[j]) <==> (i, j) in Overlaps(a0, b0) && !InFirst(pairs, i) && !InSecond(pairs, j)
  {
    TakenSets(pairs, i, j);
  }

  lemma {:induction false} ProgressSkips(a0: Footprint, b0: Footprint, cand: set<(nat, nat)>, pairs: Pairs,
      a: Footprint, b: Footprint, i: nat, j: nat)
    requires Progress(a0, b0, cand, pairs, a, b, i, j)
    requires (i, j) in cand ==> InFirst(pairs, i) || InSecond(pairs, j)
    ensures Progress(a0, b0, cand, pairs, a, b, i, j + 1)
  {
    GreedyStep(cand, pairs, i, j, pairs);
  }

  lemma {:induction false} ProgressReports(a0: Footprint, b0: Footprint, cand: set<(nat, nat)>, pairs: Pairs,
      a: Footprint, b: Footprint, i: nat, j: nat)
    requires Progress(a0, b0, cand, pairs, a, b, i, j) && i < |a| && j < |b|
    requires (i, j) in cand && !InFirst(pairs, i) && !InSecond(pairs, j)
    ensures Progress(a0, b0, cand, pairs + [(i, j)], a[i := a[i].(ty := Null)], b[j := b[j].(ty := Null)], i, j + 1)
  {
    GreedyStep(cand, pairs, i, j, pairs + [(i, j)]);
    TakenSets(pairs, i, j);
  }

  lemma {:induction false} NextRow(a0: Footprint, b0: Footprint, cand: set<(nat, nat)>, pairs: Pairs,
      a: Footprint, b: Footprint, i: nat)
    requires Progress(a0, b0, cand, pairs, a, b, i, |b0|) && cand <= Overlaps(a0, b0)
    ensures Progress(a0, b0, cand, pairs, a, b, i + 1, 0)
  {
  }

  lemma {:induction false} LastRow(a0: Footprint, b0: Footprint, cand: set<(nat, nat)>, pairs: Pairs, a: Footprint,
      b: Footprint)
    requires Progress(a0, b0, cand, pairs, a, b, |a0|, 0) && cand <= Overlaps(a0, b0)
    ensures GreedyMatching(cand, pairs)
  {
  }

  method FindVaOverlap(a: array<VarAccess>, b: array<VarAccess>) returns (pairs: Pairs)
    requires a != b
    modifies a, b
    ensures GreedyMatching(Overlaps(old(a[..]), old(b[..])), pairs)
    ensures OnlySharedAccesses(old(a[..]), old(b[..]), pairs)
    ensures forall i: nat, j: nat :: SharedAccess(old(a[..]), old(b[..]), i, j) ==>
      InFirst(pairs, i) || InSecond(pairs, j)
    ensures Nullified(old(a[..]), a[..], Firsts(pairs)) && Nullified(old(b[..]), b[..], Seconds(pairs))
  {
    ghost var a0, b0 := a[..], b[..];
    ghost var cand := Overlaps(a0, b0);
    pairs := [];
    for i := 0 to a.Length
      invariant Progress(a0, b0, cand, pairs, a[..], b[..], i, 0)
    {
      for j := 0 to b.Length
        invariant Progress(a0, b0, cand, pairs, a[..], b[..], i, j)
      {
        StillOverlap(a0, b0, cand, pairs, a[..], b[..], i, j);
        if !IsPlaceholder(a[i].ty) && !IsPlaceholder(b[j].ty) && a[i].usr == b[j].usr {
          ProgressReports(a0, b0, cand, pairs, a[..], b[..], i, j);
          pairs := pairs + [(i, j)];
          a[i] := a[i].(ty := Null);
          b[j] := b[j].(ty := Null);
        } else {
          ProgressSkips(a0, b0, cand, pairs, a[..], b[..], i, j);
        }
      }
      NextRow(a0, b0, cand, pairs, a[..], b[..], i);
    }
    LastRow(a0, b0, cand, pairs, a[..], b[..]);
    SharedAccessesAreReported(a0, b0, pairs);
  }

  // ----- what one call of find_va_overlap amounts to -----

  /** The live entries of s[..n] for variable u, in order. */
  function LiveAt(s: Footprint, u: CString, n: nat): (r: seq<nat>)
    requires n <= |s|
    ensures forall i: nat :: i in r <==> i < n && Live(s[i]) && s[i].usr == u
    ensures forall k :: 0 <= k < |r| ==> r[k] < n
    ensures forall k, l :: 0 <= k < l < |r| ==> r[k] < r[l]
  {
    if n == 0 then []
    else if Live(s[n - 1]) && s[n - 1].usr == u then LiveAt(s, u, n - 1) + [n - 1]
    else LiveAt(s, u, n - 1)
  }

  function AllLive(s: Footprint, u: CString): seq<nat> {
    LiveAt(s, u, |s|)
  }

  function Min(x: nat, y: nat): nat {
    if x < y then x else y
  }

  /** The k-th live entry for u in a is reported with the k-th in b. */
  lemma {:induction false} KthWithKth(a: Footprint, b: Footprint, pairs: Pairs, u: CString, k: nat)
    requires GreedyMatching(Overlaps(a, b), pairs)
    requires k < |AllLive(a, u)| && k < |AllLive(b, u)|
    ensures (AllLive(a, u)[k], AllLive(b, u)[k]) in pairs
    decreases k
  {
    var la, lb := AllLive(a, u), AllLive(b, u);
    var i, j := la[k], lb[k];
    assert i in la && j in lb;
    assert (i, j) in Overlaps(a, b);
    GreedyIsMaximalMatching(Overlaps(a, b), pairs);
    if TakenFirst(pairs, i, j) {
      var y: nat :| y < j && (i, y) in pairs;
      var m := EarlierLive(b, u, y, k);
      KthWithKth(a, b, pairs, u, m);
    }
    if TakenSecond(pairs, i, j) {
      var x: nat :| x < i && (x, j) in pairs;
      var m := EarlierLive(a, u, x, k);
      KthWithKth(a, b, pairs, u, m);
    }
  }

  lemma {:induction false} EarlierLive(s: Footprint, u: CString, y: nat, k: nat) returns (m: nat)
    requires k < |AllLive(s, u)| && y < AllLive(s, u)[k] && y < |s| && Live(s[y]) && s[y].usr == u
    ensures m < k && AllLive(s, u)[m] == y
  {
    var l := AllLive(s, u);
    assert y in l;
    m :| 0 <= m < |l| && l[m] == y;
  }

  ghost function ReportedFor(a: Footprint, pairs: Pairs, u: CString): set<(nat, nat)> {
    set p | p in pairs && p.0 < |a| && a[p.0].usr == u
  }

  /** The first n elements of both sequences, paired. */
  ghost function Zip(la: seq<nat>, lb: seq<nat>, n: nat): set<(nat, nat)>
    requires n <= |la| && n <= |lb|
  {
    if n == 0 then {} else Zip(la, lb, n - 1) + {(la[n - 1], lb[n - 1])}
  }

  lemma {:induction false} ZipHas(la: seq<nat>, lb: seq<nat>, n: nat, k: nat)
    requires k < n <= |la| && n <= |lb|
    ensures (la[k], lb[k]) in Zip(la, lb, n)
  {
    if k < n - 1 {
      ZipHas(la, lb, n - 1, k);
    }
  }

  lemma {:induction false} ZipOnly(la: seq<nat>, lb: seq<nat>, n: nat, p: (nat, nat)) returns (k: nat)
    requires n <= |la| && n <= |lb| && p in Zip(la, lb, n)
    ensures k < n && p == (la[k], lb[k])
  {
    if p == (la[n - 1], lb[n - 1]) {
      k := n - 1;
    } else {
      k := ZipOnly(la, lb, n - 1, p);
    }
  }

  lemma {:induction false} ZipCounts(la: seq<nat>, lb: seq<nat>, n: nat)
    requires n <= |la| && n <= |lb| && forall k, l :: 0 <= k < l < |la| ==> la[k] < la[l]
    ensures |Zip(la, lb, n)| == n
  {
    if n > 0 {
      ZipCounts(la, lb, n - 1);
      if (la[n - 1], lb[n - 1]) in Zip(la, lb, n - 1) {
        var k := ZipOnly(la, lb, n - 1, (la[n - 1], lb[n - 1]));
      }
    }
  }

  lemma {:induction false} KthIsReported(a: Footprint, b: Footprint, pairs: Pairs, u: CString, k: nat)
    requires GreedyMatching(Overlaps(a, b), pairs)
    requires k < |AllLive(a, u)| && k < |AllLive(b, u)|
    ensures (AllLive(a, u)[k], AllLive(b, u)[k]) in ReportedFor(a, pairs, u)
  {
    KthWithKth(a, b, pairs, u, k);
    assert AllLive(a, u)[k] in AllLive(a, u);
  }

  lemma {:induction false} OnlyKthWithKth(a: Footprint, b: Footprint, pairs: Pairs, u: CString, p: (nat, nat))
    requires GreedyMatching(Overlaps(a, b), pairs) && p in ReportedFor(a, pairs, u)
    ensures var la, lb := AllLive(a, u), AllLive(b, u);
            p in Zip(la, lb, Min(|la|, |lb|))
  {
    var la, lb := AllLive(a, u), AllLive(b, u);
    assert (p.0, p.1) in Overlaps(a, b);
    assert p.0 in la && p.1 in lb;
    var x: nat :| x < |la| && la[x] == p.0;
    var y: nat :| y < |lb| && lb[y] == p.1;
    GreedyIsMaximalMatching(Overlaps(a, b), pairs);
    if x < |lb| {
      KthWithKth(a, b, pairs, u, x);
      ZipHas(la, lb, Min(|la|, |lb|), x);
    } else {
      KthWithKth(a, b, pairs, u, y);
    }
  }

  lemma {:induction false} ZipIsReported(a: Footprint, b: Footprint, pairs: Pairs, u: CString, n: nat)
    requires GreedyMatching(Overlaps(a, b), pairs)
    requires n <= |AllLive(a, u)| && n <= |AllLive(b, u)|
    ensures Zip(AllLive(a, u), AllLive(b, u), n) <= ReportedFor(a, pairs, u)
  {
    forall p | p in Zip(AllLive(a, u), AllLive(b, u), n)
      ensures p in ReportedFor(a, pairs, u)
    {
      var k := ZipOnly(AllLive(a, u), AllLive(b, u), n, p);
      KthIsReported(a, b, pairs, u, k);
    }
  }

  /** For every variable one call reports its live entries of a and of b first with first, second
      with second and so on, until either side runs out: min(count in a, count in b) pairs. */
  lemma {:induction false} OverlapCount(a: Footprint, b: Footprint, pairs: Pairs, u: CString)
    requires GreedyMatching(Overlaps(a, b), pairs)
    ensures var la, lb := AllLive(a, u), AllLive(b, u);
            && ReportedFor(a, pairs, u) == Zip(la, lb, Min(|la|, |lb|))
            && |ReportedFor(a, pairs, u)| == Min(|la|, |lb|)
  {
    var la, lb := AllLive(a, u), AllLive(b, u);
    var n := Min(|la|, |lb|);
    ZipIsReported(a, b, pairs, u, n);
    forall p | p in ReportedFor(a, pairs, u)
      ensures p in Zip(la, lb, n)
    {
      OnlyKthWithKth(a, b, pairs, u, p);
    }
    assert ReportedFor(a, pairs, u) == Zip(la, lb, n);
    ZipCounts(la, lb, n);
  }

  /** A second call finds nothing more. */
  lemma {:induction false} NothingLeftToReport(a: Footprint, b: Footprint, a': Footprint, b': Footprint, pairs: Pairs)
    requires GreedyMatching(Overlaps(a, b), pairs)
    requires Nullified(a, a', Firsts(pairs)) && Nullified(b, b', Seconds(pairs))
    ensures Overlaps(a', b') == {}
  {
    GreedyIsMaximalMatching(Overlaps(a, b), pairs);
    forall i: nat, j: nat | i < |a'| && j < |b'| && SameVariable(a'[i], b'[j])
      ensures false
    {
      assert (i, j) in Overlaps(a, b);
      TakenSets(pairs, i, j);
    }
  }

  // ----- find_unprotected_va -----

  /** The verdicts are pinned down by the two arrays. */
  ghost function VerdictOf(fa: seq<LpField>, fb: seq<LpField>, i: nat, j: nat): SharedProtectionQuality {
    if Judged(fa, fb, i, j, Protected) then Protected
    else if Judged(fa, fb, i, j, Unprotected) then Unprotected
    else Uncertain
  }

  lemma {:induction false} OneVerdict(fa: seq<LpField>, fb: seq<LpField>, i: nat, j: nat, q: SharedProtectionQuality)
    requires Judged(fa, fb, i, j, q)
    ensures q == VerdictOf(fa, fb, i, j)
  {
  }

  /** A pair is reported unless both functions take locks and the verdict is Protected. */
  ghost predicate BadlyProtected(fa: seq<LpField>, fb: seq<LpField>, i: nat, j: nat) {
    !VerdictOf(fa, fb, i, j).Protected? || fa == [] || fb == []
  }

  ghost function BadOverlaps(a: Footprint, b: Footprint): set<(nat, nat)> {
    set p | p in Overlaps(a, b) && BadlyProtected(Index(a), Index(b), p.0, p.1)
  }

  /** With lock tracking it is the badly protected ones. */
  lemma {:induction false} BadlyProtectedAreReported(a: Footprint, b: Footprint, pairs: Pairs)
    requires GreedyMatching(BadOverlaps(a, b), pairs)
    ensures forall i: nat, j: nat :: SharedAccess(a, b, i, j) && BadlyProtected(Index(a), Index(b), i, j) ==>
      InFirst(pairs, i) || InSecond(pairs, j)
    ensures OnlySharedAccesses(a, b, pairs)
    ensures forall i: nat, j: nat :: (i, j) in pairs ==> BadlyProtected(Index(a), Index(b), i, j)
  {
    OverlapsAreShared(a, b);
    GreedyIsMaximalMatching(BadOverlaps(a, b), pairs);
    forall i: nat, j: nat | SharedAccess(a, b, i, j) && BadlyProtected(Index(a), Index(b), i, j)
      ensures InFirst(pairs, i) || InSecond(pairs, j)
    {
      assert (i, j) in Overlaps(a, b);
      assert (i, j) in BadOverlaps(a, b);
    }
  }

  ghost predicate QualitiesMatch(a: Footprint, b: Footprint, pairs: Pairs, qualities: seq<SharedProtectionQuality>) {
    && |qualities| == |pairs|
    && forall k :: 0 <= k < |pairs| ==> qualities[k] == VerdictOf(Index(a), Index(b), pairs[k].0, pairs[k].1)
  }

  method BadProtection(fieldsA: ProtectionFieldArray, fieldsB: ProtectionFieldArray, i: nat, j: nat)
    returns (bad: bool, protLevel: SharedProtectionQuality)
    requires fieldsA.Valid() && fieldsB.Valid()
    ensures protLevel == VerdictOf(fieldsA.lpFields, fieldsB.lpFields, i, j)
    ensures bad <==> BadlyProtected(fieldsA.lpFields, fieldsB.lpFields, i, j)
  {
    protLevel := MatchingProtectionFieldArrays(fieldsA, fieldsB, i, j);
    OneVerdict(fieldsA.lpFields, fieldsB.lpFields, i, j, protLevel);
    bad := !protLevel.Protected? || |fieldsA.lpFields| == 0 || |fieldsB.lpFields| == 0;
  }

  method FindUnprotectedVa(a: array<VarAccess>, b: array<VarAccess>)
    returns (pairs: Pairs, qualities: seq<SharedProtectionQuality>)
    requires a != b && EveryIfHasThen(a[..]) && EveryIfHasThen(b[..])
    modifies a, b
    ensures GreedyMatching(BadOverlaps(old(a[..]), old(b[..])), pairs)
    ensures OnlySharedAccesses(old(a[..]), old(b[..]), pairs)
    ensures forall i: nat, j: nat | SharedAccess(old(a[..]), old(b[..]), i, j) ::
      BadlyProtected(Index(old(a[..])), Index(old(b[..])), i, j) ==> InFirst(pairs, i) || InSecond(pairs, j)
    ensures Nullified(old(a[..]), a[..], Firsts(pairs)) && Nullified(old(b[..]), b[..], Seconds(pairs))
    ensures QualitiesMatch(old(a[..]), old(b[..]), pairs, qualities)
  {
    ghost var a0, b0 := a[..], b[..];
    var fieldsA := new ProtectionFieldArray();
    var fieldsB := new ProtectionFieldArray();
    AnnotateLockProtectionRanges(a[..], fieldsA);
    AnnotateLockProtectionRanges(b[..], fieldsB);
    ghost var cand := BadOverlaps(a0, b0);
    pairs, qualities := [], [];
    for i := 0 to a.Length
      invariant fieldsA.Valid() && fieldsB.Valid() && fieldsA.lpFields == Index(a0) && fieldsB.lpFields == Index(b0)
      invariant Progress(a0, b0, cand, pairs, a[..], b[..], i, 0)
      invariant QualitiesMatch(a0, b0, pairs, qualities)
    {
      pairs, qualities := ReportRow(a, b, fieldsA, fieldsB, i, pairs, qualities, a0, b0);
    }
    LastRow(a0, b0, cand, pairs, a[..], b[..]);
    BadlyProtectedAreReported(a0, b0, pairs);
  }

  /** The inner loop: entry i of the first function against all of the second. */
  method ReportRow(a: array<VarAccess>, b: array<VarAccess>, fieldsA: ProtectionFieldArray,
      fieldsB: ProtectionFieldArray,
      i: nat, reported: Pairs, judged: seq<SharedProtectionQuality>, ghost a0: Footprint, ghost b0: Footprint)
    returns (pairs: Pairs, qualities: seq<SharedProtectionQuality>)
    requires a != b && i < a.Length == |a0| && b.Length == |b0|
    requires fieldsA.Valid() && fieldsB.Valid() && fieldsA.lpFields == Index(a0) && fieldsB.lpFields == Index(b0)
    requires Progress(a0, b0, BadOverlaps(a0, b0), reported, a[..], b[..], i, 0)
    requires QualitiesMatch(a0, b0, reported, judged)
    modifies a, b
    ensures Progress(a0, b0, BadOverlaps(a0, b0), pairs, a[..], b[..], i + 1, 0)
    ensures QualitiesMatch(a0, b0, pairs, qualities)
  {
    ghost var cand := BadOverlaps(a0, b0);
    pairs, qualities := reported, judged;
    for j := 0 to b.Length
      invariant Progress(a0, b0, cand, pairs, a[..], b[..], i, j)
      invariant QualitiesMatch(a0, b0, pairs, qualities)
    {
      StillOverlap(a0, b0, cand, pairs, a[..], b[..], i, j);
      var bad := false;
      if !IsPlaceholder(a[i].ty) && !IsPlaceholder(b[j].ty) && a[i].usr == b[j].usr {
        var protLevel;
        bad, protLevel := BadProtection(fieldsA, fieldsB, i, j);
        if bad {
          ProgressReports(a0, b0, cand, pairs, a[..], b[..], i, j);
          pairs, qualities := pairs + [(i, j)], qualities + [protLevel];
          a[i] := a[i].(ty := Null);
          b[j] := b[j].(ty := Null);
        }
      }
      if !bad {
        ProgressSkips(a0, b0, cand, pairs, a[..], b[..], i, j);
      }
    }
    NextRow(a0, b0, cand, pairs, a[..], b[..], i);
  }

  // ----- what find_unprotected_va reports, in terms of locks -----

  lemma {:induction false} SomeVerdictFits(fa: seq<LpField>, fb: seq<LpField>, i: nat, j: nat)
    ensures Judged(fa, fb, i, j, VerdictOf(fa, fb, i, j))
  {
    var activeA, activeB := Active(fa, i), Active(fb, j);
    forall k | k in activeA && HasHashBeforeCut(fb, activeB, fa[k].lockObjHash)
      ensures HasHash(fb, activeB, fa[k].lockObjHash)
    {
    }
  }

  ghost predicate TakesLocks(ev: Footprint) {
    exists c: nat :: IsAcquire(ev, c)
  }

  lemma {:induction false} EmptyIndexMeansNoLocks(ev: Footprint)
    ensures Index(ev) == [] <==> !TakesLocks(ev)
  {
    ArrayFollowsMachine(ev, |ev|);
    if TakesLocks(ev) {
      var c: nat :| IsAcquire(ev, c);
      assert HasTail(Index(ev), c);
    }
    if Index(ev) != [] {
      assert IsAcquire(ev, Index(ev)[0].lockVa);
    }
  }

  /** A pair of accesses to one variable is a candidate for a report if and only if different numbers of
      chains are shown at the two, or some hash shown at the first is not matched at the second, or one
      of the functions takes no lock. */
  lemma {:induction false} UnprotectedExactly(a: Footprint, b: Footprint, i: nat, j: nat)
    requires NoElseInCondition(a) && Structured(b) && i < |a| && j < |b|
    ensures (i, j) in BadOverlaps(a, b) <==>
      && SameVariable(a[i], b[j])
      && (|ShownChains(a, i)| != |ShownChains(b, j)| || !AllMatched(a, b, i, j) || !TakesLocks(a) || !TakesLocks(b))
  {
    if SameVariable(a[i], b[j]) {
      SomeVerdictFits(Index(a), Index(b), i, j);
      VerdictInGeneral(a, b, i, j, VerdictOf(Index(a), Index(b), i, j));
      EmptyIndexMeansNoLocks(a);
      EmptyIndexMeansNoLocks(b);
      assert (i, j) in Overlaps(a, b);
    }
  }

  /** Where every hash is shown once, that means: the two are made under different locks, or one of the
      locks meets an if in the second function, or one of the functions takes none. */
  lemma {:induction false} UnprotectedBySets(a: Footprint, b: Footprint, i: nat, j: nat)
    requires NoElseInCondition(a) && Structured(b) && i < |a| && j < |b|
    requires OneChainPerHash(a, i) && OneChainPerHash(b, j)
    ensures (i, j) in BadOverlaps(a, b) <==>
      && SameVariable(a[i], b[j])
      && (ShownHashes(a, i) != ShownHashes(b, j) || SomeMeetsIf(b, j) || !TakesLocks(a) || !TakesLocks(b))
  {
    UnprotectedExactly(a, b, i, j);
    HashesCountChains(a, i);
    HashesCountChains(b, j);
    if |ShownHashes(a, i)| == |ShownHashes(b, j)| {
      AllMatchedExactly(a, b, i, j);
    }
  }

  /** In footprints without branches and re-acquisition: under different locks, or one takes none. */
  lemma {:induction false} BranchFreeUnprotected(a: Footprint, b: Footprint, i: nat, j: nat)
    requires Plain(a) && Plain(b) && IfFree(b) && i < |a| && j < |b|
    ensures (i, j) in BadOverlaps(a, b) <==>
      (SameVariable(a[i], b[j]) && (HeldHashes(a, i) != HeldHashes(b, j) || !TakesLocks(a) || !TakesLocks(b)))
  {
    if SameVariable(a[i], b[j]) {
      SomeVerdictFits(Index(a), Index(b), i, j);
      BranchFreeVerdict(a, b, i, j, VerdictOf(Index(a), Index(b), i, j));
      EmptyIndexMeansNoLocks(a);
      EmptyIndexMeansNoLocks(b);
      assert (i, j) in Overlaps(a, b);
    }
  }

  // ----- examples -----

  /** access x; lock m */
  const ACCESS_THEN_LOCK: Footprint := [Entry([1], Read), Entry([2], LockAcquire)]

  /** Two accesses to x, both made before either function takes its lock, are not reported. */
  lemma {:induction false} UnlockedPairIsMissed()
    ensures var a, b := ACCESS_THEN_LOCK, ACCESS_THEN_LOCK;
            && SameVariable(a[0], b[0])
            && HeldHashes(a, 0) == {} && HeldHashes(b, 0) == {}
            && (0, 0) !in BadOverlaps(a, b)
  {
    var a := ACCESS_THEN_LOCK;
    assert IsAcquire(a, 1);
    assert HeldHashes(a, 0) == {};
    BranchFreeUnprotected(a, a, 0, 0);
  }

  /** lock m; access x */
  const LOCK_THEN_ACCESS: Footprint := [Entry([2], LockAcquire), Entry([1], Read)]

  /** lock m; access x; if (..) {} */
  const LOCK_ACCESS_IF: Footprint :=
    [Entry([2], LockAcquire), Entry([1], Read), Entry([], IfStmt), Entry([], ThenBlock), Entry([], EndIf)]

  /** Two accesses to x under the same lock, where an if follows in one of the functions: whether they
      are reported depends on which function comes first. */
  lemma {:induction false} OrderMatters()
    ensures VerdictOf(Index(LOCK_THEN_ACCESS), Index(LOCK_ACCESS_IF), 1, 1) == Uncertain
    ensures VerdictOf(Index(LOCK_ACCESS_IF), Index(LOCK_THEN_ACCESS), 1, 1) == Protected
    ensures (1, 1) in BadOverlaps(LOCK_THEN_ACCESS, LOCK_ACCESS_IF)
    ensures (1, 1) !in BadOverlaps(LOCK_ACCESS_IF, LOCK_THEN_ACCESS)
  {
    var a, b := LOCK_THEN_ACCESS, LOCK_ACCESS_IF;
    OrderChangesVerdict();
    assert IsAcquire(a, 0) && IsAcquire(b, 0);
    EmptyIndexMeansNoLocks(a);
    EmptyIndexMeansNoLocks(b);
    assert (1, 1) in Overlaps(a, b);
  }

  lemma {:induction false} OrderChangesVerdict()
    ensures VerdictOf(Index(LOCK_THEN_ACCESS), Index(LOCK_ACCESS_IF), 1, 1) == Uncertain
    ensures VerdictOf(Index(LOCK_ACCESS_IF), Index(LOCK_THEN_ACCESS), 1, 1) == Protected
  {
    var a, b := LOCK_THEN_ACCESS, LOCK_ACCESS_IF;
    SomeVerdictFits(Index(a), Index(b), 1, 1);
    SomeVerdictFits(Index(b), Index(a), 1, 1);
    BothAreProper();
    BothHoldTheLock();
    VerdictExactly(a, b, 1, 1, VerdictOf(Index(a), Index(b), 1, 1));
    VerdictExactly(b, a, 1, 1, VerdictOf(Index(b), Index(a), 1, 1));
  }

  lemma {:induction false} BothAreProper()
    ensures Plain(LOCK_THEN_ACCESS) && Plain(LOCK_ACCESS_IF)
    ensures EveryIfHasThen(LOCK_THEN_ACCESS) && EveryIfHasThen(LOCK_ACCESS_IF)
  {
    var b := LOCK_ACCESS_IF;
    assert NextThen(b, 3) == 3 && NextThen(b, 2) == 3;
    assert Depth(b, 2) == 0 && Depth(b, 3) == 1 && Depth(b, 4) == 1;
  }

  lemma {:induction false} BothHoldTheLock()
    ensures HeldHashes(LOCK_THEN_ACCESS, 1) == HeldHashes(LOCK_ACCESS_IF, 1) == {Hash([2])}
    ensures !SomeMeetsIf(LOCK_THEN_ACCESS, 1) && SomeMeetsIf(LOCK_ACCESS_IF, 1)
  {
    var a, b := LOCK_THEN_ACCESS, LOCK_ACCESS_IF;
    assert forall c: nat :: HeldAt(a, 1, c) <==> c == 0;
    assert forall c: nat :: HeldAt(b, 1, c) <==> c == 0;
    assert Counts(b, 2) && NoReleaseBetween(b, 1, 2, 0) && NoIfBetween(b, 1, 2);
    assert !HeldAtPendingIf(b, 0, 1) && CutBeforeRelease(b, 1, |b|, 0);
    assert MeetsIf(b, 1, 0);
  }

  /** lock m; lock m; access x */
  const LOCK_TWICE: Footprint := [Entry([2], LockAcquire), Entry([2], LockAcquire), Entry([1], Read)]

  /** lock m; lock n; access x */
  const LOCK_BOTH: Footprint := [Entry([2], LockAcquire), Entry([3], LockAcquire), Entry([1], Read)]

  /** A lock taken twice counts as two: the accesses are reported though both are made under m alone. */
  lemma {:induction false} SameLocksAreReported()
    ensures HeldHashes(LOCK_TWICE, 2) == HeldHashes(LOCK_THEN_ACCESS, 1) == {Hash([2])}
    ensures VerdictOf(Index(LOCK_TWICE), Index(LOCK_THEN_ACCESS), 2, 1) == Unprotected
    ensures (2, 1) in BadOverlaps(LOCK_TWICE, LOCK_THEN_ACCESS)
  {
    var a, b := LOCK_TWICE, LOCK_THEN_ACCESS;
    TwiceHeld();
    assert forall c: nat :: Shown(b, 1, c) <==> c == 0;
    assert ShownChains(b, 1) == {0};
    assert HeldHashes(b, 1) == {Hash([2])};
    WithoutBranches(b);
    WithoutBranches(a);
    SomeVerdictFits(Index(a), Index(b), 2, 1);
    VerdictInGeneral(a, b, 2, 1, VerdictOf(Index(a), Index(b), 2, 1));
    UnprotectedExactly(a, b, 2, 1);
  }

  /** And it may stand for two: the accesses are not reported though only one is made under n. */
  lemma {:induction false} DifferentLocksAreNotReported()
    ensures HeldHashes(LOCK_TWICE, 2) == {Hash([2])} && Hash([3]) in HeldHashes(LOCK_BOTH, 2)
    ensures Hash([3]) != Hash([2])
    ensures VerdictOf(Index(LOCK_TWICE), Index(LOCK_BOTH), 2, 2) == Protected
    ensures (2, 2) !in BadOverlaps(LOCK_TWICE, LOCK_BOTH)
  {
    hide Hash, Index, Judged, HeldAt, Matched;
    var a, b := LOCK_TWICE, LOCK_BOTH;
    TwiceHeld();
    assert [3 as byte] == [] + [3 as byte] + [] && [2 as byte] == [] + [2 as byte] + [];
    OneByteApartNeverCollide([], 3, 2, []);
    BothHeld();
    WithoutBranches(b);
    WithoutBranches(a);
    SomeVerdictFits(Index(a), Index(b), 2, 2);
    VerdictInGeneral(a, b, 2, 2, VerdictOf(Index(a), Index(b), 2, 2));
    assert IsAcquire(a, 0) && IsAcquire(b, 0);
    UnprotectedExactly(a, b, 2, 2);
  }

  lemma {:induction false} BothHeld()
    ensures ShownChains(LOCK_BOTH, 2) == {0, 1} && Hash([3]) in HeldHashes(LOCK_BOTH, 2)
    ensures Matched(LOCK_BOTH, 2, Hash([2]))
  {
    var b := LOCK_BOTH;
    assert forall c: nat :: HeldAt(b, 2, c) <==> c == 0 || c == 1;
    assert forall c: nat :: Shown(b, 2, c) <==> c == 0 || c == 1;
    assert HeldAt(b, 2, 1);
    assert NoneMeetsUpTo(b, 2, 0);
  }

  lemma {:induction false} TwiceHeld()
    ensures ShownChains(LOCK_TWICE, 2) == {0, 1}
    ensures ShownHashes(LOCK_TWICE, 2) == HeldHashes(LOCK_TWICE, 2) == {Hash([2])}
  {
    var a := LOCK_TWICE;
    assert forall c: nat :: HeldAt(a, 2, c) <==> c == 0 || c == 1;
    assert forall c: nat :: Shown(a, 2, c) <==> c == 0 || c == 1;
    assert HeldAt(a, 2, 0);
  }

  lemma {:induction false} WithoutBranches(ev: Footprint)
    requires |ev| <= 3 && forall k :: 0 <= k < |ev| ==> ev[k].ty.LockAcquire? || ev[k].ty.Read?
    ensures Structured(ev)
  {
  }

  /** }; lock m; access x; if (..) {}, where the end-if has come astray from another function */
  const STRAY_END_IF: Footprint :=
    [Entry([], EndIf), Entry([2], LockAcquire), Entry([1], Read), Entry([], IfStmt), Entry([], ThenBlock),
     Entry([], EndIf)]

  /** The depth of the if wraps around to zero, and the lock does not count as cut: the verdict is
      Protected, though it is Uncertain for the same function without the stray end-if. */
  lemma {:induction false} StrayEndIfHidesIf()
    ensures VerdictOf(Index(LOCK_THEN_ACCESS), Index(STRAY_END_IF), 1, 2) == Protected
  {
    var a, b := LOCK_THEN_ACCESS, STRAY_END_IF;
    StrayShape();
    WithoutBranches(a);
    assert forall c: nat :: Shown(a, 1, c) <==> c == 0;
    assert ShownChains(a, 1) == {0} && ShownHashes(a, 1) == {Hash([2])};
    assert Shown(b, 2, 1) && Matched(b, 2, Hash([2]));
    SomeVerdictFits(Index(a), Index(b), 1, 2);
    VerdictInGeneral(a, b, 1, 2, VerdictOf(Index(a), Index(b), 1, 2));
  }

  lemma {:induction false} StrayShape()
    ensures Structured(STRAY_END_IF) && ShownChains(STRAY_END_IF, 2) == {1} && NoneMeetsUpTo(STRAY_END_IF, 2, 1)
  {
    var b := STRAY_END_IF;
    assert NextThen(b, 4) == 4 && NextThen(b, 3) == 4;
    assert Depth(b, 1) == SIZE_MAX && Depth(b, 2) == SIZE_MAX && Depth(b, 3) == SIZE_MAX;
    assert forall c: nat :: HeldAt(b, 2, c) <==> c == 1;
    assert forall c: nat :: Shown(b, 2, c) <==> c == 1;
  }
}
