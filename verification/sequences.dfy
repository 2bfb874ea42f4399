/** Finite counting arguments shared by several modules. */
module Sequences {

  ghost predicate Distinct<T>(s: seq<T>) {
    forall i, j :: 0 <= i < j < |s| ==> s[i] != s[j]
  }

  ghost function Elements<T>(s: seq<T>): set<T> {
    set x | x in s
  }

  lemma {:induction false} DistinctConcat<T>(s: seq<T>, t: seq<T>)
    requires Distinct(s) && Distinct(t) && forall x :: x in s ==> x !in t
    ensures Distinct(s + t)
  {
    forall i, j | 0 <= i < j < |s + t|
      ensures (s + t)[i] != (s + t)[j]
    {
      if i < |s| {
        assert s[i] in s;
      }
    }
  }

  lemma {:induction false} ElementsOfDistinct<T>(s: seq<T>)
    requires Distinct(s)
    ensures |Elements(s)| == |s|
  {
    if s == [] {
      assert Elements(s) == {};
    } else {
      var t, x := s[1..], s[0];
      ElementsOfDistinct(t);
      assert s == [x] + t && x !in t;
      assert Elements(s) == {x} + Elements(t);
    }
  }

  lemma {:induction false} SubsetIsNoLarger<T>(a: set<T>, b: set<T>)
    requires a <= b
    ensures |a| <= |b|
    ensures |a| == |b| ==> a == b
  {
    if a != {} {
      var x :| x in a;
      SubsetIsNoLarger(a - {x}, b - {x});
    }
  }

  ghost function Below(n: nat): (b: set<nat>)
    ensures |b| == n
    ensures forall k: nat :: k in b <==> k < n
  {
    if n == 0 then {} else Below(n - 1) + {n - 1}
  }

  ghost function Image(s: set<nat>, f: nat -> nat): set<nat> {
    set k | k in s :: f(k)
  }

  lemma {:induction false} ImageIsAsLarge(s: set<nat>, f: nat -> nat)
    requires forall j, k :: j in s && k in s && f(j) == f(k) ==> j == k
    ensures |Image(s, f)| == |s|
    decreases s
  {
    if s != {} {
      var k :| k in s;
      ImageIsAsLarge(s - {k}, f);
      assert Image(s, f) == Image(s - {k}, f) + {f(k)};
    }
  }

  /** Pigeonhole: distinct elements of a set are no more than the set has. */
  lemma {:induction false} DistinctFitIn(s: seq<nat>, t: set<nat>)
    requires Distinct(s) && forall k :: 0 <= k < |s| ==> s[k] in t
    ensures |s| <= |t|
  {
    ElementsOfDistinct(s);
    SubsetIsNoLarger(Elements(s), t);
  }
}
