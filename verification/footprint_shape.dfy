/** The shape that branch markers give a footprint: end-ifs close ifs, and before an else, after the last
    if, there is a then-block. Both are read off in one pass. */
module FootprintShape {
  import opened CIntegers
  import opened VarAccesses
  import opened LockRanges
  import opened RangeInvariants

  function NextHeight(ty: AccessType, h: nat): nat {
    match ty
    case IfStmt => h + 1
    case EndIf => if h == 0 then 0 else h - 1
    case _ => h
  }

  /** How many ifs are open after ev, if h are open before. */
  function HeightAfter(ev: Footprint, h: nat): nat {
    if ev == [] then h else HeightAfter(ev[1..], NextHeight(ev[0].ty, h))
  }

  /** Every end-if closes an if. */
  predicate BracketsFit(ev: Footprint, h: nat) {
    ev == [] || ((ev[0].ty.EndIf? ==> h > 0) && BracketsFit(ev[1..], NextHeight(ev[0].ty, h)))
  }

  function NextSeen(ty: AccessType, seen: bool): bool {
    match ty
    case IfStmt => false
    case ThenBlock => true
    case _ => seen
  }

  /** Whether there is a then-block after the last if. */
  function SeenAfter(ev: Footprint, seen: bool): bool {
    if ev == [] then seen else SeenAfter(ev[1..], NextSeen(ev[0].ty, seen))
  }

  /** Every else finds a then-block after the last if. */
  predicate ElsesFit(ev: Footprint, seen: bool) {
    ev == [] || ((ev[0].ty.ElseStmt? ==> seen) && ElsesFit(ev[1..], NextSeen(ev[0].ty, seen)))
  }

  // ----- concatenation, and starting from more -----

  lemma {:induction false} BracketsConcat(a: Footprint, b: Footprint, h: nat)
    requires BracketsFit(a, h)
    ensures BracketsFit(a + b, h) <==> BracketsFit(b, HeightAfter(a, h))
    ensures HeightAfter(a + b, h) == HeightAfter(b, HeightAfter(a, h))
    decreases a
  {
    if a == [] {
      assert a + b == b;
    } else {
      assert (a + b)[1..] == a[1..] + b;
      BracketsConcat(a[1..], b, NextHeight(a[0].ty, h));
    }
  }

  lemma {:induction false} BracketsPrefix(a: Footprint, b: Footprint, h: nat)
    requires BracketsFit(a + b, h)
    ensures BracketsFit(a, h)
    decreases a
  {
    if a != [] {
      assert (a + b)[1..] == a[1..] + b;
      BracketsPrefix(a[1..], b, NextHeight(a[0].ty, h));
    }
  }

  /** More open ifs do no harm, and stay open. */
  lemma {:induction false} BracketsFromHigher(ev: Footprint, h: nat, more: nat)
    requires BracketsFit(ev, h)
    ensures BracketsFit(ev, h + more) && HeightAfter(ev, h + more) == HeightAfter(ev, h) + more
    decreases ev
  {
    if ev != [] {
      BracketsFromHigher(ev[1..], NextHeight(ev[0].ty, h), more);
    }
  }

  lemma {:induction false} ElsesConcat(a: Footprint, b: Footprint, seen: bool)
    ensures ElsesFit(a + b, seen) <==> ElsesFit(a, seen) && ElsesFit(b, SeenAfter(a, seen))
    ensures SeenAfter(a + b, seen) == SeenAfter(b, SeenAfter(a, seen))
    decreases a
  {
    if a == [] {
      assert a + b == b;
    } else {
      assert (a + b)[1..] == a[1..] + b;
      ElsesConcat(a[1..], b, NextSeen(a[0].ty, seen));
    }
  }

  lemma {:induction false} ElsesFromSeen(ev: Footprint, seen: bool)
    requires ElsesFit(ev, seen)
    ensures ElsesFit(ev, true) && (SeenAfter(ev, seen) ==> SeenAfter(ev, true))
    decreases ev
  {
    if ev != [] {
      ElsesFromSeen(ev[1..], NextSeen(ev[0].ty, seen));
    }
  }

  // ----- what the verdict asks of a footprint -----

  lemma {:induction false} DepthIsHeight(ev: Footprint, i: nat)
    requires |ev| <= SIZE_MAX && BracketsFit(ev, 0) && i <= |ev|
    ensures Depth(ev, i) == HeightAfter(ev[..i], 0) <= i && BracketsFit(ev[..i], 0)
  {
    assert ev == ev[..i] + ev[i..];
    BracketsPrefix(ev[..i], ev[i..], 0);
    if i > 0 {
      DepthIsHeight(ev, i - 1);
      assert ev[..i] == ev[..i - 1] + [ev[i - 1]];
      assert [ev[i - 1]][1..] == [];
      BracketsConcat(ev[..i - 1], [ev[i - 1]], 0);
    }
  }

  lemma {:induction false} FittingIsBracketed(ev: Footprint)
    requires |ev| <= SIZE_MAX && BracketsFit(ev, 0)
    ensures WellBracketed(ev)
  {
    forall i | 0 <= i < |ev| && ev[i].ty.EndIf?
      ensures Depth(ev, i) > 0
    {
      DepthIsHeight(ev, i);
      assert ev == ev[..i] + ev[i..];
      BracketsConcat(ev[..i], ev[i..], 0);
    }
  }

  /** Between an if and its then-block nothing counts as seen. */
  lemma {:induction false} NothingSeen(ev: Footprint, i: nat, j: nat)
    requires i < j <= |ev| && ev[i].ty.IfStmt? && j <= NextThen(ev, i)
    ensures !SeenAfter(ev[..j], false)
    decreases j
  {
    assert ev[..j] == ev[..j - 1] + [ev[j - 1]];
    assert [ev[j - 1]][1..] == [];
    ElsesConcat(ev[..j - 1], [ev[j - 1]], false);
    if j > i + 1 {
      NothingSeen(ev, i, j - 1);
    }
  }

  lemma {:induction false} FittingHasNoElseInCondition(ev: Footprint)
    requires ElsesFit(ev, false)
    ensures NoElseInCondition(ev)
  {
    forall i, j | 0 <= i < j < |ev| && ev[i].ty.IfStmt? && j < NextThen(ev, i)
      ensures !ev[j].ty.ElseStmt?
    {
      NothingSeen(ev, i, j);
      assert ev == ev[..j] + ev[j..];
      ElsesConcat(ev[..j], ev[j..], false);
    }
  }
}
