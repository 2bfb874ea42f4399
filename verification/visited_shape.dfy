/** The shape of the entries of a visited function body. */
module VisitedShape {
  import opened CIntegers
  import opened VarAccesses
  import opened RangeInvariants
  import opened FootprintShape
  import opened AstVisitor

  predicate IsBranchMarker(ty: AccessType) {
    ty.IfStmt? || ty.ThenBlock? || ty.ElseStmt? || ty.EndIf?
  }

  /** The accesses of the nodes are not themselves branch markers. */
  ghost predicate MarkerFree(n: Node)
    decreases n, |n.children| + 2
  {
    (forall v :: v in n.accesses ==> !IsBranchMarker(v.ty)) && MarkerFreeFrom(n, 0)
  }

  ghost predicate MarkerFreeFrom(n: Node, k: nat)
    requires k <= |n.children|
    decreases n, |n.children| - k + 1
  {
    k == |n.children| || (MarkerFree(n.children[k]) && MarkerFreeFrom(n, k + 1))
  }

  lemma {:induction false} AccessesPass(es: Footprint, h: nat, seen: bool)
    requires forall v :: v in es ==> !IsBranchMarker(v.ty)
    ensures BracketsFit(es, h) && HeightAfter(es, h) == h
    ensures ElsesFit(es, seen) && SeenAfter(es, seen) == seen
    decreases es
  {
    if es != [] {
      assert es[0] in es;
      AccessesPass(es[1..], h, seen);
    }
  }

  lemma {:induction false} OneEntry(v: VarAccess, h: nat, seen: bool)
    ensures BracketsFit([v], h) <==> (v.ty.EndIf? ==> h > 0)
    ensures HeightAfter([v], h) == NextHeight(v.ty, h)
    ensures ElsesFit([v], seen) <==> (v.ty.ElseStmt? ==> seen)
    ensures SeenAfter([v], seen) == NextSeen(v.ty, seen)
  {
    assert [v][1..] == [];
  }

  // ----- brackets fit -----

  /** What stands in front of the k-th child of n. */
  function MarkerBefore(n: Node, k: nat): Option<AccessType>
    requires k < |n.children|
  {
    if n.kind.IfNode? && k == 1 then Some(ThenBlock)
    else if n.kind.IfNode? && k > 1 && k == |n.children| - 1 then Some(ElseStmt)
    else None
  }

  lemma {:induction false} ChildMarker(fn: CString, n: Node, k: nat)
    requires Proper(n) && k < |n.children|
    ensures BranchMarker(fn, n.children[k], n) ==
            if MarkerBefore(n, k).Some? then [Marker(fn, MarkerBefore(n, k).value)] else []
  {
    var last := |n.children| - 1;
    if k < last {
      ChildrenDiffer(n, 0, k, last);
    }
    if k == 0 && 1 <= last {
      ChildrenDiffer(n, 0, 0, 1);
    }
    if 1 < k {
      ChildrenDiffer(n, 0, 1, k);
    }
  }

  lemma {:induction false} ChildrenDiffer(n: Node, from: nat, j: nat, k: nat)
    requires from <= j < k < |n.children| && ProperFrom(n, from)
    ensures n.children[j].id != n.children[k].id
    decreases |n.children| - from
  {
    if from < j {
      ChildrenDiffer(n, from + 1, j, k);
    } else {
      ChildIdIn(n, j + 1, k);
    }
  }

  lemma {:induction false} ChildIdIn(n: Node, from: nat, k: nat)
    requires from <= k < |n.children|
    ensures n.children[k].id in IdsFrom(n, from)
    decreases |n.children| - from
  {
    if from < k {
      ChildIdIn(n, from + 1, k);
    }
  }

  /** Seen before the children of n are visited, if it is `seen` before n. */
  function SeenBelow(n: Node, before: Option<AccessType>, seen: bool): bool {
    !n.kind.IfNode? && (seen || before == Some(ThenBlock))
  }

  lemma {:induction false} FrontFits(fn: CString, n: Node, k: nat, h: nat, seen: bool)
    requires Proper(n) && k < |n.children| && MarkerFree(n.children[k])
    ensures var c := n.children[k];
            var own := OwnEntries(fn, c, n);
            && BracketsFit(own, h) && HeightAfter(own, h) == (if c.kind.IfNode? then h + 1 else h)
            && ((MarkerBefore(n, k) == Some(ElseStmt) ==> seen) ==> ElsesFit(own, seen))
            && SeenAfter(own, seen) == SeenBelow(c, MarkerBefore(n, k), seen)
  {
    var c := n.children[k];
    ChildMarker(fn, n, k);
    var mark := BranchMarker(fn, c, n);
    var start := if c.kind.IfNode? then [Marker(fn, IfStmt)] else [];
    if mark != [] {
      OneEntry(mark[0], h, seen);
    }
    OneEntry(Marker(fn, IfStmt), h, SeenAfter(mark, seen));
    BracketsConcat(mark, start, h);
    ElsesConcat(mark, start, seen);
    AccessesPass(c.accesses, HeightAfter(mark + start, h), SeenAfter(mark + start, seen));
    BracketsConcat(mark + start, c.accesses, h);
    ElsesConcat(mark + start, c.accesses, seen);
  }

  /** A child closes all ifs it opens. Only if it is an else-branch does it need a then-block before
      it; and there is one after it if it is a then-branch or there was one before. */
  lemma {:induction false} BracketFits(fn: CString, n: Node, k: nat, h: nat, seen: bool)
    requires Proper(n) && k < |n.children| && Proper(n.children[k]) && MarkerFree(n.children[k])
    ensures var b := Bracket(fn, n.children[k], n);
            && BracketsFit(b, h) && HeightAfter(b, h) == h
            && ((MarkerBefore(n, k) == Some(ElseStmt) ==> seen) ==> ElsesFit(b, seen))
            && (seen || MarkerBefore(n, k) == Some(ThenBlock) ==> SeenAfter(b, seen))
    decreases n.children[k], |n.children[k].children| + 2
  {
    var c := n.children[k];
    var own, kids := OwnEntries(fn, c, n), BracketFrom(fn, c, 0);
    var end := if c.kind.IfNode? then [Marker(fn, EndIf)] else [];
    var h1, seen1 := HeightAfter(own, h), SeenAfter(own, seen);
    FrontFits(fn, n, k, h, seen);
    KidsFit(fn, c, 0, h1, seen1);
    OneEntry(Marker(fn, EndIf), h1, SeenAfter(kids, seen1));
    BracketsConcat(own, kids, h);
    BracketsConcat(own + kids, end, h);
    ElsesConcat(own, kids, seen);
    ElsesConcat(own + kids, end, seen);
  }

  lemma {:induction false} KidsFit(fn: CString, n: Node, k: nat, h: nat, seen: bool)
    requires Proper(n) && k <= |n.children| && ProperFrom(n, k) && MarkerFreeFrom(n, k)
    ensures var b := BracketFrom(fn, n, k);
            && BracketsFit(b, h) && HeightAfter(b, h) == h
            && ((n.kind.IfNode? && k >= 2 ==> seen) ==> ElsesFit(b, seen))
            && (seen || (n.kind.IfNode? && k <= 1) ==> SeenAfter(b, seen))
    decreases n, |n.children| - k + 1
  {
    if k < |n.children| {
      var b := Bracket(fn, n.children[k], n);
      BracketFits(fn, n, k, h, seen);
      KidsFit(fn, n, k + 1, h, SeenAfter(b, seen));
      BracketsConcat(b, BracketFrom(fn, n, k + 1), h);
      ElsesConcat(b, BracketFrom(fn, n, k + 1), seen);
    }
  }

  // ----- visited functions -----

  /** End-ifs alone: no else, and as many ifs closed as there are. */
  lemma {:induction false} EndIfsPass(fn: CString, ends: Footprint, seen: bool)
    requires forall i :: 0 <= i < |ends| ==> ends[i] == Marker(fn, EndIf)
    ensures ElsesFit(ends, seen) && SeenAfter(ends, seen) == seen
    ensures ends != [] ==> !BracketsFit(ends, 0)
    decreases ends
  {
    if ends != [] {
      EndIfsPass(fn, ends[1..], seen);
    }
  }

  /** In the entries of a visited function every else has its then-block before it. */
  lemma {:induction false} VisitedElsesFit(fn: CString, s: State, func: Node)
    requires Proper(func) && MarkerFree(func) && !func.kind.IfNode? && ReadyFor(s, func) && s.entries == []
    ensures ElsesFit(VisitChildren(fn, s, func, 0).entries, false)
    ensures NoElseInCondition(VisitChildren(fn, s, func, 0).entries)
  {
    var s' := VisitChildren(fn, s, func, 0);
    VisitorRefinesBrackets(fn, s, func);
    CloseIsEndIfs(fn, s.stack);
    EndIfsPass(fn, Close(fn, s.stack), false);
    KidsFit(fn, func, 0, 0, false);
    ElsesConcat(Close(fn, s.stack), BracketFrom(fn, func, 0), false);
    assert s.entries + Close(fn, s.stack) == Close(fn, s.stack);
    ElsesConcat(s'.entries, Close(fn, s'.stack), false);
    FittingHasNoElseInCondition(s'.entries);
  }

  /** If no if of an earlier function is left on the stack, every end-if closes an if. */
  lemma {:induction false} VisitedBracketsFit(fn: CString, s: State, func: Node)
    requires Proper(func) && MarkerFree(func) && !func.kind.IfNode? && ReadyFor(s, func) && s.entries == []
    requires Close(fn, s.stack) == []
    ensures BracketsFit(VisitChildren(fn, s, func, 0).entries, 0)
  {
    var s' := VisitChildren(fn, s, func, 0);
    VisitorRefinesBrackets(fn, s, func);
    KidsFit(fn, func, 0, 0, false);
    assert s.entries + Close(fn, s.stack) + BracketFrom(fn, func, 0) == BracketFrom(fn, func, 0);
    BracketsPrefix(s'.entries, Close(fn, s'.stack), 0);
  }

  lemma {:induction false} PopToGrows(fn: CString, id: nat, stack: seq<Node>, entries: Footprint)
    ensures entries <= PopTo(fn, id, stack, entries).1
  {
    if stack != [] && stack[|stack| - 1].id != id {
      var tail := stack[|stack| - 1];
      PopToGrows(fn, id, stack[..|stack| - 1],
        if tail.kind.IfNode? then entries + [Marker(fn, EndIf)] else entries);
    }
  }

  lemma {:induction false} VisitGrows(fn: CString, s: State, n: Node, k: nat)
    requires k <= |n.children|
    ensures s.entries <= VisitChildren(fn, s, n, k).entries
    decreases n, |n.children| - k
  {
    if k < |n.children| {
      var c := n.children[k];
      PopToGrows(fn, n.id, s.stack, s.entries);
      var s1 := VisitOne(fn, s, c, n);
      VisitGrows(fn, s1, c, 0);
      VisitGrows(fn, VisitChildren(fn, s1, c, 0), n, k + 1);
    }
  }

  /** The entries of a function begin with an end-if for every if that an earlier one left behind. */
  lemma {:induction false} LeftoversComeFirst(fn: CString, s: State, func: Node)
    requires Proper(func) && func.children != [] && ReadyFor(s, func) && s.entries == []
    ensures Close(fn, s.stack) <= VisitChildren(fn, s, func, 0).entries
  {
    var p := if s.last.None? then [func] else [];
    var c := func.children[0];
    NodeIsEntered(fn, s, c, func, p);
    assert Stale(s, func, p) == s.stack;
    var s1 := VisitOne(fn, s, c, func);
    var s2 := VisitChildren(fn, s1, c, 0);
    assert VisitChildren(fn, s, func, 0) == VisitChildren(fn, s2, func, 1);
    assert [] + Close(fn, s.stack) == Close(fn, s.stack) <= s1.entries;
    VisitGrows(fn, s1, c, 0);
    VisitGrows(fn, s2, func, 1);
  }

  /** Every end-if closes an if if and only if no if of an earlier function is left on the stack. */
  lemma {:induction false} VisitedIsBracketedExactly(fn: CString, s: State, func: Node)
    requires Proper(func) && MarkerFree(func) && !func.kind.IfNode? && func.children != []
    requires ReadyFor(s, func) && s.entries == [] && |VisitChildren(fn, s, func, 0).entries| <= SIZE_MAX
    ensures WellBracketed(VisitChildren(fn, s, func, 0).entries) <==> Close(fn, s.stack) == []
  {
    var ev := VisitChildren(fn, s, func, 0).entries;
    if Close(fn, s.stack) == [] {
      VisitedBracketsFit(fn, s, func);
      FittingIsBracketed(ev);
    } else {
      LeftoversComeFirst(fn, s, func);
      CloseIsEndIfs(fn, s.stack);
      assert ev[0] == Marker(fn, EndIf);
    }
  }

  // ----- an if that is left behind -----

  /** { if (..) .. } */
  const ENDS_WITH_IF: Node :=
    Node(0, OtherNode, [], [Node(1, IfNode, [], [Node(2, OtherNode, [], []), Node(3, OtherNode, [], [])])])

  /** { .. } */
  const STRAIGHT: Node := Node(10, OtherNode, [], [Node(11, OtherNode, [], [])])

  lemma {:induction false} IfStaysBehind(fn: CString)
    ensures var s := VisitChildren(fn, State(None, [], [], []), ENDS_WITH_IF, 0);
            s.stack == [ENDS_WITH_IF, ENDS_WITH_IF.children[0]] && s.last.Some? && s.last.value.id == 3
  {
    var f := ENDS_WITH_IF;
    var branch := f.children[0];
    var s0 := State(None, [], [], []);
    var s1 := VisitOne(fn, s0, branch, f);
    assert s1.stack == [f] && s1.last == Some(branch);
    var s2 := VisitOne(fn, s1, branch.children[0], branch);
    assert s2.stack == [f, branch] && s2.last == Some(branch.children[0]);
    assert VisitChildren(fn, s2, branch.children[0], 0) == s2;
    var s3 := VisitOne(fn, s2, branch.children[1], branch);
    assert s3.stack == [f, branch] && s3.last == Some(branch.children[1]);
    assert VisitChildren(fn, s3, branch.children[1], 0) == s3;
    assert VisitChildren(fn, s1, branch, 0) == VisitChildren(fn, s2, branch, 1) ==
        VisitChildren(fn, s3, branch, 2) == s3;
    assert VisitChildren(fn, s0, f, 0) == VisitChildren(fn, s3, f, 1) == s3;
  }

  lemma {:induction false} StraightTakesItOver(fn: CString, s: State)
    requires s.stack == [ENDS_WITH_IF, ENDS_WITH_IF.children[0]] && s.last.Some? && s.last.value.id == 3
    requires s.entries == []
    ensures VisitChildren(fn, s, STRAIGHT, 0).entries == [Marker(fn, EndIf)]
  {
    var f, c := ENDS_WITH_IF, STRAIGHT.children[0];
    var branch := f.children[0];
    PopStale(fn, 10, [], [f, branch], []);
    assert [] + [f, branch] == [f, branch] && [f, branch][..1] == [f] && [f][..0] == [];
    assert Close(fn, [f]) == Close(fn, []) + [];
    assert Close(fn, [f, branch]) == Close(fn, [f]) + [Marker(fn, EndIf)];
    var s1 := VisitOne(fn, s, c, STRAIGHT);
    assert s1.entries == [Marker(fn, EndIf)];
    assert VisitChildren(fn, s1, c, 0) == s1;
    assert VisitChildren(fn, s, STRAIGHT, 0) == VisitChildren(fn, s1, STRAIGHT, 1) == s1;
  }

  /** Visited after a function that ends with an if, a function without any begins with its end-if. */
  lemma {:induction false} EndIfGoesAstray(fn: CString)
    ensures var s := VisitChildren(fn, State(None, [], [], []), ENDS_WITH_IF, 0);
            VisitChildren(fn, s.(entries := []), STRAIGHT, 0).entries == [Marker(fn, EndIf)]
  {
    IfStaysBehind(fn);
    StraightTakesItOver(fn, VisitChildren(fn, State(None, [], [], []), ENDS_WITH_IF, 0).(entries := []));
  }
}
