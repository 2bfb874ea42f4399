/** Where the accesses of a visited function body end up among its entries (src/core.c:196-640). */
module VisitedAccesses {
  import opened VarAccesses
  import opened AstVisitor
  import opened VisitedShape

  /** The accesses of n and all nodes below, in pre-order. */
  function Accesses(n: Node): Footprint
    decreases n, |n.children| + 2
  {
    n.accesses + AccessesFrom(n, 0)
  }

  function AccessesFrom(n: Node, k: nat): Footprint
    requires k <= |n.children|
    decreases n, |n.children| - k + 1
  {
    if k == |n.children| then [] else Accesses(n.children[k]) + AccessesFrom(n, k + 1)
  }

  /** The entries that are no branch markers. */
  function Unmarked(es: Footprint): Footprint {
    if es == [] then [] else (if IsBranchMarker(es[0].ty) then [] else [es[0]]) + Unmarked(es[1..])
  }

  lemma {:induction false} UnmarkedConcat(a: Footprint, b: Footprint)
    ensures Unmarked(a + b) == Unmarked(a) + Unmarked(b)
    decreases a
  {
    if a == [] {
      assert a + b == b;
    } else {
      assert (a + b)[1..] == a[1..] + b;
      UnmarkedConcat(a[1..], b);
    }
  }

  lemma {:induction false} MarkersVanish(fn: CString, t: AccessType)
    requires IsBranchMarker(t)
    ensures Unmarked([Marker(fn, t)]) == []
  {
    assert [Marker(fn, t)][1..] == [];
  }

  lemma {:induction false} AccessesStay(es: Footprint)
    requires forall v :: v in es ==> !IsBranchMarker(v.ty)
    ensures Unmarked(es) == es
    decreases es
  {
    if es != [] {
      assert es[0] in es;
      AccessesStay(es[1..]);
    }
  }

  // ----- every access, in pre-order -----

  lemma {:induction false} PoppingAddsNoAccess(fn: CString, id: nat, stack: seq<Node>, entries: Footprint)
    ensures Unmarked(PopTo(fn, id, stack, entries).1) == Unmarked(entries)
  {
    if stack != [] && stack[|stack| - 1].id != id {
      var end := if stack[|stack| - 1].kind.IfNode? then [Marker(fn, EndIf)] else [];
      MarkersVanish(fn, EndIf);
      UnmarkedConcat(entries, end);
      PoppingAddsNoAccess(fn, id, stack[..|stack| - 1], entries + end);
      assert entries + [] == entries;
    }
  }

  lemma {:induction false} OwnAccesses(fn: CString, n: Node, parent: Node)
    requires MarkerFree(n)
    ensures Unmarked(OwnEntries(fn, n, parent)) == n.accesses
  {
    hide Unmarked;
    var mark, start := BranchMarker(fn, n, parent), if n.kind.IfNode? then [Marker(fn, IfStmt)] else [];
    assert Unmarked(mark) == [] && Unmarked(start) == [] by {
      NothingVanishes();
      MarkersVanish(fn, ThenBlock);
      MarkersVanish(fn, ElseStmt);
      MarkersVanish(fn, IfStmt);
    }
    UnmarkedConcat(mark, start);
    UnmarkedConcat(mark + start, n.accesses);
    AccessesStay(n.accesses);
  }

  lemma {:induction false} NothingVanishes()
    ensures Unmarked([]) == []
  {
  }

  lemma {:induction false} VisitAddsItsAccesses(fn: CString, s: State, n: Node, parent: Node)
    requires MarkerFree(n)
    ensures Unmarked(VisitOne(fn, s, n, parent).entries) == Unmarked(s.entries) + n.accesses
  {
    hide Unmarked, OwnEntries, PopTo, MarkerFree;
    var entries := Adjusted(fn, s, parent).1;
    PoppingAddsNoAccess(fn, parent.id, s.stack, s.entries);
    OwnAccesses(fn, n, parent);
    UnmarkedConcat(entries, OwnEntries(fn, n, parent));
  }

  lemma {:induction false} ChildrenAddTheirAccesses(fn: CString, s: State, n: Node, k: nat)
    requires k <= |n.children| && MarkerFreeFrom(n, k)
    ensures Unmarked(VisitChildren(fn, s, n, k).entries) == Unmarked(s.entries) + AccessesFrom(n, k)
    decreases n, |n.children| - k
  {
    hide Unmarked, VisitOne, AccessesFrom;
    if k == |n.children| {
      NoneFrom(n);
    } else {
      var c := n.children[k];
      var s1 := VisitOne(fn, s, c, n);
      VisitAddsItsAccesses(fn, s, c, n);
      ChildrenAddTheirAccesses(fn, s1, c, 0);
      ChildrenAddTheirAccesses(fn, VisitChildren(fn, s1, c, 0), n, k + 1);
      OneFrom(n, k, Unmarked(s.entries));
    }
  }

  lemma {:induction false} NoneFrom(n: Node)
    ensures AccessesFrom(n, |n.children|) == []
  {
  }

  lemma {:induction false} OneFrom(n: Node, k: nat, before: Footprint)
    requires k < |n.children|
    ensures before + AccessesFrom(n, k) ==
            before + n.children[k].accesses + AccessesFrom(n.children[k], 0) + AccessesFrom(n, k + 1)
  {
  }

  /** Whatever the visitor left behind before: less the branch markers, the entries that visiting a
      function adds are the accesses of its nodes in pre-order. */
  lemma {:induction false} VisitCollectsAccesses(fn: CString, s: State, func: Node)
    requires MarkerFree(func)
    ensures Unmarked(VisitChildren(fn, s, func, 0).entries) == Unmarked(s.entries) + AccessesFrom(func, 0)
  {
    ChildrenAddTheirAccesses(fn, s, func, 0);
  }

  // ----- every access in its branch -----

  /** What the k-th child begins with: a then-block is the second child of an if, an else the last after it. */
  function MarkerOf(fn: CString, n: Node, k: nat): Footprint
    requires k < |n.children|
  {
    if n.kind.IfNode? && k == 1 then [Marker(fn, ThenBlock)]
    else if n.kind.IfNode? && k > 1 && k == |n.children| - 1 then [Marker(fn, ElseStmt)]
    else []
  }

  lemma {:induction false} MarkerVanishes(fn: CString, n: Node, k: nat)
    requires k < |n.children|
    ensures Unmarked(MarkerOf(fn, n, k)) == []
  {
    MarkersVanish(fn, ThenBlock);
    MarkersVanish(fn, ElseStmt);
  }

  /** The entries of a node by its place in the source alone: the accesses of an if come behind its
      marker, then its condition, a then-block and the second child, an else and the last child if there
      are more, and the end-if. */
  function Written(fn: CString, n: Node): Footprint
    decreases n, |n.children| + 2
  {
    if n.kind.IfNode? then [Marker(fn, IfStmt)] + n.accesses + WrittenFrom(fn, n, 0) + [Marker(fn, EndIf)]
    else n.accesses + WrittenFrom(fn, n, 0)
  }

  function WrittenFrom(fn: CString, n: Node, k: nat): Footprint
    requires k <= |n.children|
    decreases n, |n.children| - k + 1
  {
    if k == |n.children| then []
    else MarkerOf(fn, n, k) + Written(fn, n.children[k]) + WrittenFrom(fn, n, k + 1)
  }

  lemma {:induction false} WrittenStep(fn: CString, n: Node, k: nat)
    requires k <= |n.children|
    ensures WrittenFrom(fn, n, k) ==
            if k == |n.children| then []
            else MarkerOf(fn, n, k) + Written(fn, n.children[k]) + WrittenFrom(fn, n, k + 1)
  {
  }

  lemma {:induction false} IfIsLaidOut(fn: CString, n: Node)
    requires n.kind.IfNode? && 2 <= |n.children| <= 3
    ensures var cond, thens := Written(fn, n.children[0]), [Marker(fn, ThenBlock)] + Written(fn, n.children[1]);
            var elses := if |n.children| == 3 then [Marker(fn, ElseStmt)] + Written(fn, n.children[2]) else [];
            Written(fn, n) == [Marker(fn, IfStmt)] + n.accesses + (cond + (thens + elses)) + [Marker(fn, EndIf)]
  {
    assert Written(fn, n) == [Marker(fn, IfStmt)] + n.accesses + WrittenFrom(fn, n, 0) + [Marker(fn, EndIf)];
    hide WrittenFrom, Written;
    BranchesAreLaidOut(fn, n);
  }

  lemma {:induction false} BranchesAreLaidOut(fn: CString, n: Node)
    requires n.kind.IfNode? && 2 <= |n.children| <= 3
    ensures var cond, thens := Written(fn, n.children[0]), [Marker(fn, ThenBlock)] + Written(fn, n.children[1]);
            var elses := if |n.children| == 3 then [Marker(fn, ElseStmt)] + Written(fn, n.children[2]) else [];
            WrittenFrom(fn, n, 0) == cond + (thens + elses)
  {
    hide WrittenFrom, Written;
    WrittenStep(fn, n, 0);
    WrittenStep(fn, n, 1);
    WrittenStep(fn, n, 2);
    if |n.children| == 3 {
      WrittenStep(fn, n, 3);
    }
  }

  lemma {:induction false} ProperBelow(n: Node)
    requires Proper(n)
    ensures ProperFrom(n, 0)
  {
  }

  lemma {:induction false} BracketIsWritten(fn: CString, n: Node, k: nat)
    requires Proper(n) && k < |n.children| && Proper(n.children[k])
    ensures Bracket(fn, n.children[k], n) == MarkerOf(fn, n, k) + Written(fn, n.children[k])
    decreases n.children[k], |n.children[k].children| + 2
  {
    hide Proper, BracketFrom, WrittenFrom;
    var c := n.children[k];
    ChildMarker(fn, n, k);
    ProperBelow(c);
    BracketsAreWritten(fn, c, 0);
  }

  lemma {:induction false} BracketsAreWritten(fn: CString, n: Node, k: nat)
    requires Proper(n) && k <= |n.children| && ProperFrom(n, k)
    ensures BracketFrom(fn, n, k) == WrittenFrom(fn, n, k)
    decreases n, |n.children| - k + 1
  {
    if k < |n.children| {
      BracketIsWritten(fn, n, k);
      BracketsAreWritten(fn, n, k + 1);
    }
  }

  /** The entries that visiting a function adds, completed by an end-if for every if left on the stack,
      are those of its body in the order of the source. */
  lemma {:induction false} VisitWritesBody(fn: CString, s: State, func: Node)
    requires Proper(func) && !func.kind.IfNode? && ReadyFor(s, func)
    ensures var s' := VisitChildren(fn, s, func, 0);
            s'.entries + Close(fn, s'.stack) == s.entries + Close(fn, s.stack) + WrittenFrom(fn, func, 0)
  {
    VisitorRefinesBrackets(fn, s, func);
    BracketsAreWritten(fn, func, 0);
  }

  /** And the part of each node has exactly the accesses of its tree. */
  lemma {:induction false} WrittenHasTheAccesses(fn: CString, n: Node)
    requires MarkerFree(n)
    ensures Unmarked(Written(fn, n)) == Accesses(n)
    decreases n, |n.children| + 2
  {
    hide Unmarked, WrittenFrom, AccessesFrom;
    WrittenFromHasTheAccesses(fn, n, 0);
    AccessesStay(n.accesses);
    if n.kind.IfNode? {
      var start, kids, end := [Marker(fn, IfStmt)], WrittenFrom(fn, n, 0), [Marker(fn, EndIf)];
      MarkersVanish(fn, IfStmt);
      MarkersVanish(fn, EndIf);
      UnmarkedConcat(start, n.accesses);
      UnmarkedConcat(start + n.accesses, kids);
      UnmarkedConcat(start + n.accesses + kids, end);
    } else {
      UnmarkedConcat(n.accesses, WrittenFrom(fn, n, 0));
    }
  }

  lemma {:induction false} WrittenFromHasTheAccesses(fn: CString, n: Node, k: nat)
    requires k <= |n.children| && MarkerFreeFrom(n, k)
    ensures Unmarked(WrittenFrom(fn, n, k)) == AccessesFrom(n, k)
    decreases n, |n.children| - k + 1
  {
    hide Unmarked;
    if k == |n.children| {
      NothingVanishes();
    } else {
      var mark, c, rest := MarkerOf(fn, n, k), Written(fn, n.children[k]), WrittenFrom(fn, n, k + 1);
      WrittenHasTheAccesses(fn, n.children[k]);
      WrittenFromHasTheAccesses(fn, n, k + 1);
      MarkerVanishes(fn, n, k);
      UnmarkedConcat(mark, c);
      UnmarkedConcat(mark + c, rest);
    }
}
}
