/** The visitor that walks one function body in pre-order (src/core.c:130-236, src/core.c:638), with
    its hand-made ancestor stack (src/cursor_arr.c:23-39) and the branch markers that depend on it
    (src/cursor_arr.c:296-328). Cursors have unique ids; callees are not entered. */
module AstVisitor {
  import opened VarAccesses
  import opened CallForest
  import opened LockRanges

  datatype Kind = IfNode | CallNode | OtherNode

  /** `accesses` are the entries that a visit of the node itself adds: a classified access, or a
      call entry. */
  datatype Node = Node(id: nat, kind: Kind, accesses: Footprint, children: seq<Node>)

  function Marker(fn: CString, t: AccessType): VarAccess {
    VarAccess(0, [], [], fn, None, NO_IDX, 0, 0, t, false)
  }

  /** `log` records at every visit the node and the ancestor stack after it has been adjusted. */
  datatype State = State(last: Option<Node>, stack: seq<Node>, entries: Footprint, log: seq<(Node, seq<Node>)>)

  /** Pops down to the node with the given id, leaving an end-if for every if that goes. */
  function PopTo(fn: CString, id: nat, stack: seq<Node>, entries: Footprint): (seq<Node>, Footprint) {
    if stack == [] || stack[|stack| - 1].id == id then (stack, entries)
    else
      var tail := stack[|stack| - 1];
      PopTo(fn, id, stack[..|stack| - 1], if tail.kind.IfNode? then entries + [Marker(fn, EndIf)] else entries)
  }

  /** Then-block for the second child of an if, else for the last one after that. */
  function BranchMarker(fn: CString, n: Node, parent: Node): Footprint {
    if !parent.kind.IfNode? then []
    else if |parent.children| >= 2 && parent.children[1].id == n.id then [Marker(fn, ThenBlock)]
    else if |parent.children| > 2 && parent.children[|parent.children| - 1].id == n.id then [Marker(fn, ElseStmt)]
    else []
  }

  function OwnEntries(fn: CString, n: Node, parent: Node): Footprint {
    BranchMarker(fn, n, parent) + (if n.kind.IfNode? then [Marker(fn, IfStmt)] else []) + n.accesses
  }

  function Adjusted(fn: CString, s: State, parent: Node): (seq<Node>, Footprint) {
    if s.last.None? || s.last.value.id == parent.id then (s.stack + [parent], s.entries)
    else PopTo(fn, parent.id, s.stack, s.entries)
  }

  function VisitOne(fn: CString, s: State, n: Node, parent: Node): State {
    var (stack, entries) := Adjusted(fn, s, parent);
    var pushed := if n.kind.CallNode? then stack + [n] else stack;
    State(Some(n), pushed, entries + OwnEntries(fn, n, parent), s.log + [(n, stack)])
  }

  /** libclang's recursion over the children of n from child k on. */
  function VisitChildren(fn: CString, s: State, n: Node, k: nat): State
    requires k <= |n.children|
    decreases n, |n.children| - k
  {
    if k == |n.children| then s
    else VisitChildren(fn, VisitChildren(fn, VisitOne(fn, s, n.children[k], n), n.children[k], 0), n, k + 1)
  }

  class FuncVisitor {
    var last: Option<Node>
    var stack: seq<Node>
    var entries: Footprint
    ghost var log: seq<(Node, seq<Node>)>

    ghost function Now(): State
      reads this
    {
      State(last, stack, entries, log)
    }

    constructor ()
      ensures Now() == State(None, [], [], [])
    {
      last, stack, entries, log := None, [], [], [];
    }

    /** Makes the parent the top of the ancestor stack. */
    method AdjustStack(fn: CString, parent: Node)
      modifies this`stack, this`entries
      ensures (stack, entries) == Adjusted(fn, old(Now()), parent)
    {
      if last.None? || parent.id == last.value.id {
        stack := stack + [parent];
        return;
      }
      while |stack| > 0 && stack[|stack| - 1].id != parent.id
        invariant PopTo(fn, parent.id, stack, entries) == PopTo(fn, parent.id, old(stack), old(entries))
        decreases |stack|
      {
        if stack[|stack| - 1].kind.IfNode? {
          entries := entries + [Marker(fn, EndIf)];
        }
        stack := stack[..|stack| - 1];
      }
    }

    method AddEntries(fn: CString, n: Node, parent: Node)
      modifies this`entries
      ensures entries == old(entries) + OwnEntries(fn, n, parent)
    {
      if parent.kind.IfNode? {
        if |parent.children| >= 2 && n.id == parent.children[1].id {
          entries := entries + [Marker(fn, ThenBlock)];
        } else if |parent.children| > 2 && n.id == parent.children[|parent.children| - 1].id {
          entries := entries + [Marker(fn, ElseStmt)];
        }
      }
      assert entries == old(entries) + BranchMarker(fn, n, parent);
      if n.kind.IfNode? {
        entries := entries + [Marker(fn, IfStmt)];
      }
      entries := entries + n.accesses;
    }

    method Visit(fn: CString, n: Node, parent: Node)
      modifies this
      ensures Now() == VisitOne(fn, old(Now()), n, parent)
    {
      AdjustStack(fn, parent);
      last := Some(n);
      log := log + [(n, stack)];
      AddEntries(fn, n, parent);
      if n.kind.CallNode? {
        stack := stack + [n];
      }
    }

    method VisitBelow(fn: CString, n: Node)
      modifies this
      ensures Now() == VisitChildren(fn, old(Now()), n, 0)
      decreases n
    {
      var k := 0;
      while k < |n.children|
        invariant 0 <= k <= |n.children|
        invariant VisitChildren(fn, Now(), n, k) == VisitChildren(fn, old(Now()), n, 0)
      {
        Visit(fn, n.children[k], n);
        VisitBelow(fn, n.children[k]);
        k := k + 1;
      }
    }
  }

  // ----- the reference: brackets by structural recursion -----

  function Bracket(fn: CString, n: Node, parent: Node): Footprint
    decreases n, |n.children| + 2
  {
    OwnEntries(fn, n, parent) + BracketFrom(fn, n, 0) + (if n.kind.IfNode? then [Marker(fn, EndIf)] else [])
  }

  function BracketFrom(fn: CString, n: Node, k: nat): Footprint
    requires k <= |n.children|
    decreases n, |n.children| - k + 1
  {
    if k == |n.children| then [] else Bracket(fn, n.children[k], n) + BracketFrom(fn, n, k + 1)
  }

  /** One end-if for every if on the stack. */
  function Close(fn: CString, stack: seq<Node>): Footprint {
    if stack == [] then []
    else Close(fn, stack[..|stack| - 1]) + (if stack[|stack| - 1].kind.IfNode? then [Marker(fn, EndIf)] else [])
  }

  // ----- unique ids -----

  function Ids(n: Node): set<nat>
    decreases n, |n.children| + 2
  {
    {n.id} + IdsFrom(n, 0)
  }

  function IdsFrom(n: Node, k: nat): set<nat>
    requires k <= |n.children|
    decreases n, |n.children| - k + 1
  {
    if k == |n.children| then {} else Ids(n.children[k]) + IdsFrom(n, k + 1)
  }

  /** No id occurs twice below n, and every if has a condition and a then-branch. */
  ghost predicate Proper(n: Node)
    decreases n, |n.children| + 2
  {
    n.id !in IdsFrom(n, 0) && (n.kind.IfNode? ==> |n.children| >= 2) && ProperFrom(n, 0)
  }

  ghost predicate ProperFrom(n: Node, k: nat)
    requires k <= |n.children|
    decreases n, |n.children| - k + 1
  {
    k == |n.children| ||
    (Proper(n.children[k]) && Ids(n.children[k]) !! IdsFrom(n, k + 1) && ProperFrom(n, k + 1))
  }

  // ----- closing the stack -----

  lemma {:induction false} CloseConcat(fn: CString, a: seq<Node>, b: seq<Node>)
    ensures Close(fn, a + b) == Close(fn, a) + Close(fn, b)
  {
    if b == [] {
      assert a + b == a;
    } else {
      assert (a + b)[..|a + b| - 1] == a + b[..|b| - 1];
      CloseConcat(fn, a, b[..|b| - 1]);
    }
  }

  lemma {:induction false} CloseIsEndIfs(fn: CString, a: seq<Node>)
    ensures forall i :: 0 <= i < |Close(fn, a)| ==> Close(fn, a)[i] == Marker(fn, EndIf)
  {
    if a != [] {
      CloseIsEndIfs(fn, a[..|a| - 1]);
    }
  }

  lemma {:induction false} CloseCommutes(fn: CString, a: seq<Node>, b: seq<Node>)
    ensures Close(fn, a + b) == Close(fn, b) + Close(fn, a)
  {
    CloseConcat(fn, a, b);
    CloseIsEndIfs(fn, a);
    CloseIsEndIfs(fn, b);
  }

  lemma {:induction false} PopStale(fn: CString, id: nat, p: seq<Node>, stale: seq<Node>, entries: Footprint)
    requires p == [] || p[|p| - 1].id == id
    requires forall m :: 0 <= m < |stale| ==> stale[m].id != id
    ensures PopTo(fn, id, p + stale, entries) == (p, entries + Close(fn, stale))
  {
    if stale == [] {
      assert p + stale == p;
    } else {
      var n := |stale| - 1;
      assert (p + stale)[..|p + stale| - 1] == p + stale[..n];
      assert (p + stale)[|p + stale| - 1] == stale[n];
      var end := if stale[n].kind.IfNode? then [Marker(fn, EndIf)] else [];
      PopStale(fn, id, p, stale[..n], entries + end);
      CloseCommutes(fn, stale[..n], [stale[n]]);
      assert stale[..n] + [stale[n]] == stale;
      assert Close(fn, [stale[n]]) == end;
      assert entries + [] == entries;
      RegroupTwo(entries, end, Close(fn, stale[..n]));
    }
  }

  // ----- where a child of `parent` is about to be visited -----

  ghost predicate AtFirstChild(s: State, parent: Node) {
    s.last.None? || s.last.value.id == parent.id
  }

  /** p is the stack that a visit of a child of parent will find after adjusting. */
  ghost predicate Attached(s: State, parent: Node, p: seq<Node>) {
    if AtFirstChild(s, parent) then p == s.stack + [parent]
    else
      && p <= s.stack
      && (p == [] || p[|p| - 1].id == parent.id)
      && forall m :: |p| <= m < |s.stack| ==> s.stack[m].id != parent.id
  }

  /** What of the stack is left over from earlier siblings. */
  ghost function Stale(s: State, parent: Node, p: seq<Node>): seq<Node>
    requires Attached(s, parent, p)
  {
    if AtFirstChild(s, parent) then [] else s.stack[|p|..]
  }

  lemma {:induction false} AdjustmentFindsParent(fn: CString, s: State, parent: Node, p: seq<Node>)
    requires Attached(s, parent, p)
    ensures Adjusted(fn, s, parent) == (p, s.entries + Close(fn, Stale(s, parent, p)))
  {
    if AtFirstChild(s, parent) {
      assert s.entries + [] == s.entries;
    } else {
      assert s.stack == p + s.stack[|p|..];
      PopStale(fn, parent.id, p, s.stack[|p|..], s.entries);
    }
  }

  /** The stack still starts with p, all above it belongs to the nodes `ids`, and the entries,
      completed by an end-if for every if above p, are `goal`. */
  ghost predicate Settles(fn: CString, s: State, p: seq<Node>, ids: set<nat>, goal: Footprint) {
    && s.last.Some? && s.last.value.id in ids
    && p <= s.stack
    && (forall m :: |p| <= m < |s.stack| ==> s.stack[m].id in ids)
    && s.entries + Close(fn, s.stack[|p|..]) == goal
  }

  /** Everything above p after the children: a call node's own entry, n itself, and what its last
      child left over. Closing it yields n's end-if after those of the leftovers. */
  lemma {:induction false} CloseNode(fn: CString, n: Node, s: State, p: seq<Node>, q: seq<Node>, goal: Footprint)
    requires q == p + (if n.kind.CallNode? then [n] else []) + [n] && Settles(fn, s, q, IdsFrom(n, 0), goal)
    ensures Settles(fn, s, p, Ids(n), goal + (if n.kind.IfNode? then [Marker(fn, EndIf)] else []))
  {
    var own := (if n.kind.CallNode? then [n] else []) + [n];
    var above := s.stack[|q|..];
    assert s.stack[|p|..] == own + above;
    CloseCommutes(fn, own, above);
    CloseConcat(fn, if n.kind.CallNode? then [n] else [], [n]);
    assert Close(fn, own) == if n.kind.IfNode? then [Marker(fn, EndIf)] else [];
    assert s.entries + (Close(fn, above) + Close(fn, own)) == s.entries + Close(fn, above) + Close(fn, own);
    forall m | |p| <= m < |s.stack|
      ensures s.stack[m].id in Ids(n)
    {
      if m < |q| {
        assert s.stack[m] == own[m - |p|];
      }
    }
  }

  lemma {:induction false} VisitBrackets(fn: CString, s: State, n: Node, parent: Node, p: seq<Node>)
    requires Attached(s, parent, p) && Proper(n) && parent.id !in Ids(n)
    ensures Settles(fn, VisitChildren(fn, VisitOne(fn, s, n, parent), n, 0), p, Ids(n),
              s.entries + Close(fn, Stale(s, parent, p)) + Bracket(fn, n, parent))
    decreases n, |n.children| + 2
  {
    var before := s.entries + Close(fn, Stale(s, parent, p));
    var s1 := VisitOne(fn, s, n, parent);
    var dup := if n.kind.CallNode? then [n] else [];
    var end := if n.kind.IfNode? then [Marker(fn, EndIf)] else [];
    NodeIsEntered(fn, s, n, parent, p);
    if n.children == [] {
      CloseLeaf(fn, n, s1, p);
      Regroup(before, OwnEntries(fn, n, parent), [], end);
    } else {
      var q := p + dup + [n];
      VisitBracketsFrom(fn, s1, n, 0, q);
      CloseNode(fn, n, VisitChildren(fn, s1, n, 0), p, q, s1.entries + [] + BracketFrom(fn, n, 0));
      Regroup(before, OwnEntries(fn, n, parent), BracketFrom(fn, n, 0), end);
    }
  }

  lemma {:induction false} NodeIsEntered(fn: CString, s: State, n: Node, parent: Node, p: seq<Node>)
    requires Attached(s, parent, p)
    ensures var s1 := VisitOne(fn, s, n, parent);
            && s1.last == Some(n)
            && s1.stack == p + (if n.kind.CallNode? then [n] else [])
            && s1.entries == s.entries + Close(fn, Stale(s, parent, p)) + OwnEntries(fn, n, parent)
            && s1.log == s.log + [(n, p)]
  {
    AdjustmentFindsParent(fn, s, parent, p);
  }

  lemma {:induction false} CloseLeaf(fn: CString, n: Node, s: State, p: seq<Node>)
    requires n.children == [] && !n.kind.IfNode? && s.last == Some(n)
    requires s.stack == p + (if n.kind.CallNode? then [n] else [])
    ensures Settles(fn, s, p, Ids(n), s.entries)
  {
    var dup := if n.kind.CallNode? then [n] else [];
    assert s.stack[|p|..] == dup;
    assert Close(fn, dup) == [];
  }

  lemma {:induction false} Regroup(before: Footprint, own: Footprint, kids: Footprint, end: Footprint)
    ensures before + own + [] + kids + end == before + (own + kids + end)
    ensures before + own == before + (own + [] + [])
  {
  }

  lemma {:induction false} RegroupTwo(before: Footprint, first: Footprint, rest: Footprint)
    ensures before + first + rest == before + (first + rest)
  {
  }

  lemma {:induction false} VisitBracketsFrom(fn: CString, s: State, n: Node, k: nat, p: seq<Node>)
    requires k < |n.children| && Attached(s, n, p) && ProperFrom(n, k) && n.id !in IdsFrom(n, k)
    ensures Settles(fn, VisitChildren(fn, s, n, k), p, IdsFrom(n, k),
              s.entries + Close(fn, Stale(s, n, p)) + BracketFrom(fn, n, k))
    decreases n, |n.children| - k + 1
  {
    var c := n.children[k];
    VisitBrackets(fn, s, c, n, p);
    var s1 := VisitChildren(fn, VisitOne(fn, s, c, n), c, 0);
    var before := s.entries + Close(fn, Stale(s, n, p));
    if k + 1 == |n.children| {
      assert BracketFrom(fn, n, k) == Bracket(fn, c, n) + [];
    } else {
      assert Attached(s1, n, p);
      VisitBracketsFrom(fn, s1, n, k + 1, p);
      RegroupTwo(before, Bracket(fn, c, n), BracketFrom(fn, n, k + 1));
    }
  }

  // ----- one function -----

  /** Nothing visited yet, or whatever was visited before has no part in this function. */
  ghost predicate ReadyFor(s: State, func: Node) {
    if s.last.None? then s.stack == []
    else s.last.value.id != func.id && forall m :: 0 <= m < |s.stack| ==> s.stack[m].id != func.id
  }

  /** The entries that visiting a function adds, completed by one end-if for every if left on the
      final stack, are the brackets of its tree. Ifs that an earlier function left behind are closed
      first. */
  lemma {:induction false} VisitorRefinesBrackets(fn: CString, s: State, func: Node)
    requires Proper(func) && !func.kind.IfNode? && ReadyFor(s, func)
    ensures var s' := VisitChildren(fn, s, func, 0);
            s'.entries + Close(fn, s'.stack) == s.entries + Close(fn, s.stack) + BracketFrom(fn, func, 0)
  {
    if func.children == [] {
      assert s.entries + Close(fn, s.stack) + [] == s.entries + Close(fn, s.stack);
    } else {
      var p := if s.last.None? then [func] else [];
      VisitBracketsFrom(fn, s, func, 0, p);
      assert Stale(s, func, p) == s.stack;
      CloseAbove(fn, VisitChildren(fn, s, func, 0).stack, p);
    }
  }

  lemma {:induction false} CloseAbove(fn: CString, stack: seq<Node>, p: seq<Node>)
    requires p <= stack && Close(fn, p) == []
    ensures Close(fn, stack) == Close(fn, stack[|p|..])
  {
    assert stack == p + stack[|p|..];
    CloseConcat(fn, p, stack[|p|..]);
  }

  // ----- the ancestor stack -----

  /** The stack with adjacent duplicates, which only call nodes leave, taken out. */
  function Collapse(s: seq<Node>): seq<Node> {
    if |s| <= 1 then s
    else if s[|s| - 1] == s[|s| - 2] then Collapse(s[..|s| - 1])
    else Collapse(s[..|s| - 1]) + [s[|s| - 1]]
  }

  function CollapseLog(log: seq<(Node, seq<Node>)>): seq<(Node, seq<Node>)> {
    if log == [] then [] else CollapseLog(log[..|log| - 1]) + [(log[|log| - 1].0, Collapse(log[|log| - 1].1))]
  }

  /** Every node below n from child k on, in pre-order, with the path that leads to it. */
  function PathsFrom(n: Node, k: nat, path: seq<Node>): seq<(Node, seq<Node>)>
    requires k <= |n.children|
    decreases n, |n.children| - k
  {
    if k == |n.children| then []
    else [(n.children[k], path)] + PathsFrom(n.children[k], 0, path + [n.children[k]]) + PathsFrom(n, k + 1, path)
  }

  lemma {:induction false} CollapsePush(p: seq<Node>, n: Node)
    requires p == [] || p[|p| - 1] != n
    ensures Collapse(p + [n]) == Collapse(p) + [n]
    ensures Collapse(p + [n] + [n]) == Collapse(p) + [n]
  {
    assert (p + [n])[..|p|] == p;
    assert (p + [n] + [n])[..|p| + 1] == p + [n];
  }

  /** After a child the parent's path is still in place for the next one. */
  lemma {:induction false} NextChildIsAttached(fn: CString, s: State, n: Node, k: nat, p: seq<Node>)
    requires k + 1 < |n.children| && Attached(s, n, p) && ProperFrom(n, k) && n.id !in IdsFrom(n, k)
    ensures Attached(VisitChildren(fn, VisitOne(fn, s, n.children[k], n), n.children[k], 0), n, p)
  {
    VisitBrackets(fn, s, n.children[k], n, p);
  }

  /** The same nodes with the stack that stands when they are visited: the path, call nodes twice. */
  function StacksFrom(n: Node, k: nat, stack: seq<Node>): seq<(Node, seq<Node>)>
    requires k <= |n.children|
    decreases n, |n.children| - k
  {
    if k == |n.children| then []
    else
      var c := n.children[k];
      var below := if c.kind.CallNode? then stack + [c] + [c] else stack + [c];
      [(c, stack)] + StacksFrom(c, 0, below) + StacksFrom(n, k + 1, stack)
  }

  lemma {:induction false} StackBelowNode(fn: CString, s: State, n: Node, k: nat, p: seq<Node>)
    requires k <= |n.children| && Attached(s, n, p) && ProperFrom(n, k) && n.id !in IdsFrom(n, k)
    ensures VisitChildren(fn, s, n, k).log == s.log + StacksFrom(n, k, p)
    decreases n, |n.children| - k
  {
    if k < |n.children| {
      var c := n.children[k];
      var s1 := VisitChildren(fn, VisitOne(fn, s, c, n), c, 0);
      StackBelowChild(fn, s, n, k, p);
      if k + 1 < |n.children| {
        NextChildIsAttached(fn, s, n, k, p);
        StackBelowNode(fn, s1, n, k + 1, p);
      }
    }
  }

  lemma {:induction false} StackBelowChild(fn: CString, s: State, n: Node, k: nat, p: seq<Node>)
    requires k < |n.children| && Attached(s, n, p) && ProperFrom(n, k) && n.id !in IdsFrom(n, k)
    ensures var c := n.children[k];
            VisitChildren(fn, VisitOne(fn, s, c, n), c, 0).log + StacksFrom(n, k + 1, p) ==
              s.log + StacksFrom(n, k, p)
    decreases n, |n.children| - k, 0
  {
    var c := n.children[k];
    var below := if c.kind.CallNode? then p + [c] + [c] else p + [c];
    NodeIsEntered(fn, s, c, n, p);
    assert p + [] == p;
    ChildIsProper(n, k);
    hide VisitOne, Proper, ProperFrom, IdsFrom;
    StackBelowNode(fn, VisitOne(fn, s, c, n), c, 0, below);
    JoinPaths(s.log, (c, p), StacksFrom(c, 0, below), StacksFrom(n, k + 1, p));
  }

  lemma {:induction false} ChildIsProper(n: Node, k: nat)
    requires k < |n.children| && ProperFrom(n, k) && n.id !in IdsFrom(n, k)
    ensures var c := n.children[k];
            ProperFrom(c, 0) && c.id !in IdsFrom(c, 0) && c.id != n.id
    ensures ProperFrom(n, k + 1) && n.id !in IdsFrom(n, k + 1)
  {
  }

  lemma {:induction false} JoinPaths<T>(l: seq<T>, x: T, a: seq<T>, b: seq<T>)
    ensures l + [x] + a + b == l + ([x] + a + b)
  {
  }

  /** Without the duplicates those stacks are the paths. */
  lemma {:induction false} StacksCollapse(n: Node, k: nat, p: seq<Node>)
    requires k <= |n.children| && ProperFrom(n, k) && n.id !in IdsFrom(n, k)
    requires p == [] || p[|p| - 1].id == n.id
    ensures CollapseLog(StacksFrom(n, k, p)) == PathsFrom(n, k, Collapse(p))
    decreases n, |n.children| - k
  {
    if k < |n.children| {
      var c := n.children[k];
      var below := if c.kind.CallNode? then p + [c] + [c] else p + [c];
      ChildIsProper(n, k);
      CollapsePush(p, c);
      hide Collapse, CollapseLog, Proper, ProperFrom, IdsFrom;
      StacksCollapse(c, 0, below);
      StacksCollapse(n, k + 1, p);
      CollapseStep((c, p), StacksFrom(c, 0, below), StacksFrom(n, k + 1, p));
    }
  }

  lemma {:induction false} CollapseStep(x: (Node, seq<Node>), a: seq<(Node, seq<Node>)>, b: seq<(Node, seq<Node>)>)
    ensures CollapseLog([x] + a + b) == [(x.0, Collapse(x.1))] + CollapseLog(a) + CollapseLog(b)
  {
    CollapseConcat([x], a);
    CollapseConcat([x] + a, b);
    assert [x][..0] == [];
  }

  lemma {:induction false} CollapseConcat(a: seq<(Node, seq<Node>)>, b: seq<(Node, seq<Node>)>)
    ensures CollapseLog(a + b) == CollapseLog(a) + CollapseLog(b)
    decreases b
  {
    if b == [] {
      assert a + b == a;
    } else {
      assert (a + b)[..|a + b| - 1] == a + b[..|b| - 1];
      CollapseConcat(a, b[..|b| - 1]);
    }
  }

  /** At every visit the stack is the path of ancestors from the function down to the parent, with call
      nodes twice; in a function visited after another one it starts below the function itself. */
  lemma {:induction false} StackIsPath(fn: CString, s: State, func: Node)
    requires Proper(func) && ReadyFor(s, func)
    ensures var start, log := if s.last.None? then [func] else [], VisitChildren(fn, s, func, 0).log;
            && log == s.log + StacksFrom(func, 0, start)
            && CollapseLog(log) == CollapseLog(s.log) + PathsFrom(func, 0, start)
  {
    var start := if s.last.None? then [func] else [];
    StackBelowNode(fn, s, func, 0, start);
    CollapseConcat(s.log, StacksFrom(func, 0, start));
    StacksCollapse(func, 0, start);
  }

  // ----- every if is followed by its then-block -----

  /** The accesses of the nodes are not themselves branch markers. */
  ghost predicate PlainAccesses(n: Node)
    decreases n, |n.children| + 2
  {
    (forall v :: v in n.accesses ==> !v.ty.IfStmt?) && PlainAccessesFrom(n, 0)
  }

  ghost predicate PlainAccessesFrom(n: Node, k: nat)
    requires k <= |n.children|
    decreases n, |n.children| - k + 1
  {
    k == |n.children| || (PlainAccesses(n.children[k]) && PlainAccessesFrom(n, k + 1))
  }

  ghost predicate ThenFollows(ev: Footprint) {
    forall i :: 0 <= i < |ev| && ev[i].ty.IfStmt? ==> ThenAfter(ev, i)
  }

  ghost predicate ThenAfter(ev: Footprint, i: int) {
    exists j :: i < j < |ev| && 0 <= j && ev[j].ty.ThenBlock?
  }

  lemma {:induction false} ThenFollowsConcat(a: Footprint, b: Footprint)
    requires ThenFollows(b) && forall i :: 0 <= i < |a| && a[i].ty.IfStmt? ==> ThenAfter(a, i) || ThenAfter(b, -1)
    ensures ThenFollows(a + b)
  {
    forall i | 0 <= i < |a + b| && (a + b)[i].ty.IfStmt?
      ensures ThenAfter(a + b, i)
    {
      if i < |a| && ThenAfter(a, i) {
        var j :| i < j < |a| && 0 <= j && a[j].ty.ThenBlock?;
        assert (a + b)[j].ty.ThenBlock?;
      } else {
        if i >= |a| {
          assert b[i - |a|].ty.IfStmt?;
        }
        var j :| (if i < |a| then -1 else i - |a|) < j < |b| && 0 <= j && b[j].ty.ThenBlock?;
        assert (a + b)[|a| + j].ty.ThenBlock?;
      }
    }
  }

  lemma {:induction false} OwnIfs(fn: CString, n: Node, parent: Node)
    requires PlainAccesses(n)
    ensures var own := OwnEntries(fn, n, parent);
            forall i :: 0 <= i < |own| && own[i].ty.IfStmt? ==> n.kind.IfNode?
  {
    var own := OwnEntries(fn, n, parent);
    var front := |own| - |n.accesses|;
    forall i | 0 <= i < |own|
      ensures own[i].ty.IfStmt? ==> n.kind.IfNode?
    {
      if front <= i {
        assert own[i] == n.accesses[i - front];
      }
    }
  }

  lemma {:induction false} BracketHasThens(fn: CString, n: Node, parent: Node)
    requires Proper(n) && PlainAccesses(n)
    ensures ThenFollows(Bracket(fn, n, parent))
    decreases n, |n.children| + 2
  {
    BracketsHaveThens(fn, n, 0);
    var kids := BracketFrom(fn, n, 0);
    var end := if n.kind.IfNode? then [Marker(fn, EndIf)] else [];
    if n.kind.IfNode? {
      ThenBranchComes(fn, n);
    }
    var own := OwnEntries(fn, n, parent);
    OwnIfs(fn, n, parent);
    ThenFollowsConcat(own, kids);
    ThenFollowsConcat(own + kids, end);
  }

  /** The second child of an if opens with a then-block. */
  lemma {:induction false} ThenBranchComes(fn: CString, n: Node)
    requires Proper(n) && n.kind.IfNode?
    ensures ThenAfter(BracketFrom(fn, n, 0), -1)
  {
    var c := n.children[1];
    assert BranchMarker(fn, c, n) == [Marker(fn, ThenBlock)];
    assert Bracket(fn, c, n)[0].ty.ThenBlock?;
    var kids := BracketFrom(fn, n, 0);
    assert BracketFrom(fn, n, 1) == Bracket(fn, c, n) + BracketFrom(fn, n, 2);
    assert kids == Bracket(fn, n.children[0], n) + BracketFrom(fn, n, 1);
    assert kids[|Bracket(fn, n.children[0], n)|].ty.ThenBlock?;
  }

  lemma {:induction false} BracketsHaveThens(fn: CString, n: Node, k: nat)
    requires k <= |n.children| && ProperFrom(n, k) && PlainAccessesFrom(n, k)
    ensures ThenFollows(BracketFrom(fn, n, k))
    decreases n, |n.children| - k + 1
  {
    if k < |n.children| {
      BracketHasThens(fn, n.children[k], n);
      BracketsHaveThens(fn, n, k + 1);
      ThenFollowsConcat(Bracket(fn, n.children[k], n), BracketFrom(fn, n, k + 1));
    }
  }

  lemma {:induction false} ThenFollowsPrefix(ev: Footprint, ends: Footprint)
    requires ThenFollows(ev + ends) && forall i :: 0 <= i < |ends| ==> ends[i].ty.EndIf?
    ensures EveryIfHasThen(ev)
  {
    assert forall k :: |ev| <= k < |ev + ends| ==> (ev + ends)[k].ty.EndIf?;
    forall i | 0 <= i < |ev| && ev[i].ty.IfStmt?
      ensures NextThen(ev, i) < |ev|
    {
      assert (ev + ends)[i].ty.IfStmt?;
      assert ThenAfter(ev + ends, i);
      var j :| i < j < |ev + ends| && 0 <= j && (ev + ends)[j].ty.ThenBlock?;
      assert ev[j].ty.ThenBlock?;
    }
  }

  /** What the range index asks of a footprint is met by the entries of every visited function: each
      if is followed by a then-block. */
  lemma {:induction false} VisitedIfsHaveThens(fn: CString, s: State, func: Node)
    requires Proper(func) && PlainAccesses(func) && !func.kind.IfNode? && ReadyFor(s, func) && s.entries == []
    ensures EveryIfHasThen(VisitChildren(fn, s, func, 0).entries)
  {
    var s' := VisitChildren(fn, s, func, 0);
    VisitorRefinesBrackets(fn, s, func);
    BracketsHaveThens(fn, func, 0);
    CloseIsEndIfs(fn, s.stack);
    CloseIsEndIfs(fn, s'.stack);
    ThenFollowsConcat(Close(fn, s.stack), BracketFrom(fn, func, 0));
    assert s.entries + Close(fn, s.stack) == Close(fn, s.stack);
    ThenFollowsPrefix(s'.entries, Close(fn, s'.stack));
  }
}
