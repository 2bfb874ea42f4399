/** Collecting the functions that the analysed ones call (src/core.c:561-640, src/core.c:677-687,
    src/prong.c:203-207). The syntax tree is reduced to what this needs: the body of a function is a
    list of accesses, already classified, and of calls by USR. */
module CallForest {
  import opened CIntegers
  import opened VarAccesses
  import opened Sequences

  const NO_IDX := UINT_MAX

  datatype Item = Access(va: VarAccess) | CallExpr(usr: CString)

  datatype FuncDef = FuncDef(name: CString, spelling: CString, inSystemHeader: bool, hasDefinition: bool,
      body: seq<Item>)

  /** What libclang knows of every function; a USR it cannot resolve is a bare declaration. */
  type Program = map<CString, FuncDef>

  function Lookup(prog: Program, usr: CString): FuncDef {
    if usr in prog then prog[usr] else FuncDef(usr, usr, false, false, [])
  }

  predicate Expanded(prog: Program, usr: CString) {
    var d := Lookup(prog, usr);
    !d.inSystemHeader && d.hasDefinition
  }

  datatype FuncInfo = FuncInfo(
    usr: CString,
    name: CString,
    inSystemHeader: bool,
    hasDefinition: bool,
    callees: seq<FuncInfo>,
    varAccesses: Footprint)

  function NewFuncInfo(prog: Program, usr: CString): FuncInfo {
    var d := Lookup(prog, usr);
    FuncInfo(usr, d.name, d.inSystemHeader, d.hasDefinition, [], [])
  }

  /** A call entry: its USR and name are those of the callee, and it names no parameter. */
  function CallEntry(prog: Program, usr: CString, caller: CString): VarAccess {
    VarAccess(0, usr, Lookup(prog, usr).spelling, caller, Some(Lookup(prog, usr).spelling), NO_IDX, 0, 0, Call, false)
  }

  // ----- the universe of functions -----

  function CallsIn(items: seq<Item>): set<CString> {
    set it | it in items && it.CallExpr? :: it.usr
  }

  /** u contains everything that any body calls. */
  ghost predicate Closed(prog: Program, u: set<CString>) {
    forall f :: f in prog ==> CallsIn(prog[f].body) <= u
  }

  ghost predicate Fits(prog: Program, u: set<CString>, items: seq<Item>) {
    Closed(prog, u) && CallsIn(items) <= u
  }

  ghost function Untouched(u: set<CString>, touched: seq<CString>): set<CString> {
    u - Elements(touched)
  }

  lemma {:induction false} TouchingShrinks(u: set<CString>, touched: seq<CString>, usr: CString)
    requires usr in u && usr !in touched
    ensures |Untouched(u, touched + [usr])| < |Untouched(u, touched)|
  {
    assert Untouched(u, touched + [usr]) == Untouched(u, touched) - {usr};
  }

  lemma {:induction false} MoreTouchedFewerLeft(u: set<CString>, touched: seq<CString>, more: seq<CString>)
    requires touched <= more
    ensures |Untouched(u, more)| <= |Untouched(u, touched)|
  {
    assert Untouched(u, more) <= Untouched(u, touched);
    SubsetIsNoLarger(Untouched(u, more), Untouched(u, touched));
  }

  lemma {:induction false} FitsRest(prog: Program, u: set<CString>, items: seq<Item>)
    requires Fits(prog, u, items) && items != []
    ensures Fits(prog, u, items[1..]) && (items[0].CallExpr? ==> items[0].usr in u)
  {
    assert items[0] in items;
    assert forall it :: it in items[1..] ==> it in items;
  }

  lemma {:induction false} FitsBody(prog: Program, u: set<CString>, items: seq<Item>, usr: CString)
    requires Fits(prog, u, items)
    ensures Fits(prog, u, Lookup(prog, usr).body)
  {
  }

  // ----- one body -----

  datatype Visit = Visit(entries: Footprint, callees: seq<FuncInfo>, touched: seq<CString>)

  /** What visiting a body of function `caller` collects, and which functions are touched afterwards. */
  ghost function VisitBody(prog: Program, u: set<CString>, caller: CString, items: seq<Item>,
      touched: seq<CString>): (r: Visit)
    requires Fits(prog, u, items)
    ensures touched <= r.touched
    decreases |Untouched(u, touched)|, |items|
  {
    if items == [] then Visit([], [], touched)
    else
      FitsRest(prog, u, items);
      match items[0]
      case Access(va) =>
        var rest := VisitBody(prog, u, caller, items[1..], touched);
        rest.(entries := [va] + rest.entries)
      case CallExpr(usr) =>
        if usr in touched then VisitBody(prog, u, caller, items[1..], touched)
        else
          var (callee, after) := VisitCallee(prog, u, usr, touched);
          MoreTouchedFewerLeft(u, touched, after);
          var rest := VisitBody(prog, u, caller, items[1..], after);
          Visit([CallEntry(prog, usr, caller)] + rest.entries, [callee] + rest.callees, rest.touched)
  }

  /** The callee's node, filled in at once if it can be, before the caller's body goes on. */
  ghost function VisitCallee(prog: Program, u: set<CString>, usr: CString,
      touched: seq<CString>): (r: (FuncInfo, seq<CString>))
    requires Closed(prog, u) && usr in u && usr !in touched
    ensures touched + [usr] <= r.1
    decreases |Untouched(u, touched)|, 0
  {
    var info := NewFuncInfo(prog, usr);
    if !Expanded(prog, usr) then (info, touched + [usr])
    else
      TouchingShrinks(u, touched, usr);
      FitsBody(prog, u, [], usr);
      var v := VisitBody(prog, u, Lookup(prog, usr).spelling, Lookup(prog, usr).body, touched + [usr]);
      (info.(callees := v.callees, varAccesses := v.entries), v.touched)
  }

  /** What has been collected, continued by what the rest of the body yields, is the goal. */
  ghost predicate OnTheWay(prog: Program, u: set<CString>, caller: CString, items: seq<Item>, v: Visit, goal: Visit) {
    && Fits(prog, u, items)
    && var rest := VisitBody(prog, u, caller, items, v.touched);
       goal == Visit(v.entries + rest.entries, v.callees + rest.callees, rest.touched)
  }

  lemma {:induction false} AccessStep(prog: Program, u: set<CString>, caller: CString, items: seq<Item>, v: Visit,
      goal: Visit)
    requires items != [] && OnTheWay(prog, u, caller, items, v, goal)
    requires items[0].Access? || items[0].usr in v.touched
    ensures var next := if items[0].Access? then v.(entries := v.entries + [items[0].va]) else v;
            OnTheWay(prog, u, caller, items[1..], next, goal)
  {
    FitsRest(prog, u, items);
    if items[0].Access? {
      var rest := VisitBody(prog, u, caller, items[1..], v.touched);
      assert v.entries + ([items[0].va] + rest.entries) == v.entries + [items[0].va] + rest.entries;
    }
  }

  lemma {:induction false} CallStep(prog: Program, u: set<CString>, caller: CString, items: seq<Item>, v: Visit,
      goal: Visit)
    requires items != [] && OnTheWay(prog, u, caller, items, v, goal)
    requires items[0].CallExpr? && items[0].usr !in v.touched
    ensures items[0].usr in u
    ensures var usr := items[0].usr;
            var (callee, after) := VisitCallee(prog, u, usr, v.touched);
            var next := Visit(v.entries + [CallEntry(prog, usr, caller)], v.callees + [callee], after);
            OnTheWay(prog, u, caller, items[1..], next, goal)
  {
    FitsRest(prog, u, items);
    var usr := items[0].usr;
    var (callee, after) := VisitCallee(prog, u, usr, v.touched);
    var rest := VisitBody(prog, u, caller, items[1..], after);
    var call := CallEntry(prog, usr, caller);
    assert v.entries + ([call] + rest.entries) == v.entries + [call] + rest.entries;
    assert v.callees + ([callee] + rest.callees) == v.callees + [callee] + rest.callees;
  }

  /** The visitor's part of prong_priv that lasts from one function to the next. */
  class Visitor {
    var touchedFuncUsrs: seq<CString>

    constructor ()
      ensures touchedFuncUsrs == []
    {
      touchedFuncUsrs := [];
    }

    /** Visits the body of a function that has no callees and accesses yet, and fills them in. */
    method ProcessFuncInfo(prog: Program, ghost u: set<CString>, info: FuncInfo, spelling: CString, body: seq<Item>)
      returns (r: FuncInfo)
      requires Fits(prog, u, body)
      modifies this
      ensures var v := VisitBody(prog, u, spelling, body, old(touchedFuncUsrs));
              r == info.(callees := v.callees, varAccesses := v.entries) && touchedFuncUsrs == v.touched
      decreases |Untouched(u, touchedFuncUsrs)|, 1
    {
      var callees: seq<FuncInfo>, varAccesses: Footprint := [], [];
      ghost var goal := VisitBody(prog, u, spelling, body, touchedFuncUsrs);
      var i := 0;
      while i < |body|
        invariant 0 <= i <= |body| && old(touchedFuncUsrs) <= touchedFuncUsrs
        invariant OnTheWay(prog, u, spelling, body[i..], Visit(varAccesses, callees, touchedFuncUsrs), goal)
        decreases |body| - i
      {
        ghost var v := Visit(varAccesses, callees, touchedFuncUsrs);
        assert body[i..][1..] == body[i + 1..];
        match body[i] {
          case Access(va) =>
            AccessStep(prog, u, spelling, body[i..], v, goal);
            varAccesses := varAccesses + [va];
          case CallExpr(usr) =>
            if usr in touchedFuncUsrs {
              AccessStep(prog, u, spelling, body[i..], v, goal);
            } else {
              CallStep(prog, u, spelling, body[i..], v, goal);
              MoreTouchedFewerLeft(u, old(touchedFuncUsrs), touchedFuncUsrs);
              varAccesses := varAccesses + [CallEntry(prog, usr, spelling)];
              var callee := TouchCallee(prog, u, usr);
              callees := callees + [callee];
            }
        }
        i := i + 1;
      }
      r := info.(callees := callees, varAccesses := varAccesses);
    }

    method TouchCallee(prog: Program, ghost u: set<CString>, usr: CString) returns (callee: FuncInfo)
      requires Closed(prog, u) && usr in u && usr !in touchedFuncUsrs
      modifies this
      ensures (callee, touchedFuncUsrs) == VisitCallee(prog, u, usr, old(touchedFuncUsrs))
      decreases |Untouched(u, touchedFuncUsrs)|, 0
    {
      TouchingShrinks(u, touchedFuncUsrs, usr);
      touchedFuncUsrs := touchedFuncUsrs + [usr];
      callee := NewFuncInfo(prog, usr);
      if !callee.inSystemHeader && callee.hasDefinition {
        FitsBody(prog, u, [], usr);
        callee := ProcessFuncInfo(prog, u, callee, Lookup(prog, usr).spelling, Lookup(prog, usr).body);
      }
    }
  }

  // ----- the forest lists every touched function once -----

  function Preorder(f: FuncInfo): seq<CString> {
    [f.usr] + PreorderAll(f.callees)
  }

  function PreorderAll(fs: seq<FuncInfo>): seq<CString> {
    if fs == [] then [] else Preorder(fs[0]) + PreorderAll(fs[1..])
  }

  lemma {:induction false} JoinPreorders(touched: seq<CString>, after: seq<CString>, callee: FuncInfo,
      rest: seq<FuncInfo>)
    requires after == touched + Preorder(callee)
    ensures after + PreorderAll(rest) == touched + PreorderAll([callee] + rest)
  {
    assert ([callee] + rest)[1..] == rest;
  }

  /** The functions touched by a visit are the nodes of the trees it built, in pre-order. */
  lemma {:induction false} TouchedIsPreorder(prog: Program, u: set<CString>, caller: CString, items: seq<Item>,
      touched: seq<CString>)
    requires Fits(prog, u, items)
    ensures var v := VisitBody(prog, u, caller, items, touched); v.touched == touched + PreorderAll(v.callees)
    decreases |Untouched(u, touched)|, |items|
  {
    if items != [] {
      FitsRest(prog, u, items);
      if items[0].CallExpr? && items[0].usr !in touched {
        var (callee, after) := VisitCallee(prog, u, items[0].usr, touched);
        MoreTouchedFewerLeft(u, touched, after);
        CalleeIsPreorder(prog, u, items[0].usr, touched);
        TouchedIsPreorder(prog, u, caller, items[1..], after);
        JoinPreorders(touched, after, callee, VisitBody(prog, u, caller, items[1..], after).callees);
      } else {
        TouchedIsPreorder(prog, u, caller, items[1..], touched);
      }
    }
  }

  lemma {:induction false} CalleeIsPreorder(prog: Program, u: set<CString>, usr: CString, touched: seq<CString>)
    requires Closed(prog, u) && usr in u && usr !in touched
    ensures var (callee, after) := VisitCallee(prog, u, usr, touched); after == touched + Preorder(callee)
    decreases |Untouched(u, touched)|, 0
  {
    if Expanded(prog, usr) {
      TouchingShrinks(u, touched, usr);
      FitsBody(prog, u, [], usr);
      TouchedIsPreorder(prog, u, Lookup(prog, usr).spelling, Lookup(prog, usr).body, touched + [usr]);
    }
  }

  lemma {:induction false} TouchedStaysDistinct(prog: Program, u: set<CString>, caller: CString, items: seq<Item>,
      touched: seq<CString>)
    requires Fits(prog, u, items) && Distinct(touched)
    ensures Distinct(VisitBody(prog, u, caller, items, touched).touched)
    decreases |Untouched(u, touched)|, |items|
  {
    if items != [] {
      FitsRest(prog, u, items);
      if items[0].CallExpr? && items[0].usr !in touched {
        var usr := items[0].usr;
        var (callee, after) := VisitCallee(prog, u, usr, touched);
        MoreTouchedFewerLeft(u, touched, after);
        DistinctConcat(touched, [usr]);
        if Expanded(prog, usr) {
          TouchingShrinks(u, touched, usr);
          FitsBody(prog, u, [], usr);
          TouchedStaysDistinct(prog, u, Lookup(prog, usr).spelling, Lookup(prog, usr).body, touched + [usr]);
        }
        TouchedStaysDistinct(prog, u, caller, items[1..], after);
      } else {
        TouchedStaysDistinct(prog, u, caller, items[1..], touched);
      }
    }
  }

  // ----- what is touched -----

  /** Everything an expanded function calls is touched. */
  ghost predicate CallsAreTouched(prog: Program, usr: CString, touched: seq<CString>) {
    Expanded(prog, usr) ==> CallsIn(Lookup(prog, usr).body) <= Elements(touched)
  }

  /** A visit leaves no call of its body untouched, nor any call of a function it has newly touched. */
  lemma {:induction false} VisitIsClosed(prog: Program, u: set<CString>, caller: CString, items: seq<Item>,
      touched: seq<CString>)
    requires Fits(prog, u, items)
    ensures var v := VisitBody(prog, u, caller, items, touched);
            && CallsIn(items) <= Elements(v.touched)
            && forall w :: w in v.touched && w !in touched ==> CallsAreTouched(prog, w, v.touched)
    decreases |Untouched(u, touched)|, |items|
  {
    if items != [] {
      FitsRest(prog, u, items);
      var v := VisitBody(prog, u, caller, items, touched);
      assert forall it :: it in items <==> it == items[0] || it in items[1..];
      if items[0].CallExpr? && items[0].usr !in touched {
        var usr := items[0].usr;
        var (callee, after) := VisitCallee(prog, u, usr, touched);
        MoreTouchedFewerLeft(u, touched, after);
        VisitIsClosed(prog, u, caller, items[1..], after);
        CalleeIsClosed(prog, u, usr, touched);
        JoinClosed(prog, touched, after, v.touched);
      } else {
        VisitIsClosed(prog, u, caller, items[1..], touched);
      }
    }
  }

  lemma {:induction false} CalleeIsClosed(prog: Program, u: set<CString>, usr: CString, touched: seq<CString>)
    requires Closed(prog, u) && usr in u && usr !in touched
    ensures var after := VisitCallee(prog, u, usr, touched).1;
            usr in after && forall w :: w in after && w !in touched ==> CallsAreTouched(prog, w, after)
    decreases |Untouched(u, touched)|, 0
  {
    if Expanded(prog, usr) {
      TouchingShrinks(u, touched, usr);
      FitsBody(prog, u, [], usr);
      VisitIsClosed(prog, u, Lookup(prog, usr).spelling, Lookup(prog, usr).body, touched + [usr]);
    }
    assert usr in touched + [usr];
  }

  lemma {:induction false} JoinClosed(prog: Program, touched: seq<CString>, after: seq<CString>, last: seq<CString>)
    requires touched <= after <= last
    requires forall w :: w in after && w !in touched ==> CallsAreTouched(prog, w, after)
    requires forall w :: w in last && w !in after ==> CallsAreTouched(prog, w, last)
    ensures forall w :: w in last && w !in touched ==> CallsAreTouched(prog, w, last)
  {
    forall w | w in last && w !in touched
      ensures CallsAreTouched(prog, w, last)
    {
      if w in after {
        assert CallsAreTouched(prog, w, after);
      }
    }
  }

  /** v is called by one of the functions in `called`, or by an expanded function that is, and so on. */
  ghost predicate ReachableIn(prog: Program, called: set<CString>, v: CString, n: nat)
    decreases n
  {
    if n == 0 then v in called
    else exists w :: ReachableIn(prog, called, w, n - 1) && CalledFrom(prog, w, v)
  }

  ghost predicate CalledFrom(prog: Program, w: CString, v: CString) {
    Expanded(prog, w) && v in CallsIn(Lookup(prog, w).body)
  }

  ghost predicate Reachable(prog: Program, called: set<CString>, v: CString) {
    exists n: nat :: ReachableIn(prog, called, v, n)
  }

  lemma {:induction false} ReachableStep(prog: Program, called: set<CString>, w: CString, v: CString)
    requires Reachable(prog, called, w) && CalledFrom(prog, w, v)
    ensures Reachable(prog, called, v)
  {
    var n: nat :| ReachableIn(prog, called, w, n);
    assert ReachableIn(prog, called, v, n + 1);
  }

  ghost predicate AllReachable(prog: Program, called: set<CString>, usrs: set<CString>) {
    forall v :: v in usrs ==> Reachable(prog, called, v)
  }

  /** A visit touches nothing out of reach. */
  lemma {:induction false} VisitStaysInReach(prog: Program, u: set<CString>, caller: CString, items: seq<Item>,
      touched: seq<CString>, called: set<CString>)
    requires Fits(prog, u, items)
    requires AllReachable(prog, called, CallsIn(items)) && AllReachable(prog, called, Elements(touched))
    ensures AllReachable(prog, called, Elements(VisitBody(prog, u, caller, items, touched).touched))
    decreases |Untouched(u, touched)|, |items|
  {
    if items != [] {
      FitsRest(prog, u, items);
      assert items[0] in items && forall it :: it in items[1..] ==> it in items;
      if items[0].CallExpr? && items[0].usr !in touched {
        var usr := items[0].usr;
        var after := VisitCallee(prog, u, usr, touched).1;
        MoreTouchedFewerLeft(u, touched, after);
        assert usr in CallsIn(items);
        CalleeStaysInReach(prog, u, usr, touched, called);
        VisitStaysInReach(prog, u, caller, items[1..], after, called);
      } else {
        VisitStaysInReach(prog, u, caller, items[1..], touched, called);
      }
    }
  }

  lemma {:induction false} CalleeStaysInReach(prog: Program, u: set<CString>, usr: CString, touched: seq<CString>,
      called: set<CString>)
    requires Closed(prog, u) && usr in u && usr !in touched
    requires Reachable(prog, called, usr) && AllReachable(prog, called, Elements(touched))
    ensures AllReachable(prog, called, Elements(VisitCallee(prog, u, usr, touched).1))
    decreases |Untouched(u, touched)|, 0
  {
    assert Elements(touched + [usr]) == Elements(touched) + {usr};
    if Expanded(prog, usr) {
      TouchingShrinks(u, touched, usr);
      FitsBody(prog, u, [], usr);
      var body := Lookup(prog, usr).body;
      forall v | v in CallsIn(body)
        ensures Reachable(prog, called, v)
      {
        ReachableStep(prog, called, usr, v);
      }
      VisitStaysInReach(prog, u, Lookup(prog, usr).spelling, body, touched + [usr], called);
    }
  }

  // ----- all roots -----

  function RootCalls(prog: Program, roots: seq<CString>): set<CString> {
    if roots == [] then {} else CallsIn(Lookup(prog, roots[0]).body) + RootCalls(prog, roots[1..])
  }

  /** The roots are processed one after the other and share one touched list. */
  ghost function VisitRoots(prog: Program, u: set<CString>, roots: seq<CString>,
      touched: seq<CString>): (r: (seq<FuncInfo>, seq<CString>))
    requires Closed(prog, u)
    ensures touched <= r.1 && |r.0| == |roots|
  {
    if roots == [] then ([], touched)
    else
      FitsBody(prog, u, [], roots[0]);
      var d := Lookup(prog, roots[0]);
      var v := VisitBody(prog, u, d.spelling, d.body, touched);
      var rest := VisitRoots(prog, u, roots[1..], v.touched);
      ([NewFuncInfo(prog, roots[0]).(callees := v.callees, varAccesses := v.entries)] + rest.0, rest.1)
  }

  ghost predicate RootsOnTheWay(prog: Program, u: set<CString>, roots: seq<CString>, funcs: seq<FuncInfo>,
      touched: seq<CString>, goal: (seq<FuncInfo>, seq<CString>))
    requires Closed(prog, u)
  {
    var rest := VisitRoots(prog, u, roots, touched);
    goal.0 == funcs + rest.0 && goal.1 == rest.1
  }

  lemma {:induction false} RootStep(prog: Program, u: set<CString>, roots: seq<CString>, funcs: seq<FuncInfo>,
      touched: seq<CString>, goal: (seq<FuncInfo>, seq<CString>))
    requires Closed(prog, u) && roots != [] && RootsOnTheWay(prog, u, roots, funcs, touched, goal)
    ensures var d := Lookup(prog, roots[0]);
            && Fits(prog, u, d.body)
            && var v := VisitBody(prog, u, d.spelling, d.body, touched);
               RootsOnTheWay(prog, u, roots[1..],
                 funcs + [NewFuncInfo(prog, roots[0]).(callees := v.callees, varAccesses := v.entries)],
                 v.touched, goal)
  {
    FitsBody(prog, u, [], roots[0]);
    var rest := VisitRoots(prog, u, roots, touched);
    assert funcs + rest.0 == funcs + [rest.0[0]] + rest.0[1..];
  }

  method ProcessRoots(prog: Program, ghost u: set<CString>, roots: seq<CString>)
    returns (funcs: seq<FuncInfo>, touched: seq<CString>)
    requires Closed(prog, u)
    ensures (funcs, touched) == VisitRoots(prog, u, roots, [])
  {
    var visitor := new Visitor();
    funcs := [];
    ghost var goal := VisitRoots(prog, u, roots, []);
    assert roots[0..] == roots;
    var i := 0;
    while i < |roots|
      invariant 0 <= i <= |roots|
      invariant RootsOnTheWay(prog, u, roots[i..], funcs, visitor.touchedFuncUsrs, goal)
    {
      assert roots[i..][1..] == roots[i + 1..];
      RootStep(prog, u, roots[i..], funcs, visitor.touchedFuncUsrs, goal);
      var d := Lookup(prog, roots[i]);
      var f := visitor.ProcessFuncInfo(prog, u, NewFuncInfo(prog, roots[i]), d.spelling, d.body);
      funcs := funcs + [f];
      i := i + 1;
    }
    touched := visitor.touchedFuncUsrs;
    assert roots[i..] == [];
    assert goal.0 == funcs;
  }

  function ForestNodes(funcs: seq<FuncInfo>): seq<CString> {
    if funcs == [] then [] else PreorderAll(funcs[0].callees) + ForestNodes(funcs[1..])
  }

  lemma {:induction false} RootsArePreorder(prog: Program, u: set<CString>, roots: seq<CString>, touched: seq<CString>)
    requires Closed(prog, u) && Distinct(touched)
    ensures var (funcs, last) := VisitRoots(prog, u, roots, touched);
            last == touched + ForestNodes(funcs) && Distinct(last)
  {
    if roots != [] {
      FitsBody(prog, u, [], roots[0]);
      var d := Lookup(prog, roots[0]);
      TouchedIsPreorder(prog, u, d.spelling, d.body, touched);
      TouchedStaysDistinct(prog, u, d.spelling, d.body, touched);
      RootsArePreorder(prog, u, roots[1..], VisitBody(prog, u, d.spelling, d.body, touched).touched);
      var funcs := VisitRoots(prog, u, roots, touched).0;
      assert funcs[1..] == VisitRoots(prog, u, roots[1..], VisitBody(prog, u, d.spelling, d.body, touched).touched).0;
    }
  }

  lemma {:induction false} RootsAreClosed(prog: Program, u: set<CString>, roots: seq<CString>, touched: seq<CString>)
    requires Closed(prog, u)
    ensures var last := VisitRoots(prog, u, roots, touched).1;
            && RootCalls(prog, roots) <= Elements(last)
            && forall w :: w in last && w !in touched ==> CallsAreTouched(prog, w, last)
  {
    if roots != [] {
      FitsBody(prog, u, [], roots[0]);
      var d := Lookup(prog, roots[0]);
      var after := VisitBody(prog, u, d.spelling, d.body, touched).touched;
      VisitIsClosed(prog, u, d.spelling, d.body, touched);
      RootsAreClosed(prog, u, roots[1..], after);
      JoinClosed(prog, touched, after, VisitRoots(prog, u, roots, touched).1);
    }
  }

  lemma {:induction false} RootsStayInReach(prog: Program, u: set<CString>, roots: seq<CString>,
      touched: seq<CString>, called: set<CString>)
    requires Closed(prog, u) && RootCalls(prog, roots) <= called && AllReachable(prog, called, Elements(touched))
    ensures AllReachable(prog, called, Elements(VisitRoots(prog, u, roots, touched).1))
  {
    if roots != [] {
      FitsBody(prog, u, [], roots[0]);
      var d := Lookup(prog, roots[0]);
      assert forall v :: v in CallsIn(d.body) ==> ReachableIn(prog, called, v, 0);
      VisitStaysInReach(prog, u, d.spelling, d.body, touched, called);
      RootsStayInReach(prog, u, roots[1..], VisitBody(prog, u, d.spelling, d.body, touched).touched, called);
    }
  }

  lemma {:induction false} ReachedIsTouched(prog: Program, called: set<CString>, last: seq<CString>, v: CString, n: nat)
    requires called <= Elements(last) && ReachableIn(prog, called, v, n)
    requires forall w :: w in last ==> CallsAreTouched(prog, w, last)
    ensures v in last
    decreases n
  {
    if n > 0 {
      var w :| ReachableIn(prog, called, w, n - 1) && CalledFrom(prog, w, v);
      ReachedIsTouched(prog, called, last, w, n - 1);
      assert CallsAreTouched(prog, w, last);
    }
  }

  /** After all roots are processed, the touched functions are exactly those that some root reaches
      by one call or more through defined functions outside system headers; and each of them is a
      node of the forest exactly once. */
  lemma {:induction false} ForestIsComplete(prog: Program, u: set<CString>, roots: seq<CString>)
    requires Closed(prog, u)
    ensures var (funcs, touched) := VisitRoots(prog, u, roots, []);
            && (forall v :: v in touched <==> Reachable(prog, RootCalls(prog, roots), v))
            && touched == ForestNodes(funcs)
            && Distinct(ForestNodes(funcs))
  {
    var called := RootCalls(prog, roots);
    var last := VisitRoots(prog, u, roots, []).1;
    RootsArePreorder(prog, u, roots, []);
    RootsAreClosed(prog, u, roots, []);
    RootsStayInReach(prog, u, roots, [], called);
    forall v | Reachable(prog, called, v)
      ensures v in last
    {
      var n: nat :| ReachableIn(prog, called, v, n);
      ReachedIsTouched(prog, called, last, v, n);
    }
    assert forall v :: v in last ==> v in Elements(last);
  }
}
