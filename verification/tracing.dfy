/** Finding a reported access again in the tree of functions (src/core.c:892-984). The string array
    holds the call trace as a stack; what the C prints is returned here. */
module Tracing {
  import opened VarAccesses
  import opened CallForest
  import opened AccessFootprint
  import opened DynAos

  type Trace = seq<CString>

  ghost predicate NamesAreStrings(f: FuncInfo) {
    IsCString(f.name) && AllNamesAreStrings(f.callees)
  }

  ghost predicate AllNamesAreStrings(fs: seq<FuncInfo>) {
    fs == [] || (NamesAreStrings(fs[0]) && AllNamesAreStrings(fs[1..]))
  }

  lemma {:induction false} NamesOf(fs: seq<FuncInfo>, k: nat)
    requires AllNamesAreStrings(fs) && k < |fs|
    ensures NamesAreStrings(fs[k])
  {
    if k > 0 {
      NamesOf(fs[1..], k - 1);
    }
  }

  /** The traces printed for va below f, when `above` is the trace on entry. */
  function Traces(f: FuncInfo, va: VarAccess, above: Trace): seq<Trace>
    decreases f, 0
  {
    var here := above + [f.name];
    if Skipped(f) then []
    else if va in f.varAccesses then [here]
    else TracesAll(f.callees, va, here)
  }

  function TracesAll(fs: seq<FuncInfo>, va: VarAccess, above: Trace): seq<Trace>
    decreases fs, 0
  {
    if fs == [] then [] else Traces(fs[0], va, above) + TracesAll(fs[1..], va, above)
  }

  method PrintCallTrace(trace: DynamicAos) returns (names: Trace)
    requires trace.Valid()
    ensures names == trace.contents
  {
    names := [];
    for i := 0 to trace.count
      invariant names == trace.contents[..i]
    {
      var s := trace.StringAt(i);
      names := names + [s.value];
    }
  }

  method HoldsAccess(es: Footprint, va: VarAccess) returns (found: bool)
    ensures found <==> va in es
  {
    var i := 0;
    while i < |es|
      invariant 0 <= i <= |es| && va !in es[..i]
    {
      if va == es[i] {
        return true;
      }
      i := i + 1;
    }
    found := false;
  }

  lemma {:induction false} TracesOfNext(callees: seq<FuncInfo>, k: nat, va: VarAccess, here: Trace, prints: seq<Trace>)
    requires k < |callees|
    ensures prints + TracesAll(callees[k..], va, here) ==
            prints + Traces(callees[k], va, here) + TracesAll(callees[k + 1..], va, here)
  {
    assert callees[k..][1..] == callees[k + 1..];
  }

  method TraceVaOverlap(f: FuncInfo, va: VarAccess, trace: DynamicAos) returns (prints: seq<Trace>)
    requires trace.Valid() && NamesAreStrings(f)
    modifies trace.Repr
    ensures trace.Valid() && fresh(trace.Repr - old(trace.Repr))
    ensures trace.contents == old(trace.contents)
    ensures prints == Traces(f, va, old(trace.contents))
    decreases f
  {
    prints := [];
    trace.PushString(f.name);
    ghost var here := trace.contents;
    if !f.inSystemHeader && f.hasDefinition {
      var found := HoldsAccess(f.varAccesses, va);
      if found {
        var names := PrintCallTrace(trace);
        prints := [names];
      } else {
        var k := 0;
        assert f.callees[0..] == f.callees;
        while k < |f.callees|
          invariant 0 <= k <= |f.callees|
          invariant trace.Valid() && fresh(trace.Repr - old(trace.Repr)) && trace.contents == here
          invariant TracesAll(f.callees, va, here) == prints + TracesAll(f.callees[k..], va, here)
        {
          NamesOf(f.callees, k);
          TracesOfNext(f.callees, k, va, here, prints);
          var below := TraceVaOverlap(f.callees[k], va, trace);
          prints := prints + below;
          k := k + 1;
        }
      }
    }
    var e := trace.PopString();
  }

  // ----- which nodes print, and with which trace -----

  /** Child indices leading from f to a node that holds va, is visited, and has no ancestor that holds it. */
  ghost predicate PrintsAt(f: FuncInfo, va: VarAccess, path: seq<nat>)
    decreases |path|
  {
    && !Skipped(f)
    && (if path == [] then va in f.varAccesses
        else va !in f.varAccesses && path[0] < |f.callees| && PrintsAt(f.callees[path[0]], va, path[1..]))
  }

  /** The names of the functions from f to the node at the end of the path. */
  ghost function NamesAlong(f: FuncInfo, path: seq<nat>): Trace
    decreases |path|
  {
    [f.name] + (if path == [] || path[0] >= |f.callees| then [] else NamesAlong(f.callees[path[0]], path[1..]))
  }

  lemma {:induction false} PrintHasPath(f: FuncInfo, va: VarAccess, above: Trace, t: Trace) returns (path: seq<nat>)
    requires t in Traces(f, va, above)
    ensures PrintsAt(f, va, path) && t == above + NamesAlong(f, path)
    decreases f, 0
  {
    if va in f.varAccesses {
      path := [];
    } else {
      var k, rest := SomePrintHasPath(f.callees, va, above + [f.name], t);
      path := [k] + rest;
      assert path[1..] == rest;
    }
  }

  lemma {:induction false} SomePrintHasPath(fs: seq<FuncInfo>, va: VarAccess, above: Trace, t: Trace)
    returns (k: nat, path: seq<nat>)
    requires t in TracesAll(fs, va, above)
    ensures k < |fs| && PrintsAt(fs[k], va, path) && t == above + NamesAlong(fs[k], path)
    decreases fs, 0
  {
    if t in Traces(fs[0], va, above) {
      k := 0;
      path := PrintHasPath(fs[0], va, above, t);
    } else {
      k, path := SomePrintHasPath(fs[1..], va, above, t);
      k := k + 1;
    }
  }

  lemma {:induction false} PathPrints(f: FuncInfo, va: VarAccess, above: Trace, path: seq<nat>)
    requires PrintsAt(f, va, path)
    ensures above + NamesAlong(f, path) in Traces(f, va, above)
    decreases |path|, 1
  {
    if path == [] {
      assert NamesAlong(f, path) == [f.name];
    } else {
      PathPrints(f.callees[path[0]], va, above + [f.name], path[1..]);
      InTracesAll(f.callees, va, above + [f.name], path[0]);
      var below := NamesAlong(f.callees[path[0]], path[1..]);
      assert above + ([f.name] + below) == above + [f.name] + below;
    }
  }

  lemma {:induction false} InTracesAll(fs: seq<FuncInfo>, va: VarAccess, above: Trace, k: nat)
    requires k < |fs|
    ensures forall t :: t in Traces(fs[k], va, above) ==> t in TracesAll(fs, va, above)
  {
    if k > 0 {
      InTracesAll(fs[1..], va, above, k - 1);
    }
  }

  /** A trace is printed if and only if it names the functions from the root down to a visited node
      that holds the access and lies below no other such node. */
  lemma {:induction false} TracesExactly(f: FuncInfo, va: VarAccess, t: Trace)
    ensures t in Traces(f, va, []) <==> exists path :: PrintsAt(f, va, path) && t == NamesAlong(f, path)
  {
    if t in Traces(f, va, []) {
      var path := PrintHasPath(f, va, [], t);
      assert [] + NamesAlong(f, path) == NamesAlong(f, path);
    }
    forall path | PrintsAt(f, va, path) && t == NamesAlong(f, path)
      ensures t in Traces(f, va, [])
    {
      PathPrints(f, va, [], path);
      assert [] + NamesAlong(f, path) == NamesAlong(f, path);
    }
  }

  /** No descendant of a printing node prints. */
  lemma {:induction false} NothingPrintsBelow(f: FuncInfo, va: VarAccess, path: seq<nat>, more: seq<nat>)
    requires PrintsAt(f, va, path) && PrintsAt(f, va, path + more)
    ensures more == []
    decreases |path|
  {
    if path != [] {
      assert (path + more)[1..] == path[1..] + more;
      NothingPrintsBelow(f.callees[path[0]], va, path[1..], more);
    }
  }

  // ----- every entry of a footprint can be traced -----

  /** Every entry of a root's footprint is printed at least once when it is traced. */
  lemma {:induction false} FootprintIsTraced(f: FuncInfo, va: VarAccess, above: Trace)
    requires va in Inlined(f)
    ensures Traces(f, va, above) != []
    decreases f, 0
  {
    if va !in f.varAccesses {
      EntriesAreTraced(f.varAccesses, f.callees, va, above + [f.name]);
    }
  }

  lemma {:induction false} EntriesAreTraced(es: Footprint, cs: seq<FuncInfo>, va: VarAccess, above: Trace)
    requires va in InlineEntries(es, cs) && va !in es
    ensures TracesAll(cs, va, above) != []
    decreases cs, |es|
  {
    if es[0].ty.Call? && cs != [] {
      if va in Inlined(cs[0]) {
        FootprintIsTraced(cs[0], va, above);
      } else {
        EntriesAreTraced(es[1..], cs[1..], va, above);
      }
    } else {
      assert va != es[0];
      EntriesAreTraced(es[1..], cs, va, above);
    }
  }
}
