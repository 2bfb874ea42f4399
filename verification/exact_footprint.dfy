/** The footprint of a root, entry for entry, by one recursion over the program (src/core.c:767-890):
    no forest is built, and every entry is renamed and settled where it is met. */
module ExactFootprint {
  import opened VarAccesses
  import opened CallForest
  import opened AccessFootprint
  import opened RootFootprints

  /** What happens to the USRs of a function's own entries: nothing, the callee's own USR for libclang's
      answer to no index, or the names of a root's arguments. */
  datatype Renaming = AsTheyAre | OwnUsr | ByArguments(args: seq<CString>, artificial: Naming)

  function NamedInTurn(v: VarAccess, params: seq<CString>, args: seq<CString>, artificial: Naming): VarAccess
    decreases params
  {
    if params == [] || args == [] then v
    else NamedInTurn(NamedAfter(v, params[0], args[0], artificial), params[1..], args[1..], artificial)
  }

  function Rename(r: Renaming, v: VarAccess, owner: CString, env: Answers): VarAccess {
    match r
    case AsTheyAre => v
    case OwnUsr => if !IsPlaceholder(v.ty) && v.usr == env.paramUsr(owner, NO_IDX) then v.(usr := owner) else v
    case ByArguments(args, artificial) => NamedInTurn(v, env.params(owner), args, artificial)
  }

  /** The settled footprint of a body of `owner`, null entries included, and the functions touched
      afterwards. Callees take their own USR as long as `own` holds: until one from a system header
      has come. */
  ghost function Exactly(prog: Program, u: set<CString>, items: seq<Item>, touched: seq<CString>,
      owner: CString, renaming: Renaming, own: bool, env: Answers): (r: (Footprint, seq<CString>))
    requires Fits(prog, u, items)
    ensures touched <= r.1
    decreases |Untouched(u, touched)|, |items|
  {
    if items == [] then ([], touched)
    else
      FitsRest(prog, u, items);
      if items[0].Access? then
        var rest := Exactly(prog, u, items[1..], touched, owner, renaming, own, env);
        ([Settled(Rename(renaming, items[0].va, owner, env), owner, env)] + rest.0, rest.1)
      else if items[0].usr in touched then Exactly(prog, u, items[1..], touched, owner, renaming, own, env)
      else
        var stillOwn := own && !Lookup(prog, items[0].usr).inSystemHeader;
        var callee := ExactlyCallee(prog, u, items[0].usr, touched, stillOwn, env);
        MoreTouchedFewerLeft(u, touched, callee.1);
        var rest := Exactly(prog, u, items[1..], callee.1, owner, renaming, stillOwn, env);
        (callee.0 + rest.0, rest.1)
  }

  ghost function ExactlyCallee(prog: Program, u: set<CString>, usr: CString, touched: seq<CString>,
      own: bool, env: Answers): (r: (Footprint, seq<CString>))
    requires Closed(prog, u) && usr in u && usr !in touched
    ensures touched + [usr] <= r.1
    decreases |Untouched(u, touched)|, 0
  {
    if !Expanded(prog, usr) then ([], touched + [usr])
    else
      TouchingShrinks(u, touched, usr);
      FitsBody(prog, u, [], usr);
      Exactly(prog, u, Lookup(prog, usr).body, touched + [usr], usr, if own then OwnUsr else AsTheyAre, true, env)
  }

  // ----- renaming entry by entry -----

  function RenamedBy(r: Renaming, es: Footprint, owner: CString, env: Answers): (s: Footprint)
    ensures |s| == |es|
  {
    if es == [] then [] else [Rename(r, es[0], owner, env)] + RenamedBy(r, es[1..], owner, env)
  }

  lemma {:induction false} NamingInTurn(v: VarAccess, params: seq<CString>, args: seq<CString>, artificial: Naming)
    ensures var w := NamedInTurn(v, params, args, artificial);
            w == v.(usr := w.usr) && (IsPlaceholder(v.ty) ==> w == v)
    decreases params
  {
    if params != [] && args != [] {
      NamingInTurn(NamedAfter(v, params[0], args[0], artificial), params[1..], args[1..], artificial);
    }
  }

  lemma {:induction false} RenamingIsMild(r: Renaming, v: VarAccess, owner: CString, env: Answers)
    ensures var w := Rename(r, v, owner, env);
            w == v.(usr := w.usr) && (IsPlaceholder(v.ty) ==> w == v)
  {
    if r.ByArguments? {
      NamingInTurn(v, env.params(owner), r.args, r.artificial);
    }
  }

  lemma {:induction false} RenamedByAt(r: Renaming, es: Footprint, owner: CString, env: Answers, i: nat)
    requires i < |es|
    ensures RenamedBy(r, es, owner, env)[i] == Rename(r, es[i], owner, env)
  {
    if i > 0 {
      RenamedByAt(r, es[1..], owner, env, i - 1);
    }
  }

  lemma {:induction false} RenamedAsTheyAre(es: Footprint, owner: CString, env: Answers)
    ensures RenamedBy(AsTheyAre, es, owner, env) == es
  {
    if es != [] {
      RenamedAsTheyAre(es[1..], owner, env);
    }
  }

  lemma {:induction false} RenamedOwn(es: Footprint, owner: CString, env: Answers)
    ensures RenamedBy(OwnUsr, es, owner, env) == Renamed(es, env.paramUsr(owner, NO_IDX), owner)
  {
    forall i: nat | i < |es|
      ensures RenamedBy(OwnUsr, es, owner, env)[i] == Renamed(es, env.paramUsr(owner, NO_IDX), owner)[i]
    {
      RenamedByAt(OwnUsr, es, owner, env, i);
    }
  }

  lemma {:induction false} RootNamedInTurn(es: Footprint, params: seq<CString>, args: seq<CString>,
      artificial: Naming, i: nat)
    requires i < |es|
    ensures |RootNamed(es, params, args, artificial)| == |es|
    ensures RootNamed(es, params, args, artificial)[i] == NamedInTurn(es[i], params, args, artificial)
    decreases params
  {
    if params != [] && args != [] {
      RootNamedInTurn(AllNamedAfter(es, params[0], args[0], artificial), params[1..], args[1..], artificial, i);
    }
  }

  lemma {:induction false} RenamedByTheArguments(es: Footprint, owner: CString, args: seq<CString>,
      artificial: Naming, env: Answers)
    ensures RenamedBy(ByArguments(args, artificial), es, owner, env) ==
        RootNamed(es, env.params(owner), args, artificial)
  {
    NamingSettles(es, env.params(owner), args, artificial);
    forall i: nat | i < |es|
      ensures RenamedBy(ByArguments(args, artificial), es, owner, env)[i] ==
              RootNamed(es, env.params(owner), args, artificial)[i]
    {
      RenamedByAt(ByArguments(args, artificial), es, owner, env, i);
      RootNamedInTurn(es, env.params(owner), args, artificial, i);
    }
  }

  lemma {:induction false} RenamedBySettles(r: Renaming, es: Footprint, owner: CString, env: Answers)
    ensures EntriesSettled(es, RenamedBy(r, es, owner, env))
  {
    forall i: nat | i < |es|
      ensures SettledFrom(es[i], RenamedBy(r, es, owner, env)[i])
    {
      RenamedByAt(r, es, owner, env, i);
      RenamingIsMild(r, es[i], owner, env);
    }
  }

  // ----- aliasing callee by callee -----

  function AliasedFrom(cs: seq<FuncInfo>, own: bool, env: Answers): (r: seq<FuncInfo>)
    ensures |r| == |cs|
  {
    if cs == [] then []
    else
      var stillOwn := own && !cs[0].inSystemHeader;
      [if stillOwn then WithOwnUsr(cs[0], env) else cs[0]] + AliasedFrom(cs[1..], stillOwn, env)
  }

  lemma {:induction false} AliasedFromAt(cs: seq<FuncInfo>, own: bool, env: Answers, k: nat)
    requires k < |cs|
    ensures AliasedFrom(cs, own, env)[k] == if own && OwnCodeUpTo(cs, 0, k) then WithOwnUsr(cs[k], env) else cs[k]
  {
    if k > 0 {
      AliasedFromAt(cs[1..], own && !cs[0].inSystemHeader, env, k - 1);
      OwnCodeFromNext(cs, k);
    }
  }

  lemma {:induction false} OwnCodeFromNext(cs: seq<FuncInfo>, k: nat)
    requires 0 < k < |cs|
    ensures OwnCodeUpTo(cs, 0, k) <==> !cs[0].inSystemHeader && OwnCodeUpTo(cs[1..], 0, k - 1)
  {
    if !cs[0].inSystemHeader && OwnCodeUpTo(cs[1..], 0, k - 1) {
      forall j | 0 <= j <= k && j < |cs|
        ensures !cs[j].inSystemHeader
      {
        assert j > 0 ==> cs[j] == cs[1..][j - 1];
      }
    }
    if OwnCodeUpTo(cs, 0, k) {
      forall j | 0 <= j <= k - 1 && j < |cs[1..]|
        ensures !cs[1..][j].inSystemHeader
      {
        assert cs[1..][j] == cs[j + 1];
      }
    }
  }

  lemma {:induction false} AliasingInTurn(es: Footprint, cs: seq<FuncInfo>, env: Answers)
    requires CallUsrs(es) == Usrs(cs) && forall v :: v in es && IsMarker(v.ty) ==> v.escParam == NO_IDX
    ensures Aliased(es, 0, cs, env) == AliasedFrom(cs, true, env)
  {
    forall k: nat | k < |cs|
      ensures Aliased(es, 0, cs, env)[k] == AliasedFrom(cs, true, env)[k]
    {
      CallsNameCallees(es, cs, k);
      AliasingStopsAtSystemHeader(es, 0, cs, env, k);
      AliasedFromAt(cs, true, env, k);
    }
  }

  // ----- the recursion is exact -----

  /** The footprint of what one body collects. */
  ghost function Collected(v: Visit, owner: CString, renaming: Renaming, own: bool, env: Answers): Footprint {
    InlineAllEntries(AllSettled(RenamedBy(renaming, v.entries, owner, env), owner, env),
      UnwoundAll(AliasedFrom(v.callees, own, env), env))
  }

  lemma {:induction false} SettledFront(v: VarAccess, es: Footprint, owner: CString, renaming: Renaming, env: Answers)
    ensures AllSettled(RenamedBy(renaming, [v] + es, owner, env), owner, env) ==
            [Settled(Rename(renaming, v, owner, env), owner, env)] +
                AllSettled(RenamedBy(renaming, es, owner, env), owner, env)
  {
    assert ([v] + es)[1..] == es;
  }

  lemma {:induction false} CollectedAccess(va: VarAccess, rest: Visit, owner: CString, renaming: Renaming, own: bool,
      env: Answers)
    requires !va.ty.Call?
    ensures Collected(rest.(entries := [va] + rest.entries), owner, renaming, own, env) ==
            [Settled(Rename(renaming, va, owner, env), owner, env)] + Collected(rest, owner, renaming, own, env)
  {
    SettledFront(va, rest.entries, owner, renaming, env);
    RenamingIsMild(renaming, va, owner, env);
    var v := Settled(Rename(renaming, va, owner, env), owner, env);
    var es := AllSettled(RenamedBy(renaming, rest.entries, owner, env), owner, env);
    assert ([v] + es)[1..] == es;
  }

  lemma {:induction false} CollectedCall(prog: Program, usr: CString, caller: CString, callee: FuncInfo, rest: Visit,
      owner: CString, renaming: Renaming, own: bool, env: Answers)
    ensures var stillOwn := own && !callee.inSystemHeader;
            Collected(Visit([CallEntry(prog, usr, caller)] + rest.entries, [callee] + rest.callees, rest.touched),
              owner, renaming, own, env) ==
            InlineAll(Unwound(if stillOwn then WithOwnUsr(callee, env) else callee, env))
              + Collected(rest, owner, renaming, stillOwn, env)
  {
    var call := CallEntry(prog, usr, caller);
    SettledFront(call, rest.entries, owner, renaming, env);
    RenamingIsMild(renaming, call, owner, env);
    var es := AllSettled(RenamedBy(renaming, rest.entries, owner, env), owner, env);
    assert Settled(call, owner, env) == call && ([call] + es)[1..] == es;
    var stillOwn := own && !callee.inSystemHeader;
    var first := if stillOwn then WithOwnUsr(callee, env) else callee;
    assert ([callee] + rest.callees)[1..] == rest.callees;
    var more := AliasedFrom(rest.callees, stillOwn, env);
    assert AliasedFrom([callee] + rest.callees, own, env) == [first] + more;
    assert ([first] + more)[1..] == more;
    var unwound := UnwoundAll(more, env);
    assert UnwoundAll([first] + more, env) == [Unwound(first, env)] + unwound;
    assert ([Unwound(first, env)] + unwound)[1..] == unwound;
  }

  lemma {:induction false} BodyExactly(prog: Program, u: set<CString>, caller: CString, items: seq<Item>,
      touched: seq<CString>,
      owner: CString, renaming: Renaming, own: bool, env: Answers)
    requires Fits(prog, u, items) && ProperProgram(prog) && ProperBody(items)
    ensures var v := VisitBody(prog, u, caller, items, touched);
            Exactly(prog, u, items, touched, owner, renaming, own, env) ==
            (Collected(v, owner, renaming, own, env), v.touched)
    decreases |Untouched(u, touched)|, |items|
  {
    if items != [] {
      FitsRest(prog, u, items);
      ProperRest(items);
      if items[0].Access? {
        BodyExactly(prog, u, caller, items[1..], touched, owner, renaming, own, env);
        CollectedAccess(items[0].va, VisitBody(prog, u, caller, items[1..], touched), owner, renaming, own, env);
      } else if items[0].usr in touched {
        BodyExactly(prog, u, caller, items[1..], touched, owner, renaming, own, env);
      } else {
        var usr := items[0].usr;
        var (callee, after) := VisitCallee(prog, u, usr, touched);
        var stillOwn := own && !Lookup(prog, usr).inSystemHeader;
        MoreTouchedFewerLeft(u, touched, after);
        CalleeExactly(prog, u, usr, touched, stillOwn, env);
        BodyExactly(prog, u, caller, items[1..], after, owner, renaming, stillOwn, env);
        var rest := VisitBody(prog, u, caller, items[1..], after);
        CollectedCall(prog, usr, caller, callee, rest, owner, renaming, own, env);
      }
    }
  }

  lemma {:induction false} CalleeExactly(prog: Program, u: set<CString>, usr: CString, touched: seq<CString>,
      own: bool, env: Answers)
    requires Closed(prog, u) && ProperProgram(prog) && usr in u && usr !in touched
    ensures var (callee, after) := VisitCallee(prog, u, usr, touched);
            && callee.inSystemHeader == Lookup(prog, usr).inSystemHeader
            && ExactlyCallee(prog, u, usr, touched, own, env) ==
               (InlineAll(Unwound(if own then WithOwnUsr(callee, env) else callee, env)), after)
    decreases |Untouched(u, touched)|, 0
  {
    if Expanded(prog, usr) {
      TouchingShrinks(u, touched, usr);
      FitsBody(prog, u, [], usr);
      var d := Lookup(prog, usr);
      var v := VisitBody(prog, u, d.spelling, d.body, touched + [usr]);
      var r := if own then OwnUsr else AsTheyAre;
      BodyExactly(prog, u, d.spelling, d.body, touched + [usr], usr, r, true, env);
      RenamedAsTheyAre(v.entries, usr, env);
      RenamedOwn(v.entries, usr, env);
      NodeExactly(prog, u, usr, touched + [usr], r, env);
    }
  }

  /** Unwinding and inlining one node whose entries have been renamed. */
  lemma {:induction false} NodeExactly(prog: Program, u: set<CString>, usr: CString, touched: seq<CString>,
      r: Renaming, env: Answers)
    requires ProperProgram(prog) && Expanded(prog, usr) && Fits(prog, u, Lookup(prog, usr).body)
    ensures var d := Lookup(prog, usr);
            var v := VisitBody(prog, u, d.spelling, d.body, touched);
            var f := NewFuncInfo(prog, usr).(callees := v.callees, varAccesses := RenamedBy(r, v.entries, usr, env));
            InlineAll(Unwound(f, env)) == Collected(v, usr, r, true, env)
  {
    var d := Lookup(prog, usr);
    var v := VisitBody(prog, u, d.spelling, d.body, touched);
    var es := RenamedBy(r, v.entries, usr, env);
    VisitIsPaired(prog, u, d.spelling, d.body, touched);
    VisitIsBare(prog, u, d.spelling, d.body, touched);
    RenamedBySettles(r, v.entries, usr, env);
    SettledKeepsCalls(v.entries, es);
    forall w | w in es && IsMarker(w.ty)
      ensures w.escParam == NO_IDX
    {
      var i :| 0 <= i < |es| && es[i] == w;
      RenamedByAt(r, v.entries, usr, env, i);
      RenamingIsMild(r, v.entries[i], usr, env);
      assert v.entries[i] in v.entries;
    }
    AliasingInTurn(es, v.callees, env);
  }

  /** The unwound and inlined tree of a root is, entry for entry, what the recursion over the program
      yields; its footprint is that without the null entries. */
  lemma {:induction false} FootprintExactly(prog: Program, u: set<CString>, root: CString, touched: seq<CString>,
      parsedFuncCall: seq<CString>, artificial: Naming, env: Answers)
    requires ProperProgram(prog) && Expanded(prog, root) && Fits(prog, u, Lookup(prog, root).body)
    ensures var d := Lookup(prog, root);
            var v := VisitBody(prog, u, d.spelling, d.body, touched);
            var args := ArgsOf(parsedFuncCall);
            var named := NewFuncInfo(prog, root).(callees := v.callees,
                           varAccesses := RootNamed(v.entries, env.params(root), args, artificial));
            var exact := Exactly(prog, u, d.body, touched, root, ByArguments(args, artificial), true, env).0;
            InlineAll(Unwound(named, env)) == exact && Inlined(Unwound(named, env)) == DropNull(exact)
  {
    var d := Lookup(prog, root);
    var v := VisitBody(prog, u, d.spelling, d.body, touched);
    var args := ArgsOf(parsedFuncCall);
    RenamedByTheArguments(v.entries, root, args, artificial, env);
    BodyExactly(prog, u, d.spelling, d.body, touched, root, ByArguments(args, artificial), true, env);
    NodeExactly(prog, u, root, touched, ByArguments(args, artificial), env);
    InlinedDropsNull(Unwound(NewFuncInfo(prog, root).(callees := v.callees,
      varAccesses := RootNamed(v.entries, env.params(root), args, artificial)), env));
  }
}
