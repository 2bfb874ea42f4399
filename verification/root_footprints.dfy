/** From an analysed function to the footprint that the range pass takes: naming its parameters after
    the arguments on the command line (src/core.c:778-801), and why every if in the result has a
    then-block behind it. */
module RootFootprints {
  import opened VarAccesses
  import opened CallForest
  import opened AccessFootprint
  import opened AstVisitor
  import opened CIntegers
  import opened LockRanges
  import opened FootprintShape
  import opened RangeInvariants
  import opened Verdict

  // ----- artificial USRs -----

  /** The name given to an argument, from its text and the USR it replaces. */
  type Naming = (CString, CString) -> CString

  predicate Matches(v: VarAccess, param: CString) {
    !IsPlaceholder(v.ty) && param <= v.usr
  }

  /** One parameter: every live entry whose USR starts with it is renamed. */
  function NamedAfter(v: VarAccess, param: CString, arg: CString, artificial: Naming): VarAccess {
    if Matches(v, param) then v.(usr := artificial(arg, v.usr)) else v
  }

  function AllNamedAfter(es: Footprint, param: CString, arg: CString, artificial: Naming): (r: Footprint)
    ensures |r| == |es|
  {
    seq(|es|, i requires 0 <= i < |es| => NamedAfter(es[i], param, arg, artificial))
  }

  /** Parameter by parameter, as far as both lists go. */
  function RootNamed(es: Footprint, params: seq<CString>, args: seq<CString>, artificial: Naming): Footprint
    decreases params
  {
    if params == [] || args == [] then es
    else RootNamed(AllNamedAfter(es, params[0], args[0], artificial), params[1..], args[1..], artificial)
  }

  /** What follows the function's name in a parsed call. */
  function ArgsOf(parsedFuncCall: seq<CString>): seq<CString> {
    if parsedFuncCall == [] then [] else parsedFuncCall[1..]
  }

  method NameParameters(f: FuncInfo, parsedFuncCall: seq<CString>, artificial: Naming, env: Answers)
    returns (es: Footprint)
    ensures es == RootNamed(f.varAccesses, env.params(f.usr), ArgsOf(parsedFuncCall), artificial)
  {
    var params := env.params(f.usr);
    es := f.varAccesses;
    if parsedFuncCall == [] {
      return;
    }
    assert params[0..] == params;
    for i := 1 to |parsedFuncCall|
      invariant i - 1 <= |params| ==>
        RootNamed(es, params[i - 1..], parsedFuncCall[i..], artificial) ==
        RootNamed(f.varAccesses, params, parsedFuncCall[1..], artificial)
      invariant i - 1 > |params| ==> es == RootNamed(f.varAccesses, params, parsedFuncCall[1..], artificial)
    {
      if i - 1 < |params| {
        ghost var was := es;
        for j := 0 to |es|
          invariant |es| == |was|
          invariant forall k :: 0 <= k < j ==>
            es[k] == AllNamedAfter(was, params[i - 1], parsedFuncCall[i], artificial)[k]
          invariant forall k :: j <= k < |es| ==> es[k] == was[k]
        {
          if !IsPlaceholder(es[j].ty) && params[i - 1] <= es[j].usr {
            es := es[j := es[j].(usr := artificial(parsedFuncCall[i], es[j].usr))];
          }
        }
        assert es == AllNamedAfter(was, params[i - 1], parsedFuncCall[i], artificial);
        assert params[i - 1..][1..] == params[i..] && parsedFuncCall[i..][1..] == parsedFuncCall[i + 1..];
      }
    }
  }

  lemma {:induction false} NamingSettles(es: Footprint, params: seq<CString>, args: seq<CString>, artificial: Naming)
    ensures EntriesSettled(es, RootNamed(es, params, args, artificial))
    decreases params
  {
    if params != [] && args != [] {
      var next := AllNamedAfter(es, params[0], args[0], artificial);
      NamingSettles(next, params[1..], args[1..], artificial);
      SettledTransitive(es, next, RootNamed(next, params[1..], args[1..], artificial));
    }
  }

  /** Unwinding a root: its parameters are named first. */
  method UnwindRoot(f: FuncInfo, parsedFuncCall: seq<CString>, artificial: Naming, env: Answers) returns (r: FuncInfo)
    requires Paired(f)
    ensures Skipped(f) ==> r == f
    ensures !Skipped(f) ==>
      var es := RootNamed(f.varAccesses, env.params(f.usr), ArgsOf(parsedFuncCall), artificial);
      r == Unwound(f.(varAccesses := es), env)
  {
    if f.inSystemHeader || !f.hasDefinition {
      return f;
    }
    var es := NameParameters(f, parsedFuncCall, artificial, env);
    NamingSettles(f.varAccesses, env.params(f.usr), ArgsOf(parsedFuncCall), artificial);
    SettledKeepsCalls(f.varAccesses, es);
    r := UnwindFuncInfo(f.(varAccesses := es), env);
  }

  /** One of the first n parameters is a prefix of the USR. */
  ghost predicate StartsWithOneOf(usr: CString, params: seq<CString>, n: nat) {
    exists j :: 0 <= j < n && j < |params| && params[j] <= usr
  }

  /** An access to the k-th parameter, or to a field reached from it, whose USR goes on with a suffix, is
      named after the k-th argument: unless an earlier parameter is a prefix too, and provided that the
      name given does not start with a later one. */
  lemma {:induction false} NamedAfterFirst(es: Footprint, params: seq<CString>, args: seq<CString>,
      artificial: Naming, i: nat, k: nat, suffix: CString)
    requires i < |es| && IsAccess(es[i].ty) && k < |params| && k < |args| && es[i].usr == params[k] + suffix
    requires !StartsWithOneOf(es[i].usr, params, k)
    requires !StartsWithOneOf(artificial(args[k], es[i].usr), params[k + 1..], |args| - k - 1)
    ensures |RootNamed(es, params, args, artificial)| == |es|
    ensures RootNamed(es, params, args, artificial)[i] ==
            es[i].(usr := artificial(args[k], params[k] + suffix))
    decreases params
  {
    var next := AllNamedAfter(es, params[0], args[0], artificial);
    AccessesAreNoPlaceholders(es[i].ty);
    if k > 0 {
      assert !(params[0] <= es[i].usr);
      FewerStart(es[i].usr, params, k);
      assert params[1..][k..] == params[k + 1..];
      NamedAfterFirst(next, params[1..], args[1..], artificial, i, k - 1, suffix);
    } else {
      assert params[0] <= es[i].usr;
      LeftAlone(next, params[1..], args[1..], artificial, i);
    }
  }

  lemma {:induction false} FewerStart(usr: CString, params: seq<CString>, n: nat)
    requires params != [] && n > 0 && !StartsWithOneOf(usr, params, n)
    ensures !StartsWithOneOf(usr, params[1..], n - 1)
  {
    forall j | 0 <= j < n - 1 && j < |params[1..]|
      ensures !(params[1..][j] <= usr)
    {
      assert params[1..][j] == params[j + 1];
    }
  }

  /** An entry that is no access, or starts with no parameter for which there is an argument, stays. */
  lemma {:induction false} LeftAlone(es: Footprint, params: seq<CString>, args: seq<CString>,
      artificial: Naming, i: nat)
    requires i < |es| && (!IsAccess(es[i].ty) || !StartsWithOneOf(es[i].usr, params, |args|))
    ensures |RootNamed(es, params, args, artificial)| == |es|
    ensures RootNamed(es, params, args, artificial)[i] == es[i]
    decreases params
  {
    if params != [] && args != [] {
      var next := AllNamedAfter(es, params[0], args[0], artificial);
      AccessesAreNoPlaceholders(es[i].ty);
      if IsAccess(es[i].ty) {
        FewerStart(es[i].usr, params, |args|);
      }
      LeftAlone(next, params[1..], args[1..], artificial, i);
    }
  }

  /** A parameter whose USR starts with that of an earlier one is named after the earlier one's argument. */
  lemma {:induction false} EarlierParameterTakesOver(v: VarAccess, param: CString, rest: CString, args: seq<CString>,
      artificial: Naming)
    requires IsAccess(v.ty) && v.usr == param + rest && |args| == 2
    requires !(param + rest <= artificial(args[0], v.usr))
    ensures RootNamed([v], [param, param + rest], args, artificial) == [v.(usr := artificial(args[0], param + rest))]
  {
    var es, params := [v], [param, param + rest];
    assert params[1..] == [param + rest];
    NamedAfterFirst(es, params, args, artificial, 0, 0, rest);
  }

  // ----- then-blocks -----

  /** The entries that a body contributes itself. */
  function EntriesOf(items: seq<Item>): Footprint {
    if items == [] then []
    else if items[0].Access? then [items[0].va] + EntriesOf(items[1..])
    else EntriesOf(items[1..])
  }

  ghost predicate BodiesHaveThens(prog: Program) {
    forall f :: f in prog ==> EveryIfHasThen(EntriesOf(prog[f].body))
  }

  lemma {:induction false} HasThensBothWays(ev: Footprint)
    ensures EveryIfHasThen(ev) <==> ThenFollows(ev)
  {
    if ThenFollows(ev) {
      assert ev + [] == ev;
      ThenFollowsPrefix(ev, []);
    }
    if EveryIfHasThen(ev) {
      forall i | 0 <= i < |ev| && ev[i].ty.IfStmt?
        ensures ThenAfter(ev, i)
      {
        assert ev[NextThen(ev, i)].ty.ThenBlock?;
      }
    }
  }

  lemma {:induction false} AfterInTail(v: VarAccess, ev: Footprint, i: int)
    requires i >= -1
    ensures ThenAfter([v] + ev, i + 1) <==> ThenAfter(ev, i)
  {
    var all := [v] + ev;
    if ThenAfter(ev, i) {
      var j :| i < j < |ev| && 0 <= j && ev[j].ty.ThenBlock?;
      assert all[j + 1].ty.ThenBlock?;
    }
    if ThenAfter(all, i + 1) {
      var j :| i + 1 < j < |all| && 0 <= j && all[j].ty.ThenBlock?;
      assert ev[j - 1].ty.ThenBlock?;
    }
  }

  lemma {:induction false} AfterStart(v: VarAccess, ev: Footprint)
    ensures ThenAfter([v] + ev, -1) <==> v.ty.ThenBlock? || ThenAfter(ev, -1)
  {
    AfterInTail(v, ev, -1);
    var all := [v] + ev;
    if v.ty.ThenBlock? {
      assert all[0].ty.ThenBlock?;
    }
    if ThenAfter(all, -1) {
      var j :| -1 < j < |all| && 0 <= j && all[j].ty.ThenBlock?;
      assert j > 0 ==> ThenAfter(all, 0);
    }
  }

  lemma {:induction false} ThenInTail(v: VarAccess, ev: Footprint)
    ensures ThenAfter([v] + ev, -1) <==> v.ty.ThenBlock? || ThenAfter(ev, -1)
    ensures ThenFollows([v] + ev) <==> ThenFollows(ev) && (v.ty.IfStmt? ==> ThenAfter(ev, -1))
  {
    AfterStart(v, ev);
    AfterInTail(v, ev, -1);
    var all := [v] + ev;
    if ThenFollows(all) {
      forall i | 0 <= i < |ev| && ev[i].ty.IfStmt?
        ensures ThenAfter(ev, i)
      {
        assert all[i + 1].ty.IfStmt?;
        AfterInTail(v, ev, i);
      }
      assert v.ty.IfStmt? ==> all[0].ty.IfStmt?;
    }
    if ThenFollows(ev) && (v.ty.IfStmt? ==> ThenAfter(ev, -1)) {
      forall i | 0 <= i < |all| && all[i].ty.IfStmt?
        ensures ThenAfter(all, i)
      {
        if i > 0 {
          assert ev[i - 1].ty.IfStmt?;
          AfterInTail(v, ev, i - 1);
        }
      }
    }
  }

  lemma {:induction false} ThenInPart(a: Footprint, b: Footprint)
    ensures ThenAfter(b, -1) ==> ThenAfter(a + b, -1)
    ensures ThenFollows(a) && ThenFollows(b) ==> ThenFollows(a + b)
  {
    if ThenAfter(b, -1) {
      var j :| -1 < j < |b| && 0 <= j && b[j].ty.ThenBlock?;
      assert (a + b)[|a| + j].ty.ThenBlock?;
    }
    if ThenFollows(a) && ThenFollows(b) {
      ThenFollowsConcat(a, b);
    }
  }

  /** Flattening calls into a body leaves every if of the body with its then-block, and those of the
      callees with theirs. */
  lemma {:induction false} FlatteningKeepsThens(prog: Program, u: set<CString>, items: seq<Item>, touched: seq<CString>)
    requires Fits(prog, u, items) && BodiesHaveThens(prog) && ThenFollows(EntriesOf(items))
    ensures var flat := Flatten(prog, u, items, touched).0;
            ThenFollows(flat) && (ThenAfter(EntriesOf(items), -1) ==> ThenAfter(flat, -1))
    decreases |Untouched(u, touched)|, |items|
  {
    if items != [] {
      FitsRest(prog, u, items);
      if items[0].Access? {
        ThenInTail(items[0].va, EntriesOf(items[1..]));
        FlatteningKeepsThens(prog, u, items[1..], touched);
        ThenInTail(items[0].va, Flatten(prog, u, items[1..], touched).0);
      } else if items[0].usr in touched {
        FlatteningKeepsThens(prog, u, items[1..], touched);
      } else {
        var (callee, after) := FlattenCallee(prog, u, items[0].usr, touched);
        MoreTouchedFewerLeft(u, touched, after);
        CalleeKeepsThens(prog, u, items[0].usr, touched);
        FlatteningKeepsThens(prog, u, items[1..], after);
        ThenInPart(callee, Flatten(prog, u, items[1..], after).0);
      }
    }
  }

  lemma {:induction false} CalleeKeepsThens(prog: Program, u: set<CString>, usr: CString, touched: seq<CString>)
    requires Closed(prog, u) && BodiesHaveThens(prog) && usr in u && usr !in touched
    ensures ThenFollows(FlattenCallee(prog, u, usr, touched).0)
    decreases |Untouched(u, touched)|, 0
  {
    if Expanded(prog, usr) {
      TouchingShrinks(u, touched, usr);
      FitsBody(prog, u, [], usr);
      HasThensBothWays(EntriesOf(Lookup(prog, usr).body));
      FlatteningKeepsThens(prog, u, Lookup(prog, usr).body, touched + [usr]);
    }
  }

  /** Settling keeps ifs and then-blocks, and makes no new ones. */
  lemma {:induction false} SettlingKeepsThens(es: Footprint, fs: Footprint)
    requires EntriesSettled(es, fs) && ThenFollows(es)
    ensures ThenFollows(fs)
  {
    forall i | 0 <= i < |fs| && fs[i].ty.IfStmt?
      ensures ThenAfter(fs, i)
    {
      assert SettledFrom(es[i], fs[i]) && ThenAfter(es, i);
      var j :| i < j < |es| && 0 <= j && es[j].ty.ThenBlock?;
      assert SettledFrom(es[j], fs[j]);
    }
  }

  lemma {:induction false} DroppingKeepsThens(es: Footprint)
    requires ThenFollows(es)
    ensures ThenFollows(DropNull(es)) && (ThenAfter(es, -1) ==> ThenAfter(DropNull(es), -1))
  {
    if es != [] {
      var rest := es[1..];
      assert es == [es[0]] + rest;
      ThenInTail(es[0], rest);
      DroppingKeepsThens(rest);
      if es[0].ty.Null? {
        assert DropNull(es) == [] + DropNull(rest) == DropNull(rest);
      } else {
        ThenInTail(es[0], DropNull(rest));
        assert DropNull(es) == [es[0]] + DropNull(rest);
      }
    }
  }

  /** The footprint of a root is the direct recursion over the program, settled entry by entry and
      freed of null entries. If in every body each if has a then-block behind it, then so it is in the
      footprint, and the range pass stays within it. */
  lemma {:induction false} FootprintHasThens(prog: Program, u: set<CString>, root: CString, touched: seq<CString>,
      parsedFuncCall: seq<CString>, artificial: Naming, env: Answers)
    requires Closed(prog, u) && ProperProgram(prog) && Expanded(prog, root) && BodiesHaveThens(prog)
    requires Fits(prog, u, Lookup(prog, root).body)
    ensures var d := Lookup(prog, root);
            var v := VisitBody(prog, u, d.spelling, d.body, touched);
            var es := RootNamed(v.entries, env.params(root), ArgsOf(parsedFuncCall), artificial);
            var unwound := Unwound(NewFuncInfo(prog, root).(callees := v.callees, varAccesses := es), env);
            && EntriesSettled(Flatten(prog, u, d.body, touched).0, InlineAll(unwound))
            && Inlined(unwound) == DropNull(InlineAll(unwound))
            && EveryIfHasThen(Inlined(unwound))
  {
    var d := Lookup(prog, root);
    var v := VisitBody(prog, u, d.spelling, d.body, touched);
    var es := RootNamed(v.entries, env.params(root), ArgsOf(parsedFuncCall), artificial);
    var named := NewFuncInfo(prog, root).(callees := v.callees, varAccesses := es);
    NamingSettles(v.entries, env.params(root), ArgsOf(parsedFuncCall), artificial);
    FootprintIsFlattening(prog, u, root, touched, named, env);
    HasThensBothWays(EntriesOf(d.body));
    FlatteningKeepsThens(prog, u, d.body, touched);
    var settled := InlineAll(Unwound(named, env));
    SettlingKeepsThens(Flatten(prog, u, d.body, touched).0, settled);
    DroppingKeepsThens(settled);
    HasThensBothWays(DropNull(settled));
  }

  // ----- end-ifs and elses -----

  /** Every else has a then-block after the last if; and if `closed` holds, every end-if closes an if. */
  ghost predicate Shaped(es: Footprint, h: nat, seen: bool, closed: bool) {
    ElsesFit(es, seen) && (closed ==> BracketsFit(es, h))
  }

  ghost predicate BodiesFit(prog: Program, closed: bool) {
    forall f :: f in prog ==> Shaped(EntriesOf(prog[f].body), 0, false, closed)
  }

  /** Behind the last if there is a then-block. */
  lemma {:induction false} ThensAreSeen(ev: Footprint, seen: bool)
    requires ThenFollows(ev) && (seen || ThenAfter(ev, -1))
    ensures SeenAfter(ev, seen)
    decreases ev
  {
    if ev != [] {
      assert ev == [ev[0]] + ev[1..];
      ThenInTail(ev[0], ev[1..]);
      ThensAreSeen(ev[1..], NextSeen(ev[0].ty, seen));
    }
  }

  lemma {:induction false} ShapedConcat(a: Footprint, b: Footprint, h: nat, seen: bool, closed: bool)
    requires Shaped(a, h, seen, closed) && Shaped(b, HeightAfter(a, h), SeenAfter(a, seen), closed)
    ensures Shaped(a + b, h, seen, closed)
  {
    ElsesConcat(a, b, seen);
    if closed {
      BracketsConcat(a, b, h);
    }
  }

  lemma {:induction false} ShapedFirst(v: VarAccess, rest: Footprint, h: nat, seen: bool, closed: bool)
    ensures Shaped([v] + rest, h, seen, closed) <==>
      && (v.ty.ElseStmt? ==> seen) && (closed && v.ty.EndIf? ==> h > 0)
      && Shaped(rest, NextHeight(v.ty, h), NextSeen(v.ty, seen), closed)
  {
    assert ([v] + rest)[1..] == rest;
  }

  /** More open ifs and a then-block seen do no harm. */
  lemma {:induction false} ShapedFromMore(es: Footprint, h: nat, more: nat, seen: bool, now: bool, closed: bool)
    requires Shaped(es, h, seen, closed) && (seen ==> now) && (closed ==> h <= more)
    ensures Shaped(es, more, now, closed)
    ensures closed ==> HeightAfter(es, more) == HeightAfter(es, h) + (more - h)
  {
    if now {
      ElsesFromSeen(es, seen);
    }
    if closed {
      BracketsFromHigher(es, h, more - h);
    }
  }

  /** Flattening a callee into a body may leave ifs open, but closes none of the body's, and leaves a
      then-block seen where one was. */
  lemma {:induction false} FlatteningFits(prog: Program, u: set<CString>, items: seq<Item>, touched: seq<CString>,
      h: nat, seen: bool, closed: bool)
    requires Fits(prog, u, items) && BodiesHaveThens(prog) && BodiesFit(prog, closed)
    requires Shaped(EntriesOf(items), h, seen, closed)
    ensures Shaped(Flatten(prog, u, items, touched).0, h, seen, closed)
    decreases |Untouched(u, touched)|, |items|
  {
    hide Shaped;
    if items == [] {
      assert Flatten(prog, u, items, touched).0 == EntriesOf(items);
    } else {
      FitsRest(prog, u, items);
      if items[0].Access? {
        var v := items[0].va;
        ShapedFirst(v, EntriesOf(items[1..]), h, seen, closed);
        FlatteningFits(prog, u, items[1..], touched, NextHeight(v.ty, h), NextSeen(v.ty, seen), closed);
        ShapedFirst(v, Flatten(prog, u, items[1..], touched).0, h, seen, closed);
      } else if items[0].usr in touched {
        FlatteningFits(prog, u, items[1..], touched, h, seen, closed);
      } else {
        var (callee, after) := FlattenCallee(prog, u, items[0].usr, touched);
        MoreTouchedFewerLeft(u, touched, after);
        CalleeFits(prog, u, items[0].usr, touched, h, seen, closed);
        var h1, seen1 := HeightAfter(callee, h), SeenAfter(callee, seen);
        ShapedFromMore(EntriesOf(items[1..]), h, h1, seen, seen1, closed);
        FlatteningFits(prog, u, items[1..], after, h1, seen1, closed);
        ShapedConcat(callee, Flatten(prog, u, items[1..], after).0, h, seen, closed);
      }
    }
  }

  lemma {:induction false} CalleeFits(prog: Program, u: set<CString>, usr: CString, touched: seq<CString>,
      h: nat, seen: bool, closed: bool)
    requires Closed(prog, u) && BodiesHaveThens(prog) && BodiesFit(prog, closed) && usr in u && usr !in touched
    ensures var callee := FlattenCallee(prog, u, usr, touched).0;
            && Shaped(callee, h, seen, closed)
            && (closed ==> HeightAfter(callee, h) >= h) && (seen ==> SeenAfter(callee, seen))
    decreases |Untouched(u, touched)|, 0
  {
    if Expanded(prog, usr) {
      TouchingShrinks(u, touched, usr);
      FitsBody(prog, u, [], usr);
      CalleeKeepsThens(prog, u, usr, touched);
      var callee := FlattenCallee(prog, u, usr, touched).0;
      FlatteningFits(prog, u, Lookup(prog, usr).body, touched + [usr], 0, false, closed);
      ShapedFromMore(callee, 0, h, false, seen, closed);
      if seen {
        ThensAreSeen(callee, true);
      }
    }
  }

  lemma {:induction false} SettlingFits(es: Footprint, fs: Footprint, h: nat, seen: bool, closed: bool)
    requires EntriesSettled(es, fs) && Shaped(es, h, seen, closed)
    ensures Shaped(fs, h, seen, closed)
    decreases es
  {
    if es != [] {
      assert SettledFrom(es[0], fs[0]);
      SettlingFits(es[1..], fs[1..], NextHeight(es[0].ty, h), NextSeen(es[0].ty, seen), closed);
    }
  }

  lemma {:induction false} DroppingFits(es: Footprint, h: nat, seen: bool, closed: bool)
    requires Shaped(es, h, seen, closed)
    ensures Shaped(DropNull(es), h, seen, closed)
    decreases es
  {
    if es != [] {
      DroppingFits(es[1..], NextHeight(es[0].ty, h), NextSeen(es[0].ty, seen), closed);
      if es[0].ty.Null? {
        assert DropNull(es) == [] + DropNull(es[1..]) == DropNull(es[1..]);
      } else {
        assert DropNull(es)[1..] == DropNull(es[1..]);
      }
    }
  }

  /** The footprint of a root meets all that the verdict asks for, if the bodies do; and its end-ifs
      close ifs, if theirs do. */
  lemma {:induction false} FootprintIsStructured(prog: Program, u: set<CString>, root: CString, touched: seq<CString>,
      parsedFuncCall: seq<CString>, artificial: Naming, env: Answers, closed: bool)
    requires Closed(prog, u) && ProperProgram(prog) && Expanded(prog, root) && Fits(prog, u, Lookup(prog, root).body)
    requires BodiesHaveThens(prog) && BodiesFit(prog, closed)
    ensures var d := Lookup(prog, root);
            var v := VisitBody(prog, u, d.spelling, d.body, touched);
            var es := RootNamed(v.entries, env.params(root), ArgsOf(parsedFuncCall), artificial);
            var unwound := Unwound(NewFuncInfo(prog, root).(callees := v.callees, varAccesses := es), env);
            && Structured(Inlined(unwound))
            && (closed && |Inlined(unwound)| <= SIZE_MAX ==> WellBracketed(Inlined(unwound)))
  {
    var d := Lookup(prog, root);
    var v := VisitBody(prog, u, d.spelling, d.body, touched);
    var es := RootNamed(v.entries, env.params(root), ArgsOf(parsedFuncCall), artificial);
    var unwound := Unwound(NewFuncInfo(prog, root).(callees := v.callees, varAccesses := es), env);
    FootprintHasThens(prog, u, root, touched, parsedFuncCall, artificial, env);
    FlatteningFits(prog, u, d.body, touched, 0, false, closed);
    SettlingFits(Flatten(prog, u, d.body, touched).0, InlineAll(unwound), 0, false, closed);
    DroppingFits(InlineAll(unwound), 0, false, closed);
    if closed && |Inlined(unwound)| <= SIZE_MAX {
      FittingIsBracketed(Inlined(unwound));
    }
    FittingHasNoElseInCondition(Inlined(unwound));
  }
}
