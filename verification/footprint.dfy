/** From the forest of functions to one flat footprint per root: unwinding (src/core.c:693-861) and
    inlining (src/core.c:863-890). */
module AccessFootprint {
  import opened VarAccesses
  import opened CallForest
  import opened LockPrimitives

  // ----- call entries and callees -----

  function CallUsrs(es: Footprint): seq<CString> {
    if es == [] then []
    else if es[0].ty.Call? then [es[0].usr] + CallUsrs(es[1..])
    else CallUsrs(es[1..])
  }

  function Usrs(fs: seq<FuncInfo>): (r: seq<CString>)
    ensures |r| == |fs|
  {
    if fs == [] then [] else [fs[0].usr] + Usrs(fs[1..])
  }

  /** In every node of the tree the k-th call entry names the k-th callee. */
  ghost predicate Paired(f: FuncInfo) {
    CallUsrs(f.varAccesses) == Usrs(f.callees) && AllPaired(f.callees)
  }

  ghost predicate AllPaired(fs: seq<FuncInfo>) {
    fs == [] || (Paired(fs[0]) && AllPaired(fs[1..]))
  }

  lemma {:induction false} PairStep(es: Footprint, cs: seq<FuncInfo>)
    requires es != [] && CallUsrs(es) == Usrs(cs)
    ensures es[0].ty.Call? ==> cs != [] && es[0].usr == cs[0].usr && CallUsrs(es[1..]) == Usrs(cs[1..])
    ensures !es[0].ty.Call? ==> CallUsrs(es[1..]) == Usrs(cs)
  {
    if es[0].ty.Call? {
      assert CallUsrs(es)[0] == es[0].usr && CallUsrs(es)[1..] == CallUsrs(es[1..]);
      assert Usrs(cs)[1..] == Usrs(cs[1..]);
    }
  }

  /** Entries that mark structure: calls and branch markers. */
  predicate IsMarker(t: AccessType) {
    t.Call? || t.IfStmt? || t.ThenBlock? || t.ElseStmt? || t.EndIf?
  }

  /** Accesses collected from a body are not calls, and branch markers name no parameter. */
  ghost predicate ProperBody(items: seq<Item>) {
    forall it :: it in items && it.Access? ==> !it.va.ty.Call? && (IsMarker(it.va.ty) ==> it.va.escParam == NO_IDX)
  }

  ghost predicate ProperProgram(prog: Program) {
    forall f :: f in prog ==> ProperBody(prog[f].body)
  }

  /** The visitor pairs call entries with callees, in the whole forest. */
  lemma {:induction false} VisitIsPaired(prog: Program, u: set<CString>, caller: CString, items: seq<Item>,
      touched: seq<CString>)
    requires Fits(prog, u, items) && ProperProgram(prog) && ProperBody(items)
    ensures var v := VisitBody(prog, u, caller, items, touched);
            CallUsrs(v.entries) == Usrs(v.callees) && AllPaired(v.callees)
    decreases |Untouched(u, touched)|, |items|
  {
    if items != [] {
      FitsRest(prog, u, items);
      ProperRest(items);
      var v := VisitBody(prog, u, caller, items, touched);
      if items[0].CallExpr? && items[0].usr !in touched {
        var (callee, after) := VisitCallee(prog, u, items[0].usr, touched);
        MoreTouchedFewerLeft(u, touched, after);
        CalleeIsPaired(prog, u, items[0].usr, touched);
        VisitIsPaired(prog, u, caller, items[1..], after);
        var rest := VisitBody(prog, u, caller, items[1..], after);
        assert v.entries[1..] == rest.entries && v.callees[1..] == rest.callees;
      } else {
        VisitIsPaired(prog, u, caller, items[1..], touched);
        var rest := VisitBody(prog, u, caller, items[1..], touched);
        assert items[0].Access? ==> v.entries[1..] == rest.entries;
      }
    }
  }

  lemma {:induction false} ProperRest(items: seq<Item>)
    requires ProperBody(items) && items != []
    ensures ProperBody(items[1..])
    ensures items[0].Access? ==> !items[0].va.ty.Call? && (IsMarker(items[0].va.ty) ==> items[0].va.escParam == NO_IDX)
  {
    assert items[0] in items;
    assert forall it :: it in items[1..] ==> it in items;
  }

  lemma {:induction false} CalleeIsPaired(prog: Program, u: set<CString>, usr: CString, touched: seq<CString>)
    requires Closed(prog, u) && ProperProgram(prog) && usr in u && usr !in touched
    ensures var callee := VisitCallee(prog, u, usr, touched).0; Paired(callee) && callee.usr == usr
    decreases |Untouched(u, touched)|, 0
  {
    if Expanded(prog, usr) {
      TouchingShrinks(u, touched, usr);
      FitsBody(prog, u, [], usr);
      VisitIsPaired(prog, u, Lookup(prog, usr).spelling, Lookup(prog, usr).body, touched + [usr]);
    }
  }

  // ----- inlining -----

  predicate Skipped(f: FuncInfo) {
    f.inSystemHeader || !f.hasDefinition
  }

  predicate Kept(v: VarAccess) {
    !v.ty.Null? && !v.ty.Call?
  }

  /** The entries of a function in order, with the footprint of a callee in place of each call. */
  function Inlined(f: FuncInfo): Footprint
    decreases f, 0
  {
    if Skipped(f) then [] else InlineEntries(f.varAccesses, f.callees)
  }

  function InlineEntries(es: Footprint, cs: seq<FuncInfo>): Footprint
    decreases cs, |es|
  {
    if es == [] then []
    else if es[0].ty.Call? && cs != [] then Inlined(cs[0]) + InlineEntries(es[1..], cs[1..])
    else (if Kept(es[0]) then [es[0]] else []) + InlineEntries(es[1..], cs)
  }

  /** The same without dropping the entries that are Null. */
  function InlineAll(f: FuncInfo): Footprint
    decreases f, 0
  {
    if Skipped(f) then [] else InlineAllEntries(f.varAccesses, f.callees)
  }

  function InlineAllEntries(es: Footprint, cs: seq<FuncInfo>): Footprint
    decreases cs, |es|
  {
    if es == [] then []
    else if es[0].ty.Call? && cs != [] then InlineAll(cs[0]) + InlineAllEntries(es[1..], cs[1..])
    else (if es[0].ty.Call? then [] else [es[0]]) + InlineAllEntries(es[1..], cs)
  }

  function DropNull(es: Footprint): Footprint {
    if es == [] then [] else (if es[0].ty.Null? then [] else [es[0]]) + DropNull(es[1..])
  }

  lemma {:induction false} DropNullConcat(es: Footprint, fs: Footprint)
    ensures DropNull(es + fs) == DropNull(es) + DropNull(fs)
  {
    if es == [] {
      assert es + fs == fs;
    } else {
      assert (es + fs)[1..] == es[1..] + fs;
      DropNullConcat(es[1..], fs);
    }
  }

  /** Nothing but null entries is dropped, and all of those are. */
  lemma {:induction false} NullAloneIsDropped(es: Footprint, v: VarAccess)
    ensures multiset(DropNull(es))[v] == if v.ty == Null then 0 else multiset(es)[v]
  {
    if es != [] {
      NullAloneIsDropped(es[1..], v);
      assert es == [es[0]] + es[1..];
    }
  }

  lemma {:induction false} InlinedDropsNull(f: FuncInfo)
    ensures Inlined(f) == DropNull(InlineAll(f))
    decreases f, 0
  {
    if !Skipped(f) {
      InlineEntriesDropNull(f.varAccesses, f.callees);
    }
  }

  lemma {:induction false} InlineEntriesDropNull(es: Footprint, cs: seq<FuncInfo>)
    ensures InlineEntries(es, cs) == DropNull(InlineAllEntries(es, cs))
    decreases cs, |es|
  {
    if es != [] {
      if es[0].ty.Call? && cs != [] {
        InlinedDropsNull(cs[0]);
        InlineEntriesDropNull(es[1..], cs[1..]);
        DropNullConcat(InlineAll(cs[0]), InlineAllEntries(es[1..], cs[1..]));
      } else {
        InlineEntriesDropNull(es[1..], cs);
        DropNullConcat(if es[0].ty.Call? then [] else [es[0]], InlineAllEntries(es[1..], cs));
      }
    }
  }

  const VAR_ACC_ARR_INIT_CAP := 8

  /** Five pointers, four 32-bit numbers and a flag, padded. */
  const SIZEOF_VAR_ACCESS := 64

  /** The capacity is the number of entries in the block. */
  class VarAccessArr {
    var data: array<VarAccess>
    var size: nat

    /** There is a block, and it is not more than 128 times as large as needed. */
    ghost predicate Valid()
      reads this
    {
      && size <= data.Length && VAR_ACC_ARR_INIT_CAP <= data.Length
      && (data.Length > VAR_ACC_ARR_INIT_CAP ==> data.Length <= 2 * SIZEOF_VAR_ACCESS * size)
    }

    ghost function Contents(): Footprint
      requires Valid()
      reads this, data
    {
      data[..size]
    }

    constructor ()
      ensures Valid() && fresh(data) && Contents() == []
    {
      data := new VarAccess[VAR_ACC_ARR_INIT_CAP];
      size := 0;
    }

    /** The test compares a number of bytes with the capacity, a number of entries; so the block is
        doubled long before it is full, and one doubling always leaves room. */
    method PushAccessCopy(va: VarAccess)
      requires Valid()
      modifies this, data
      ensures Valid() && Contents() == old(Contents()) + [va]
      ensures data == old(data) || fresh(data)
      ensures data.Length ==
              if (old(size) + 1) * SIZEOF_VAR_ACCESS > old(data.Length) then 2 * old(data.Length) else old(data.Length)
    {
      if (size + 1) * SIZEOF_VAR_ACCESS > data.Length {
        var block := new VarAccess[2 * data.Length];
        forall k | 0 <= k < size {
          block[k] := data[k];
        }
        assert block[..size] == data[..size];
        data := block;
      }
      assert data[..size] == old(Contents());
      data[size] := va;
      size := size + 1;
    }
  }

  /** Thanks to the pairing the callee cursor never runs past the callees. */
  method BuildVarAccessFootprint(f: FuncInfo, footprint: VarAccessArr)
    requires Paired(f) && footprint.Valid()
    modifies footprint, footprint.data
    ensures footprint.Valid() && (footprint.data == old(footprint.data) || fresh(footprint.data))
    ensures footprint.Contents() == old(footprint.Contents()) + Inlined(f)
    decreases f
  {
    if f.inSystemHeader || !f.hasDefinition {
      return;
    }
    var nextCallee := 0;
    var i := 0;
    while i < |f.varAccesses|
      invariant 0 <= i <= |f.varAccesses| && 0 <= nextCallee <= |f.callees|
      invariant StillPaired(f, i, nextCallee)
      invariant footprint.Valid() && (footprint.data == old(footprint.data) || fresh(footprint.data))
      invariant footprint.Contents() + StillToInline(f, i, nextCallee) == old(footprint.Contents()) + Inlined(f)
    {
      InlineStep(f, i, nextCallee, footprint.Contents());
      var va := f.varAccesses[i];
      if va.ty.Call? && f.callees != [] {
        BuildVarAccessFootprint(f.callees[nextCallee], footprint);
        nextCallee := nextCallee + 1;
      } else if !va.ty.Null? && !va.ty.Call? {
        footprint.PushAccessCopy(va);
      }
      i := i + 1;
    }
  }

  ghost predicate StillPaired(f: FuncInfo, i: nat, next: nat)
    requires i <= |f.varAccesses| && next <= |f.callees|
  {
    CallUsrs(f.varAccesses[i..]) == Usrs(f.callees[next..]) && AllPaired(f.callees[next..])
  }

  ghost function StillToInline(f: FuncInfo, i: nat, next: nat): Footprint
    requires i <= |f.varAccesses| && next <= |f.callees|
  {
    InlineEntries(f.varAccesses[i..], f.callees[next..])
  }

  lemma {:induction false} InlineStep(f: FuncInfo, i: nat, next: nat, out: Footprint)
    requires i < |f.varAccesses| && next <= |f.callees| && StillPaired(f, i, next)
    ensures var va := f.varAccesses[i];
            if va.ty.Call? then
              && next < |f.callees| && Paired(f.callees[next]) && StillPaired(f, i + 1, next + 1)
              && out + StillToInline(f, i, next) == out + Inlined(f.callees[next]) + StillToInline(f, i + 1, next + 1)
            else
              && StillPaired(f, i + 1, next)
              && out + StillToInline(f, i, next) ==
                 (if Kept(va) then out + [va] else out) + StillToInline(f, i + 1, next)
  {
    assert f.varAccesses[i..][1..] == f.varAccesses[i + 1..];
    PairStep(f.varAccesses[i..], f.callees[next..]);
    if f.varAccesses[i].ty.Call? {
      assert f.callees[next..][1..] == f.callees[next + 1..];
    }
  }

  // ----- the footprint without the forest -----

  /** The footprint of a body by direct recursion over the program: accesses as they come, and in
      place of a call the footprint of the callee, unless the callee was met before. */
  ghost function Flatten(prog: Program, u: set<CString>, items: seq<Item>,
      touched: seq<CString>): (r: (Footprint, seq<CString>))
    requires Fits(prog, u, items)
    ensures touched <= r.1
    decreases |Untouched(u, touched)|, |items|
  {
    if items == [] then ([], touched)
    else
      FitsRest(prog, u, items);
      if items[0].Access? then
        var rest := Flatten(prog, u, items[1..], touched);
        ([items[0].va] + rest.0, rest.1)
      else if items[0].usr in touched then Flatten(prog, u, items[1..], touched)
      else
        var callee := FlattenCallee(prog, u, items[0].usr, touched);
        MoreTouchedFewerLeft(u, touched, callee.1);
        var rest := Flatten(prog, u, items[1..], callee.1);
        (callee.0 + rest.0, rest.1)
  }

  ghost function FlattenCallee(prog: Program, u: set<CString>, usr: CString,
      touched: seq<CString>): (r: (Footprint, seq<CString>))
    requires Closed(prog, u) && usr in u && usr !in touched
    ensures touched + [usr] <= r.1
    decreases |Untouched(u, touched)|, 0
  {
    if !Expanded(prog, usr) then ([], touched + [usr])
    else
      TouchingShrinks(u, touched, usr);
      FitsBody(prog, u, [], usr);
      Flatten(prog, u, Lookup(prog, usr).body, touched + [usr])
  }

  /** A callee from a system header, or without a definition, contributes nothing; any other its body. */
  lemma {:induction false} CalleeContributes(prog: Program, u: set<CString>, usr: CString, touched: seq<CString>)
    requires Closed(prog, u) && usr in u && usr !in touched
    ensures var d, flat := Lookup(prog, usr), FlattenCallee(prog, u, usr, touched);
            if d.inSystemHeader || !d.hasDefinition then flat == ([], touched + [usr])
            else Fits(prog, u, d.body) && flat == Flatten(prog, u, d.body, touched + [usr])
  {
    FitsBody(prog, u, [], usr);
  }

  /** Building the forest and inlining it is the direct recursion. */
  lemma {:induction false} InliningIsFlattening(prog: Program, u: set<CString>, caller: CString, items: seq<Item>,
      touched: seq<CString>)
    requires Fits(prog, u, items) && ProperProgram(prog) && ProperBody(items)
    ensures var v := VisitBody(prog, u, caller, items, touched);
            Flatten(prog, u, items, touched) == (InlineAllEntries(v.entries, v.callees), v.touched)
    decreases |Untouched(u, touched)|, |items|
  {
    if items != [] {
      FitsRest(prog, u, items);
      ProperRest(items);
      var v := VisitBody(prog, u, caller, items, touched);
      if items[0].CallExpr? && items[0].usr !in touched {
        var (callee, after) := VisitCallee(prog, u, items[0].usr, touched);
        MoreTouchedFewerLeft(u, touched, after);
        CalleeInliningIsFlattening(prog, u, items[0].usr, touched);
        InliningIsFlattening(prog, u, caller, items[1..], after);
        var rest := VisitBody(prog, u, caller, items[1..], after);
        assert v.entries[1..] == rest.entries && v.callees[1..] == rest.callees;
      } else {
        InliningIsFlattening(prog, u, caller, items[1..], touched);
        var rest := VisitBody(prog, u, caller, items[1..], touched);
        assert items[0].Access? ==> v.entries[1..] == rest.entries;
      }
    }
  }

  lemma {:induction false} CalleeInliningIsFlattening(prog: Program, u: set<CString>, usr: CString,
      touched: seq<CString>)
    requires Closed(prog, u) && ProperProgram(prog) && usr in u && usr !in touched
    ensures var (callee, after) := VisitCallee(prog, u, usr, touched);
            FlattenCallee(prog, u, usr, touched) == (InlineAll(callee), after)
    decreases |Untouched(u, touched)|, 0
  {
    if Expanded(prog, usr) {
      TouchingShrinks(u, touched, usr);
      FitsBody(prog, u, [], usr);
      InliningIsFlattening(prog, u, Lookup(prog, usr).spelling, Lookup(prog, usr).body, touched + [usr]);
    }
  }

  // ----- unwinding -----

  /** What libclang answers about a function: the USR it gives for the argument with an index, whether
      the function has one or not, and the USRs of its locals and parameters. */
  datatype Answers = Answers(paramUsr: (CString, nat) -> CString, locals: CString -> seq<CString>,
      params: CString -> seq<CString>)

  function Renamed(es: Footprint, from: CString, to: CString): (r: Footprint)
    ensures |r| == |es|
  {
    seq(|es|, i requires 0 <= i < |es| =>
      if !IsPlaceholder(es[i].ty) && es[i].usr == from then es[i].(usr := to) else es[i])
  }

  /** Every access to one variable is renamed, and nothing else. */
  lemma {:induction false} RenamedExactly(es: Footprint, from: CString, to: CString, i: nat)
    requires i < |es|
    ensures Renamed(es, from, to)[i] ==
            if IsAccess(es[i].ty) && es[i].usr == from then es[i].(usr := to) else es[i]
  {
    AccessesAreNoPlaceholders(es[i].ty);
  }

  function WithAlias(callee: FuncInfo, call: VarAccess, env: Answers): FuncInfo {
    callee.(varAccesses := Renamed(callee.varAccesses, env.paramUsr(callee.usr, call.escParam), call.usr))
  }

  /** The alias pass over the entries es: each call entry renames in the callee under the cursor,
      and the cursor stops for good at a callee from a system header. */
  function Aliased(es: Footprint, next: nat, cs: seq<FuncInfo>, env: Answers): (r: seq<FuncInfo>)
    ensures |r| == |cs|
  {
    if es == [] then cs
    else if es[0].ty.Call? && next < |cs| && !cs[next].inSystemHeader
    then Aliased(es[1..], next + 1, cs[next := WithAlias(cs[next], es[0], env)], env)
    else Aliased(es[1..], next, cs, env)
  }

  function Calls(es: Footprint): Footprint {
    if es == [] then [] else if es[0].ty.Call? then [es[0]] + Calls(es[1..]) else Calls(es[1..])
  }

  /** No callee in cs[from..=k] is from a system header. */
  ghost predicate OwnCodeUpTo(cs: seq<FuncInfo>, from: nat, k: nat) {
    forall j :: from <= j <= k && j < |cs| ==> !cs[j].inSystemHeader
  }

  /** The k-th callee is aliased by the k-th call, unless it comes at or after a callee from a system
      header: then it is left as it was. */
  lemma {:induction false} AliasingStopsAtSystemHeader(es: Footprint, next: nat, cs: seq<FuncInfo>, env: Answers,
      k: nat)
    requires k < |cs|
    ensures Aliased(es, next, cs, env)[k] ==
            if next <= k < next + |Calls(es)| && OwnCodeUpTo(cs, next, k)
            then WithAlias(cs[k], Calls(es)[k - next], env)
            else cs[k]
    decreases es
  {
    if es != [] {
      if es[0].ty.Call? && next < |cs| && !cs[next].inSystemHeader {
        var cs' := cs[next := WithAlias(cs[next], es[0], env)];
        AliasingStopsAtSystemHeader(es[1..], next + 1, cs', env, k);
        assert forall j :: next < j < |cs| ==> cs'[j] == cs[j];
        assert OwnCodeUpTo(cs', next + 1, k) <==> OwnCodeUpTo(cs, next, k) by {
          if OwnCodeUpTo(cs, next, k) {
            assert forall j :: next < j < |cs| && j <= k ==> !cs[j].inSystemHeader;
          }
        }
        assert next < k < next + |Calls(es)| ==> Calls(es)[k - next] == Calls(es[1..])[k - next - 1];
      } else {
        AliasingStopsAtSystemHeader(es[1..], next, cs, env, k);
        assert es[0].ty.Call? && next <= k ==> cs[next].inSystemHeader;
      }
    }
  }

  /** The callee's own identity in place of the parameter that libclang names for no index. */
  function WithOwnUsr(callee: FuncInfo, env: Answers): FuncInfo {
    callee.(varAccesses := Renamed(callee.varAccesses, env.paramUsr(callee.usr, NO_IDX), callee.usr))
  }

  /** A call entry carries the callee's USR and no parameter index, so the alias pass can do no more
      than put the callee's own USR into its entries. It does so exactly for the callees up to the
      first one from a system header, save where there is nothing to rename. */
  lemma {:induction false} CalleeIsAliasedExactly(f: FuncInfo, env: Answers, k: nat)
    requires Paired(f) && MarkersAreBare(f) && k < |f.callees| && !f.callees[k].inSystemHeader
    ensures var callee, after := f.callees[k], Aliased(f.varAccesses, 0, f.callees, env)[k];
            && (after == callee || after == WithOwnUsr(callee, env))
            && (after == WithOwnUsr(callee, env) <==>
                OwnCodeUpTo(f.callees, 0, k) || WithOwnUsr(callee, env) == callee)
  {
    CallsNameCallees(f.varAccesses, f.callees, k);
    AliasingStopsAtSystemHeader(f.varAccesses, 0, f.callees, env, k);
  }

  /** No entry of a callee takes over the identity of an argument: its USR stays, or becomes that of
      the callee. */
  lemma {:induction false} NoArgumentIsAliased(f: FuncInfo, env: Answers, k: nat, i: nat)
    requires Paired(f) && k < |f.callees| && i < |f.callees[k].varAccesses|
    ensures var es := Aliased(f.varAccesses, 0, f.callees, env)[k].varAccesses;
            && |es| == |f.callees[k].varAccesses|
            && var was := f.callees[k].varAccesses[i];
               es[i] == was || es[i] == was.(usr := f.callees[k].usr)
  {
    CallsNameCallees(f.varAccesses, f.callees, k);
    AliasingStopsAtSystemHeader(f.varAccesses, 0, f.callees, env, k);
  }

  /** The k-th call entry names the k-th callee. */
  lemma {:induction false} CallsNameCallees(es: Footprint, cs: seq<FuncInfo>, k: nat)
    requires CallUsrs(es) == Usrs(cs) && k < |cs|
    ensures |Calls(es)| == |cs| && Calls(es)[k].usr == cs[k].usr
    ensures Calls(es)[k] in es && Calls(es)[k].ty.Call?
  {
    PairStep(es, cs);
    if es[0].ty.Call? {
      if |cs| > 1 {
        CallsNameCallees(es[1..], cs[1..], if k > 0 then k - 1 else 0);
      } else {
        NoMoreCalls(es[1..]);
      }
    } else {
      CallsNameCallees(es[1..], cs, k);
    }
  }

  lemma {:induction false} NoMoreCalls(es: Footprint)
    requires CallUsrs(es) == []
    ensures Calls(es) == []
  {
    if es != [] {
      NoMoreCalls(es[1..]);
    }
  }

  /** What becomes of one entry: a first argument of a locking function turns into a lock entry, and
      a plain access to a local or parameter is dropped. */
  function Settled(v: VarAccess, f: CString, env: Answers): VarAccess {
    if v.escFunc.Some? && v.escParam == 0 && !LockPrimitiveType(v.escFunc.value).Null?
    then v.(ty := LockPrimitiveType(v.escFunc.value))
    else
      var local := !v.isPtr && !v.ty.Escape? && !IsPlaceholder(v.ty) && v.usr in env.locals(f);
      var w := if local then v.(ty := Null) else v;
      if (w.ty.Read? || w.ty.Write?) && w.usr in env.params(f) then w.(ty := Null) else w
  }

  /** A first argument of a locking function. */
  ghost predicate IsLockArgument(v: VarAccess) {
    v.escFunc.Some? && v.escParam == 0 && (TakesLock(v.escFunc.value) || ReleasesLock(v.escFunc.value))
  }

  /** An access that only concerns the function itself: to a local that is no pointer and does not
      escape, or a plain one to a parameter. */
  ghost predicate IsPrivate(v: VarAccess, locals: seq<CString>, params: seq<CString>) {
    || (v.usr in locals && !v.isPtr && IsAccess(v.ty) && v.ty != Escape)
    || (v.usr in params && v.ty in {Read, Write})
  }

  /** A lock argument turns into the lock entry of its function; of all others the private accesses turn
      Null, and nothing else changes. */
  ghost predicate SettlesTo(v: VarAccess, w: VarAccess, locals: seq<CString>, params: seq<CString>) {
    if IsLockArgument(v) then w == v.(ty := if TakesLock(v.escFunc.value) then LockAcquire else LockRelease)
    else w == if IsPrivate(v, locals, params) then v.(ty := Null) else v
  }

  lemma {:induction false} SettledExactly(v: VarAccess, f: CString, env: Answers)
    ensures SettlesTo(v, Settled(v, f, env), env.locals(f), env.params(f))
  {
    hide TakesLock, ReleasesLock;
    if v.escFunc.Some? {
      LockTypeExactly(v.escFunc.value);
    }
    AccessesAreNoPlaceholders(v.ty);
  }

  function AllSettled(es: Footprint, f: CString, env: Answers): (r: Footprint)
    ensures |r| == |es|
  {
    seq(|es|, i requires 0 <= i < |es| => Settled(es[i], f, env))
  }

  function Nodes(f: FuncInfo): nat {
    1 + NodesAll(f.callees)
  }

  function NodesAll(fs: seq<FuncInfo>): nat {
    if fs == [] then 0 else Nodes(fs[0]) + NodesAll(fs[1..])
  }

  lemma {:induction false} AliasingKeepsNodes(es: Footprint, next: nat, cs: seq<FuncInfo>, env: Answers)
    ensures NodesAll(Aliased(es, next, cs, env)) == NodesAll(cs)
  {
    if es != [] {
      if es[0].ty.Call? && next < |cs| && !cs[next].inSystemHeader {
        SameNodes(cs, next, WithAlias(cs[next], es[0], env));
        AliasingKeepsNodes(es[1..], next + 1, cs[next := WithAlias(cs[next], es[0], env)], env);
      } else {
        AliasingKeepsNodes(es[1..], next, cs, env);
      }
    }
  }

  lemma {:induction false} SameNodes(cs: seq<FuncInfo>, k: nat, c: FuncInfo)
    requires k < |cs| && c.callees == cs[k].callees
    ensures NodesAll(cs[k := c]) == NodesAll(cs)
  {
    if k > 0 {
      assert cs[k := c][1..] == cs[1..][k - 1 := c];
      SameNodes(cs[1..], k - 1, c);
    } else {
      assert cs[k := c][1..] == cs[1..];
    }
  }

  function Unwound(f: FuncInfo, env: Answers): FuncInfo
    decreases Nodes(f), 1
  {
    if Skipped(f) then f
    else
      AliasingKeepsNodes(f.varAccesses, 0, f.callees, env);
      f.(callees := UnwoundAll(Aliased(f.varAccesses, 0, f.callees, env), env),
         varAccesses := AllSettled(f.varAccesses, f.usr, env))
  }

  function UnwoundAll(fs: seq<FuncInfo>, env: Answers): (r: seq<FuncInfo>)
    ensures |r| == |fs|
    decreases NodesAll(fs), 2
  {
    if fs == [] then [] else [Unwound(fs[0], env)] + UnwoundAll(fs[1..], env)
  }

  lemma {:induction false} PickOne(fs: seq<FuncInfo>, k: nat, env: Answers)
    requires k < |fs|
    ensures Nodes(fs[k]) <= NodesAll(fs)
    ensures UnwoundAll(fs, env)[k] == Unwound(fs[k], env)
    ensures AllPaired(fs) ==> Paired(fs[k])
  {
    if k > 0 {
      PickOne(fs[1..], k - 1, env);
    }
  }

  lemma {:induction false} RenamingKeepsCalls(es: Footprint, from: CString, to: CString)
    ensures CallUsrs(Renamed(es, from, to)) == CallUsrs(es)
  {
    if es != [] {
      assert Renamed(es, from, to)[1..] == Renamed(es[1..], from, to);
      RenamingKeepsCalls(es[1..], from, to);
    }
  }

  lemma {:induction false} ReplaceKeepsPaired(cs: seq<FuncInfo>, k: nat, c: FuncInfo)
    requires k < |cs| && AllPaired(cs) && (Paired(cs[k]) ==> Paired(c))
    ensures AllPaired(cs[k := c])
  {
    if k > 0 {
      assert cs[k := c][1..] == cs[1..][k - 1 := c];
      ReplaceKeepsPaired(cs[1..], k - 1, c);
    } else {
      assert cs[k := c][1..] == cs[1..];
    }
  }

  lemma {:induction false} AliasingKeepsPaired(es: Footprint, next: nat, cs: seq<FuncInfo>, env: Answers)
    requires AllPaired(cs)
    ensures AllPaired(Aliased(es, next, cs, env))
  {
    if es != [] {
      if es[0].ty.Call? && next < |cs| && !cs[next].inSystemHeader {
        var c := WithAlias(cs[next], es[0], env);
        RenamingKeepsCalls(cs[next].varAccesses, env.paramUsr(cs[next].usr, es[0].escParam), es[0].usr);
        ReplaceKeepsPaired(cs, next, c);
        AliasingKeepsPaired(es[1..], next + 1, cs[next := c], env);
      } else {
        AliasingKeepsPaired(es[1..], next, cs, env);
      }
    }
  }

  method ResolveVarAccessAlias(callee: FuncInfo, call: VarAccess, env: Answers) returns (r: FuncInfo)
    ensures r == WithAlias(callee, call, env)
  {
    var es := callee.varAccesses;
    var from := env.paramUsr(callee.usr, call.escParam);
    for i := 0 to |es|
      invariant |es| == |callee.varAccesses|
      invariant forall k :: 0 <= k < i ==> es[k] == Renamed(callee.varAccesses, from, call.usr)[k]
      invariant forall k :: i <= k < |es| ==> es[k] == callee.varAccesses[k]
    {
      if !IsPlaceholder(es[i].ty) && es[i].usr == from {
        es := es[i := es[i].(usr := call.usr)];
      }
    }
    assert es == Renamed(callee.varAccesses, from, call.usr);
    r := callee.(varAccesses := es);
  }

  method SettleEntries(f: FuncInfo, env: Answers) returns (es: Footprint)
    ensures es == AllSettled(f.varAccesses, f.usr, env)
    ensures forall k :: 0 <= k < |es| ==> SettlesTo(f.varAccesses[k], es[k], env.locals(f.usr), env.params(f.usr))
  {
    es := f.varAccesses;
    for i := 0 to |es|
      invariant |es| == |f.varAccesses|
      invariant forall k :: 0 <= k < i ==> es[k] == Settled(f.varAccesses[k], f.usr, env)
      invariant forall k :: i <= k < |es| ==> es[k] == f.varAccesses[k]
    {
      if es[i].escFunc.Some? && es[i].escParam == 0 {
        var vaLockType := LockPrimitiveType(es[i].escFunc.value);
        if !vaLockType.Null? {
          es := es[i := es[i].(ty := vaLockType)];
          continue;
        }
      }
      if !es[i].isPtr && !es[i].ty.Escape? && !IsPlaceholder(es[i].ty) && es[i].usr in env.locals(f.usr) {
        es := es[i := es[i].(ty := Null)];
      }
      if (es[i].ty.Read? || es[i].ty.Write?) && es[i].usr in env.params(f.usr) {
        es := es[i := es[i].(ty := Null)];
      }
    }
    forall k | 0 <= k < |es|
      ensures SettlesTo(f.varAccesses[k], es[k], env.locals(f.usr), env.params(f.usr))
    {
      SettledExactly(f.varAccesses[k], f.usr, env);
    }
  }

  method UnwindFuncInfo(f: FuncInfo, env: Answers) returns (r: FuncInfo)
    requires Paired(f)
    ensures r == Unwound(f, env)
    decreases Nodes(f)
  {
    if f.inSystemHeader || !f.hasDefinition {
      return f;
    }
    var callees := f.callees;
    assert f.varAccesses[0..] == f.varAccesses;
    var nextCallee, i := 0, 0;
    while i < |f.varAccesses|
      invariant 0 <= i <= |f.varAccesses| && |callees| == |f.callees|
      invariant nextCallee + |CallUsrs(f.varAccesses[i..])| <= |callees|
      invariant Aliased(f.varAccesses[i..], nextCallee, callees, env) == Aliased(f.varAccesses, 0, f.callees, env)
    {
      assert f.varAccesses[i..][1..] == f.varAccesses[i + 1..];
      if f.varAccesses[i].ty.Call? {
        if !callees[nextCallee].inSystemHeader {
          var callee := ResolveVarAccessAlias(callees[nextCallee], f.varAccesses[i], env);
          callees := callees[nextCallee := callee];
          nextCallee := nextCallee + 1;
        }
      }
      i := i + 1;
    }
    var es := SettleEntries(f, env);
    ghost var aliased := callees;
    AliasingKeepsNodes(f.varAccesses, 0, f.callees, env);
    AliasingKeepsPaired(f.varAccesses, 0, f.callees, env);
    for k := 0 to |callees|
      invariant |callees| == |aliased|
      invariant forall j :: 0 <= j < k ==> callees[j] == UnwoundAll(aliased, env)[j]
      invariant forall j :: k <= j < |callees| ==> callees[j] == aliased[j]
    {
      PickOne(aliased, k, env);
      var callee := UnwindFuncInfo(callees[k], env);
      callees := callees[k := callee];
    }
    assert callees == UnwoundAll(aliased, env);
    r := f.(callees := callees, varAccesses := es);
  }

  // ----- what unwinding leaves alone -----

  /** An entry and what unwinding makes of it: markers stay as they are, and of other entries only
      the USR and the type may change, the type only to Null or to a lock type. */
  ghost predicate SettledFrom(v: VarAccess, w: VarAccess) {
    if IsMarker(v.ty) then w == v
    else
      && w == v.(usr := w.usr, ty := w.ty)
      && (w.ty == v.ty || w.ty.Null? || w.ty.LockAcquire? || w.ty.LockRelease?)
  }

  ghost predicate EntriesSettled(es: Footprint, fs: Footprint) {
    |es| == |fs| && forall i :: 0 <= i < |es| ==> SettledFrom(es[i], fs[i])
  }

  /** The same tree of functions, entry by entry related by SettledFrom. */
  ghost predicate SameShape(f: FuncInfo, g: FuncInfo) {
    && g.usr == f.usr && g.name == f.name && g.inSystemHeader == f.inSystemHeader && g.hasDefinition == f.hasDefinition
    && EntriesSettled(f.varAccesses, g.varAccesses)
    && SameShapes(f.callees, g.callees)
  }

  ghost predicate SameShapes(fs: seq<FuncInfo>, gs: seq<FuncInfo>) {
    if fs == [] then gs == [] else gs != [] && SameShape(fs[0], gs[0]) && SameShapes(fs[1..], gs[1..])
  }

  /** Markers name no parameter, throughout the tree. */
  ghost predicate MarkersAreBare(f: FuncInfo) {
    && (forall v :: v in f.varAccesses && IsMarker(v.ty) ==> v.escParam == NO_IDX)
    && AllMarkersAreBare(f.callees)
  }

  ghost predicate AllMarkersAreBare(fs: seq<FuncInfo>) {
    fs == [] || (MarkersAreBare(fs[0]) && AllMarkersAreBare(fs[1..]))
  }

  lemma {:induction false} SettledTransitive(es: Footprint, fs: Footprint, gs: Footprint)
    requires EntriesSettled(es, fs) && EntriesSettled(fs, gs)
    ensures EntriesSettled(es, gs)
  {
    forall i | 0 <= i < |es|
      ensures SettledFrom(es[i], gs[i])
    {
      assert SettledFrom(es[i], fs[i]) && SettledFrom(fs[i], gs[i]);
    }
  }

  lemma {:induction false} ShapeTransitive(f: FuncInfo, g: FuncInfo, h: FuncInfo)
    requires SameShape(f, g) && SameShape(g, h)
    ensures SameShape(f, h)
    decreases f, 0
  {
    SettledTransitive(f.varAccesses, g.varAccesses, h.varAccesses);
    ShapesTransitive(f.callees, g.callees, h.callees);
  }

  lemma {:induction false} ShapesTransitive(fs: seq<FuncInfo>, gs: seq<FuncInfo>, hs: seq<FuncInfo>)
    requires SameShapes(fs, gs) && SameShapes(gs, hs)
    ensures SameShapes(fs, hs)
    decreases fs, 0
  {
    if fs != [] {
      ShapeTransitive(fs[0], gs[0], hs[0]);
      ShapesTransitive(fs[1..], gs[1..], hs[1..]);
    }
  }

  lemma {:induction false} ShapeReflexive(f: FuncInfo)
    ensures SameShape(f, f)
    decreases f, 0
  {
    ShapesReflexive(f.callees);
  }

  lemma {:induction false} ShapesReflexive(fs: seq<FuncInfo>)
    ensures SameShapes(fs, fs)
    decreases fs, 0
  {
    if fs != [] {
      ShapeReflexive(fs[0]);
      ShapesReflexive(fs[1..]);
    }
  }

  lemma {:induction false} ReplaceKeepsShapes(cs: seq<FuncInfo>, k: nat, c: FuncInfo)
    requires k < |cs| && SameShape(cs[k], c)
    ensures SameShapes(cs, cs[k := c])
  {
    if k > 0 {
      assert cs[k := c][1..] == cs[1..][k - 1 := c];
      ShapeReflexive(cs[0]);
      ReplaceKeepsShapes(cs[1..], k - 1, c);
    } else {
      assert cs[k := c][1..] == cs[1..];
      ShapesReflexive(cs[1..]);
    }
  }

  lemma {:induction false} AliasKeepsShape(callee: FuncInfo, call: VarAccess, env: Answers)
    ensures SameShape(callee, WithAlias(callee, call, env))
  {
    ShapesReflexive(callee.callees);
  }

  lemma {:induction false} AliasingKeepsShapes(es: Footprint, next: nat, cs: seq<FuncInfo>, env: Answers)
    ensures SameShapes(cs, Aliased(es, next, cs, env))
  {
    if es == [] {
      ShapesReflexive(cs);
    } else if es[0].ty.Call? && next < |cs| && !cs[next].inSystemHeader {
      var c := WithAlias(cs[next], es[0], env);
      AliasKeepsShape(cs[next], es[0], env);
      ReplaceKeepsShapes(cs, next, c);
      AliasingKeepsShapes(es[1..], next + 1, cs[next := c], env);
      ShapesTransitive(cs, cs[next := c], Aliased(es, next, cs, env));
    } else {
      AliasingKeepsShapes(es[1..], next, cs, env);
    }
  }

  lemma {:induction false} ShapeKeepsMarkersBare(f: FuncInfo, g: FuncInfo)
    requires SameShape(f, g) && MarkersAreBare(f)
    ensures MarkersAreBare(g)
    decreases f, 0
  {
    forall v | v in g.varAccesses && IsMarker(v.ty)
      ensures v.escParam == NO_IDX
    {
      var i :| 0 <= i < |g.varAccesses| && g.varAccesses[i] == v;
      assert SettledFrom(f.varAccesses[i], g.varAccesses[i]) && f.varAccesses[i] in f.varAccesses;
    }
    ShapesKeepMarkersBare(f.callees, g.callees);
  }

  lemma {:induction false} ShapesKeepMarkersBare(fs: seq<FuncInfo>, gs: seq<FuncInfo>)
    requires SameShapes(fs, gs) && AllMarkersAreBare(fs)
    ensures AllMarkersAreBare(gs)
    decreases fs, 0
  {
    if fs != [] {
      ShapeKeepsMarkersBare(fs[0], gs[0]);
      ShapesKeepMarkersBare(fs[1..], gs[1..]);
    }
  }

  /** Unwinding moves no entry, touches no marker and leaves the tree of functions as it is. */
  lemma {:induction false} UnwindingKeepsShape(f: FuncInfo, env: Answers)
    requires MarkersAreBare(f)
    ensures SameShape(f, Unwound(f, env))
    decreases Nodes(f), 1
  {
    if Skipped(f) {
      ShapeReflexive(f);
    } else {
      var aliased := Aliased(f.varAccesses, 0, f.callees, env);
      AliasingKeepsNodes(f.varAccesses, 0, f.callees, env);
      AliasingKeepsShapes(f.varAccesses, 0, f.callees, env);
      ShapesKeepMarkersBare(f.callees, aliased);
      UnwindingKeepsShapes(aliased, env);
      ShapesTransitive(f.callees, aliased, UnwoundAll(aliased, env));
      forall i | 0 <= i < |f.varAccesses|
        ensures SettledFrom(f.varAccesses[i], AllSettled(f.varAccesses, f.usr, env)[i])
      {
        assert f.varAccesses[i] in f.varAccesses;
      }
    }
  }

  lemma {:induction false} UnwindingKeepsShapes(fs: seq<FuncInfo>, env: Answers)
    requires AllMarkersAreBare(fs)
    ensures SameShapes(fs, UnwoundAll(fs, env))
    decreases NodesAll(fs), 2
  {
    if fs != [] {
      UnwindingKeepsShape(fs[0], env);
      UnwindingKeepsShapes(fs[1..], env);
    }
  }

  // ----- what follows for the footprint -----

  lemma {:induction false} SettledKeepsCalls(es: Footprint, fs: Footprint)
    requires EntriesSettled(es, fs)
    ensures CallUsrs(fs) == CallUsrs(es)
  {
    if es != [] {
      assert SettledFrom(es[0], fs[0]);
      assert forall i :: 0 <= i < |es[1..]| ==> SettledFrom(es[1..][i], fs[1..][i]);
      SettledKeepsCalls(es[1..], fs[1..]);
    }
  }

  /** So call entries and callees stay paired. */
  lemma {:induction false} ShapeKeepsPaired(f: FuncInfo, g: FuncInfo)
    requires SameShape(f, g) && Paired(f)
    ensures Paired(g)
    decreases f, 0
  {
    SettledKeepsCalls(f.varAccesses, g.varAccesses);
    ShapesKeepPaired(f.callees, g.callees);
  }

  lemma {:induction false} ShapesKeepPaired(fs: seq<FuncInfo>, gs: seq<FuncInfo>)
    requires SameShapes(fs, gs) && AllPaired(fs)
    ensures AllPaired(gs) && Usrs(gs) == Usrs(fs)
    decreases fs, 0
  {
    if fs != [] {
      ShapeKeepsPaired(fs[0], gs[0]);
      ShapesKeepPaired(fs[1..], gs[1..]);
    }
  }

  lemma {:induction false} SettledConcat(es: Footprint, fs: Footprint, gs: Footprint, hs: Footprint)
    requires EntriesSettled(es, gs) && EntriesSettled(fs, hs)
    ensures EntriesSettled(es + fs, gs + hs)
  {
    forall i | 0 <= i < |es + fs|
      ensures SettledFrom((es + fs)[i], (gs + hs)[i])
    {
      if i < |es| {
        assert SettledFrom(es[i], gs[i]);
      } else {
        assert SettledFrom(fs[i - |es|], hs[i - |es|]);
      }
    }
  }

  /** And inlining commutes with it: entry by entry the footprint is that of the visited functions. */
  lemma {:induction false} ShapeSettlesInlining(f: FuncInfo, g: FuncInfo)
    requires SameShape(f, g)
    ensures EntriesSettled(InlineAll(f), InlineAll(g))
    decreases f, 0
  {
    if !Skipped(f) {
      ShapeSettlesEntries(f.varAccesses, g.varAccesses, f.callees, g.callees);
    }
  }

  lemma {:induction false} ShapeSettlesEntries(es: Footprint, fs: Footprint, cs: seq<FuncInfo>, ds: seq<FuncInfo>)
    requires EntriesSettled(es, fs) && SameShapes(cs, ds)
    ensures EntriesSettled(InlineAllEntries(es, cs), InlineAllEntries(fs, ds))
    decreases cs, |es|
  {
    if es != [] {
      assert SettledFrom(es[0], fs[0]);
      assert forall i :: 0 <= i < |es[1..]| ==> SettledFrom(es[1..][i], fs[1..][i]);
      if es[0].ty.Call? && cs != [] {
        ShapeSettlesInlining(cs[0], ds[0]);
        ShapeSettlesEntries(es[1..], fs[1..], cs[1..], ds[1..]);
        SettledConcat(InlineAll(cs[0]), InlineAllEntries(es[1..], cs[1..]), InlineAll(ds[0]),
            InlineAllEntries(fs[1..], ds[1..]));
      } else {
        ShapeSettlesEntries(es[1..], fs[1..], cs, ds);
        SettledConcat(if es[0].ty.Call? then [] else [es[0]], InlineAllEntries(es[1..], cs),
          if fs[0].ty.Call? then [] else [fs[0]], InlineAllEntries(fs[1..], ds));
      }
    }
  }

  // ----- the whole way from program to footprint -----

  lemma {:induction false} VisitIsBare(prog: Program, u: set<CString>, caller: CString, items: seq<Item>,
      touched: seq<CString>)
    requires Fits(prog, u, items) && ProperProgram(prog) && ProperBody(items)
    ensures var v := VisitBody(prog, u, caller, items, touched);
            (forall w :: w in v.entries && IsMarker(w.ty) ==> w.escParam == NO_IDX) && AllMarkersAreBare(v.callees)
    decreases |Untouched(u, touched)|, |items|
  {
    if items != [] {
      FitsRest(prog, u, items);
      ProperRest(items);
      if items[0].CallExpr? && items[0].usr !in touched {
        var usr := items[0].usr;
        var (callee, after) := VisitCallee(prog, u, usr, touched);
        MoreTouchedFewerLeft(u, touched, after);
        if Expanded(prog, usr) {
          TouchingShrinks(u, touched, usr);
          FitsBody(prog, u, [], usr);
          VisitIsBare(prog, u, Lookup(prog, usr).spelling, Lookup(prog, usr).body, touched + [usr]);
        }
        VisitIsBare(prog, u, caller, items[1..], after);
        var rest := VisitBody(prog, u, caller, items[1..], after);
        assert ([callee] + rest.callees)[1..] == rest.callees;
      } else {
        VisitIsBare(prog, u, caller, items[1..], touched);
      }
    }
  }

  /** A root function: visited, its accesses renamed after the arguments given on the command line
      (which only renames live entries), unwound. Then it can be inlined, and its footprint is the
      direct recursion over the program, settled entry by entry and freed of Null entries. */
  lemma {:induction false} FootprintIsFlattening(prog: Program, u: set<CString>, root: CString, touched: seq<CString>,
      named: FuncInfo, env: Answers)
    requires Closed(prog, u) && ProperProgram(prog) && Expanded(prog, root)
    requires Fits(prog, u, Lookup(prog, root).body)
    requires var v := VisitBody(prog, u, Lookup(prog, root).spelling, Lookup(prog, root).body, touched);
             var f := NewFuncInfo(prog, root).(callees := v.callees, varAccesses := v.entries);
             named.(varAccesses := f.varAccesses) == f && EntriesSettled(f.varAccesses, named.varAccesses)
    ensures Paired(named) && Paired(Unwound(named, env))
    ensures var flat := Flatten(prog, u, Lookup(prog, root).body, touched).0;
            var settled := InlineAll(Unwound(named, env));
            EntriesSettled(flat, settled) && Inlined(Unwound(named, env)) == DropNull(settled)
  {
    var d := Lookup(prog, root);
    var v := VisitBody(prog, u, d.spelling, d.body, touched);
    var f := NewFuncInfo(prog, root).(callees := v.callees, varAccesses := v.entries);
    VisitIsPaired(prog, u, d.spelling, d.body, touched);
    VisitIsBare(prog, u, d.spelling, d.body, touched);
    InliningIsFlattening(prog, u, d.spelling, d.body, touched);
    ShapesReflexive(f.callees);
    assert SameShape(f, named);
    ShapeKeepsPaired(f, named);
    ShapeKeepsMarkersBare(f, named);
    UnwindingKeepsShape(named, env);
    ShapeKeepsPaired(named, Unwound(named, env));
    ShapeTransitive(f, named, Unwound(named, env));
    ShapeSettlesInlining(f, Unwound(named, env));
    InlinedDropsNull(Unwound(named, env));
  }
}
