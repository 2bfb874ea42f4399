/** Reading the functions option: a list of calls such as foo(a, b);bar(c) (src/core.c:1303-1409). */
module CallParser {

  datatype Error = ERR_OK | ERR_SYNTAX

  predicate IsSpace(c: char) {
    c == ' ' || c == '\t' || c == '\n' || c == '\r' || c == 0x0b as char || c == 0x0c as char
  }

  predicate IsBlank(c: char) {
    c == ' ' || c == '\t'
  }

  // ----- specification -----

  /** The first place of c in s, or the length of s. */
  function Find(s: string, c: char): (k: nat)
    ensures k <= |s| && (k < |s| ==> s[k] == c)
  {
    if s == "" || s[0] == c then 0 else 1 + Find(s[1..], c)
  }

  lemma {:induction false} FindsFirst(s: string, c: char)
    ensures forall i :: 0 <= i < Find(s, c) ==> s[i] != c
  {
    if s != "" && s[0] != c {
      FindsFirst(s[1..], c);
    }
  }

  function TrimEnd(s: string): string {
    if s != "" && IsSpace(s[|s| - 1]) then TrimEnd(s[..|s| - 1]) else s
  }

  function SkipSpaces(s: string): (r: string)
    ensures |r| <= |s|
  {
    if s != "" && IsSpace(s[0]) then SkipSpaces(s[1..]) else s
  }

  function SkipBlanks(s: string): (r: string)
    ensures |r| <= |s|
  {
    if s != "" && IsBlank(s[0]) then SkipBlanks(s[1..]) else s
  }

  function Nest(c: char, depth: int): int {
    if c == '(' then depth + 1 else if c == ')' then depth - 1 else depth
  }

  /** Where the argument at the start of s ends: at a comma outside parentheses, or with s. */
  function ArgEnd(s: string, depth: int): (k: nat)
    ensures k <= |s| && (k < |s| ==> s[k] == ',')
  {
    if s == "" || (s[0] == ',' && depth == 0) then 0 else 1 + ArgEnd(s[1..], Nest(s[0], depth))
  }

  /** The argument at the start of t, if there is anything to it. */
  function FirstArg(t: string): seq<string> {
    var arg := TrimEnd(t[..ArgEnd(t, 0)]);
    if arg != "" then [arg] else []
  }

  /** What follows that argument and its comma. */
  function AfterArg(t: string): (r: string)
    ensures t != "" ==> |r| < |t|
  {
    var e := ArgEnd(t, 0);
    if e < |t| then t[e + 1..] else ""
  }

  function ParseArgs(s: string): seq<string>
    decreases |s|
  {
    var t := SkipSpaces(s);
    if t == "" then [] else FirstArg(t) + ParseArgs(AfterArg(t))
  }

  /** The error code, and what has been pushed by then: the name is pushed before the closing
      parenthesis is looked for. */
  function ParsedCall(input: string): (Error, seq<string>) {
    var paren := Find(input, '(');
    if paren == |input| then (ERR_SYNTAX, [])
    else
      var name := TrimEnd(input[..paren]);
      if name == "" then (ERR_SYNTAX, [])
      else
        var closing := FindLast(input[paren..], ')');
        if closing < 0 then (ERR_SYNTAX, [name])
        else (ERR_OK, [name] + ParseArgs(input[paren + 1..][..closing - 1]))
  }

  /** The last place of c in s, or -1. */
  function FindLast(s: string, c: char): (k: int)
    ensures -1 <= k < |s| && (0 <= k ==> s[k] == c)
  {
    if s == "" then -1 else if s[|s| - 1] == c then |s| - 1 else FindLast(s[..|s| - 1], c)
  }

  /** The first place of c in s from i on, or the length of s. */
  function FindFrom(s: string, i: nat, c: char): (k: nat)
    requires i <= |s|
    ensures i <= k <= |s| && (k < |s| ==> s[k] == c) && forall j :: i <= j < k ==> s[j] != c
    decreases |s| - i
  {
    if i == |s| || s[i] == c then i else FindFrom(s, i + 1, c)
  }

  /** The item at i, up to the next semicolon, without the blanks in front of it, if there is
      anything to it. */
  function ItemAt(s: string, i: nat): seq<string>
    requires i <= |s|
  {
    var item := SkipBlanks(s[i..FindFrom(s, i, ';')]);
    if item != "" then [item] else []
  }

  function SplitFrom(s: string, i: nat): seq<string>
    decreases |s| + 1 - i
  {
    if i > |s| then [] else ItemAt(s, i) + SplitFrom(s, FindFrom(s, i, ';') + 1)
  }

  function Split(s: string): seq<string> {
    SplitFrom(s, 0)
  }

  // ----- the cursors of the C -----

  lemma {:induction false} TrimEndStep(s: string, lo: nat, hi: nat)
    requires lo <= hi <= |s|
    ensures hi > lo && IsSpace(s[hi - 1]) ==> TrimEnd(s[lo..hi]) == TrimEnd(s[lo..hi - 1])
    ensures hi == lo || !IsSpace(s[hi - 1]) ==> TrimEnd(s[lo..hi]) == s[lo..hi]
  {
    if hi > lo {
      assert s[lo..hi][..|s[lo..hi]| - 1] == s[lo..hi - 1];
    }
  }

  /** Moves the end of s[lo..hi] back over white space. */
  method TrimBack(s: string, lo: nat, hi: nat) returns (end: nat)
    requires lo <= hi <= |s|
    ensures lo <= end <= hi && s[lo..end] == TrimEnd(s[lo..hi])
  {
    end := hi;
    while end > lo && IsSpace(s[end - 1])
      invariant lo <= end <= hi && TrimEnd(s[lo..end]) == TrimEnd(s[lo..hi])
    {
      TrimEndStep(s, lo, end);
      end := end - 1;
    }
    TrimEndStep(s, lo, end);
  }

  method ParseFuncCall(input: string) returns (err: Error, out: seq<string>)
    ensures (err, out) == ParsedCall(input)
  {
    out := [];
    var paren := Find(input, '(');
    if paren == |input| {
      return ERR_SYNTAX, out;
    }
    var nameEnd := TrimBack(input, 0, paren);
    assert input[0..nameEnd] == input[..nameEnd] && input[0..paren] == input[..paren];
    if nameEnd == 0 {
      return ERR_SYNTAX, out;
    }
    out := out + [input[..nameEnd]];
    assert out == [input[..nameEnd]];
    var closing := FindLast(input[paren..], ')');
    if closing < 0 {
      return ERR_SYNTAX, out;
    }
    var args := ParseArguments(input, paren + 1, paren + closing);
    assert input[paren + 1..][..closing - 1] == input[paren + 1..paren + closing];
    out := out + args;
    err := ERR_OK;
  }

  ghost function ArgsLeft(input: string, cursor: nat, argsEnd: nat): seq<string>
    requires cursor <= argsEnd <= |input|
  {
    ParseArgs(input[cursor..argsEnd])
  }

  /** The loop over the comma-separated arguments in input[argsStart..argsEnd]. */
  method ParseArguments(input: string, argsStart: nat, argsEnd: nat) returns (out: seq<string>)
    requires argsStart <= argsEnd <= |input|
    ensures out == ParseArgs(input[argsStart..argsEnd])
  {
    out := [];
    var cursor := argsStart;
    while cursor < argsEnd
      invariant argsStart <= cursor <= argsEnd
      invariant out + ArgsLeft(input, cursor, argsEnd) == ArgsLeft(input, argsStart, argsEnd)
      decreases argsEnd - cursor
    {
      var argStart := SkipWhite(input, cursor, argsEnd);
      if argStart >= argsEnd {
        assert ArgsLeft(input, cursor, argsEnd) == [];
        break;
      }
      var arg, next := ReadArgument(input, argStart, argsEnd);
      assert ArgsLeft(input, cursor, argsEnd) == arg + ArgsLeft(input, next, argsEnd);
      out := out + arg;
      cursor := next;
    }
  }

  /** Reads one argument and steps over the comma behind it. */
  method ReadArgument(input: string, argStart: nat, argsEnd: nat) returns (arg: seq<string>, next: nat)
    requires argStart < argsEnd <= |input|
    ensures argStart < next <= argsEnd
    ensures arg == FirstArg(input[argStart..argsEnd]) && input[next..argsEnd] == AfterArg(input[argStart..argsEnd])
  {
    ghost var t := input[argStart..argsEnd];
    var cursor := ScanArgument(input, argStart, argsEnd);
    assert t[..cursor - argStart] == input[argStart..cursor];
    var argEnd := TrimBack(input, argStart, cursor);
    arg := if argEnd > argStart then [input[argStart..argEnd]] else [];
    next := cursor;
    if cursor < argsEnd && input[cursor] == ',' {
      assert t[cursor - argStart + 1..] == input[cursor + 1..argsEnd];
      next := cursor + 1;
    } else {
      assert input[next..argsEnd] == "";
    }
  }

  method SkipWhite(input: string, start: nat, argsEnd: nat) returns (cursor: nat)
    requires start <= argsEnd <= |input|
    ensures start <= cursor <= argsEnd && input[cursor..argsEnd] == SkipSpaces(input[start..argsEnd])
  {
    cursor := start;
    while cursor < argsEnd && IsSpace(input[cursor])
      invariant start <= cursor <= argsEnd
      invariant SkipSpaces(input[cursor..argsEnd]) == SkipSpaces(input[start..argsEnd])
    {
      assert input[cursor..argsEnd][1..] == input[cursor + 1..argsEnd];
      cursor := cursor + 1;
    }
  }

  method ScanArgument(input: string, start: nat, argsEnd: nat) returns (cursor: nat)
    requires start <= argsEnd <= |input|
    ensures start <= cursor <= argsEnd && cursor == start + ArgEnd(input[start..argsEnd], 0)
  {
    cursor := start;
    var depth := 0;
    while cursor < argsEnd && !(input[cursor] == ',' && depth == 0)
      invariant start <= cursor <= argsEnd
      invariant cursor + ArgEnd(input[cursor..argsEnd], depth) == start + ArgEnd(input[start..argsEnd], 0)
    {
      assert input[cursor..argsEnd][1..] == input[cursor + 1..argsEnd];
      if input[cursor] == '(' {
        depth := depth + 1;
      } else if input[cursor] == ')' {
        depth := depth - 1;
      }
      cursor := cursor + 1;
    }
  }

  /** The items from i on: one more than the semicolons. */
  function CountItems(s: string, i: nat): (n: nat)
    ensures i <= |s| ==> n > 0
    decreases |s| + 1 - i
  {
    if i > |s| then 0 else if i == |s| then 1 else (if s[i] == ';' then 1 else 0) + CountItems(s, i + 1)
  }

  lemma {:induction false} CountAfterItem(s: string, i: nat)
    requires i <= |s|
    ensures CountItems(s, i) == 1 + CountItems(s, FindFrom(s, i, ';') + 1)
    decreases |s| - i
  {
    if i < |s| && s[i] != ';' {
      CountAfterItem(s, i + 1);
    }
  }

  /** With this many items left from temp on, what is still missing from out is what they split to. */
  ghost predicate ItemsLeft(s: string, left: int, temp: nat, out: seq<string>) {
    left == CountItems(s, temp) && Split(s) == out + SplitFrom(s, temp)
  }

  lemma {:induction false} TakeItem(s: string, left: int, temp: nat, out: seq<string>)
    requires ItemsLeft(s, left, temp, out) && left > 0
    ensures temp <= |s| && ItemsLeft(s, left - 1, FindFrom(s, temp, ';') + 1, out + ItemAt(s, temp))
  {
    CountAfterItem(s, temp);
    AppendStep(out, ItemAt(s, temp), SplitFrom(s, FindFrom(s, temp, ';') + 1));
  }

  lemma {:induction false} AppendStep(out: seq<string>, item: seq<string>, rest: seq<string>)
    ensures out + (item + rest) == (out + item) + rest
  {
  }

  lemma {:induction false} NothingLeft(s: string, temp: nat, out: seq<string>)
    requires ItemsLeft(s, 0, temp, out)
    ensures out == Split(s)
  {
    assert SplitFrom(s, temp) == [];
  }

  /** Works on a copy of the list in which every semicolon becomes a terminator. */
  method SplitSemicolonList(s: string) returns (out: seq<string>)
    requires forall i :: 0 <= i < |s| ==> s[i] != 0 as char
    ensures out == Split(s)
  {
    var buf, numFiles := TerminateItems(s);
    out := [];
    var temp: nat := 0;
    for n := 0 to numFiles
      modifies {}
      invariant ItemsLeft(s, numFiles - n, temp, out)
    {
      out, temp := PushItem(s, buf, temp, out, numFiles - n);
    }
    NothingLeft(s, temp, out);
  }

  /** Pushes the item at temp, and steps over its terminator. */
  method PushItem(s: string, buf: array<char>, temp: nat, pushed: seq<string>, ghost left: nat)
    returns (out: seq<string>, next: nat)
    requires Terminated(s, buf[..]) && ItemsLeft(s, left, temp, pushed) && left > 0
    ensures ItemsLeft(s, left - 1, next, out)
  {
    TakeItem(s, left, temp, pushed);
    var item, end := ReadItem(s, buf, temp);
    out, next := pushed + item, end + 1;
  }

  method TerminateItems(s: string) returns (buf: array<char>, numFiles: nat)
    requires forall i :: 0 <= i < |s| ==> s[i] != 0 as char
    ensures fresh(buf) && Terminated(s, buf[..]) && numFiles == CountItems(s, 0)
  {
    buf := new char[|s| + 1](_ => 0 as char);
    forall i | 0 <= i < |s| {
      buf[i] := s[i];
    }
    numFiles := 1;
    for offset := 0 to |s|
      invariant buf.Length == |s| + 1 && buf[|s|] == 0 as char
      invariant forall i :: offset <= i < |s| ==> buf[i] == s[i]
      invariant forall i :: 0 <= i < offset ==> buf[i] == if s[i] == ';' then 0 as char else s[i]
      invariant numFiles + CountItems(s, offset) == 1 + CountItems(s, 0)
    {
      if buf[offset] == ';' {
        buf[offset] := 0 as char;
        numFiles := numFiles + 1;
      }
    }
  }

  ghost predicate Terminated(s: string, buf: seq<char>) {
    && |buf| == |s| + 1 && buf[|s|] == 0 as char
    && (forall i :: 0 <= i < |s| ==> s[i] != 0 as char)
    && (forall i :: 0 <= i < |s| ==> buf[i] == if s[i] == ';' then 0 as char else s[i])
  }

  /** Skips the blanks at temp and reads the string that follows, up to its terminator. */
  method ReadItem(s: string, buf: array<char>, temp: nat) returns (item: seq<string>, at: nat)
    requires Terminated(s, buf[..]) && temp <= |s|
    ensures at == FindFrom(s, temp, ';') && item == ItemAt(s, temp)
  {
    ghost var end := FindFrom(s, temp, ';');
    assert forall i :: temp <= i <= end ==> buf[i] == buf[..][i];
    var from := temp;
    while buf[from] == ' ' || buf[from] == '\t'
      invariant temp <= from <= end && SkipBlanks(s[from..end]) == SkipBlanks(s[temp..end])
      decreases end - from
    {
      assert s[from..end][1..] == s[from + 1..end];
      from := from + 1;
    }
    assert SkipBlanks(s[from..end]) == s[from..end];
    var len := 0;
    while buf[from + len] != 0 as char
      invariant from + len <= end
      decreases end - from - len
    {
      len := len + 1;
    }
    assert buf[from..from + len] == s[from..end];
    item, at := if len != 0 then [buf[from..from + len]] else [], from + len;
  }

  // ----- round trip -----

  const BLANKS := " \t"

  const WHITE_SPACE: string := " \t\n\r" + [0x0b as char, 0x0c as char]

  ghost predicate Over(s: string, alphabet: string) {
    forall c :: c in s ==> c in alphabet
  }

  lemma {:induction false} SpaceExactly(c: char)
    ensures IsSpace(c) <==> c in WHITE_SPACE
    ensures IsBlank(c) <==> c in BLANKS
  {
  }

  function Join(items: seq<string>, sep: string): string {
    if items == [] then "" else if |items| == 1 then items[0] else items[0] + sep + Join(items[1..], sep)
  }

  function NonEmpty(items: seq<string>): seq<string> {
    if items == [] then [] else (if items[0] != "" then [items[0]] else []) + NonEmpty(items[1..])
  }

  /** A text with what stands in front of it and behind it. */
  datatype Padded = Padded(front: string, text: string, back: string)

  function Texts(ps: seq<Padded>): (r: seq<string>)
    ensures |r| == |ps|
  {
    if ps == [] then [] else [ps[0].text] + Texts(ps[1..])
  }

  function Shown(ps: seq<Padded>): (r: seq<string>)
    ensures |r| == |ps| && forall k :: 0 <= k < |ps| ==> r[k] == ps[k].front + ps[k].text + ps[k].back
  {
    if ps == [] then [] else [ps[0].front + ps[0].text + ps[0].back] + Shown(ps[1..])
  }

  /** A call as a user may write it: `gap` stands in front of the opening parenthesis, and `rest` behind
      the closing one. */
  datatype CallText = CallText(name: string, gap: string, args: seq<Padded>, rest: string)

  function Print(call: CallText): string {
    call.name + call.gap + "(" + Join(Shown(call.args), ",") + ")" + call.rest
  }

  // ----- arguments -----

  /** The nesting depth after s, and whether some comma in s is met at depth 0. */
  function DepthAfter(s: string, depth: int): int {
    if s == "" then depth else DepthAfter(s[1..], Nest(s[0], depth))
  }

  predicate OpenComma(s: string, depth: int) {
    s != "" && ((s[0] == ',' && depth == 0) || OpenComma(s[1..], Nest(s[0], depth)))
  }

  /** Empty, or no white space at either end, parentheses that balance and every comma inside them; and
      no semicolon. */
  predicate GoodArg(a: string) {
    a != "" ==>
      && a[0] !in WHITE_SPACE && a[|a| - 1] !in WHITE_SPACE
      && DepthAfter(a, 0) == 0 && !OpenComma(a, 0)
      && ';' !in a
  }

  /** Not empty, no blank in front, no white space behind, no opening parenthesis and no semicolon. */
  predicate GoodName(n: string) {
    n != "" && n[0] !in BLANKS && n[|n| - 1] !in WHITE_SPACE && '(' !in n && ';' !in n
  }

  ghost predicate GoodPadding(p: Padded) {
    GoodArg(p.text) && Over(p.front, WHITE_SPACE) && Over(p.back, WHITE_SPACE)
  }

  ghost predicate GoodCall(c: CallText) {
    && GoodName(c.name) && Over(c.gap, WHITE_SPACE)
    && (forall k :: 0 <= k < |c.args| ==> GoodPadding(c.args[k]))
    && ')' !in c.rest && ';' !in c.rest
  }

  /** A nested text: characters, and groups in parentheses. */
  datatype Piece = Char(c: char) | Group(inner: seq<Piece>)

  function TextOf(ps: seq<Piece>): string {
    if ps == [] then ""
    else (match ps[0] case Char(c) => [c] case Group(inner) => "(" + TextOf(inner) + ")") + TextOf(ps[1..])
  }

  /** Parentheses stand around groups alone, and commas in groups alone. */
  predicate Nested(ps: seq<Piece>, inGroup: bool) {
    ps != [] ==>
      && (match ps[0]
          case Char(c) => c != '(' && c != ')' && (c == ',' ==> inGroup)
          case Group(inner) => Nested(inner, true))
      && Nested(ps[1..], inGroup)
  }

  lemma {:induction false} DepthConcat(a: string, b: string, depth: int)
    ensures DepthAfter(a + b, depth) == DepthAfter(b, DepthAfter(a, depth))
    ensures OpenComma(a + b, depth) <==> OpenComma(a, depth) || OpenComma(b, DepthAfter(a, depth))
  {
    if a == "" {
      assert a + b == b;
    } else {
      assert (a + b)[1..] == a[1..] + b;
      DepthConcat(a[1..], b, Nest(a[0], depth));
    }
  }

  lemma {:induction false} OneChar(c: char, depth: int)
    ensures DepthAfter([c], depth) == if c == '(' then depth + 1 else if c == ')' then depth - 1 else depth
    ensures OpenComma([c], depth) <==> c == ',' && depth == 0
  {
    assert [c][1..] == "";
  }

  /** Nested texts balance, and their commas are inside parentheses. */
  lemma {:induction false} NestedBalances(ps: seq<Piece>, depth: nat)
    requires Nested(ps, depth > 0)
    ensures DepthAfter(TextOf(ps), depth) == depth && !OpenComma(TextOf(ps), depth)
    decreases ps
  {
    if ps != [] {
      var rest := TextOf(ps[1..]);
      NestedBalances(ps[1..], depth);
      match ps[0] {
        case Char(c) =>
          OneChar(c, depth);
          DepthConcat([c], rest, depth);
        case Group(inner) =>
          NestedBalances(inner, depth + 1);
          OneChar('(', depth);
          OneChar(')', depth + 1);
          DepthConcat("(", TextOf(inner), depth);
          DepthConcat("(" + TextOf(inner), ")", depth);
          DepthConcat("(" + TextOf(inner) + ")", rest, depth);
      }
    }
  }

  lemma {:induction false} NestedIsGoodArg(ps: seq<Piece>)
    requires Nested(ps, false) && TextOf(ps) != "" && ';' !in TextOf(ps)
    requires TextOf(ps)[0] !in WHITE_SPACE && TextOf(ps)[|TextOf(ps)| - 1] !in WHITE_SPACE
    ensures GoodArg(TextOf(ps))
  {
    NestedBalances(ps, 0);
  }

  // ----- parsing a printed call -----

  lemma {:induction false} SkipsFront(white: string, s: string)
    requires Over(white, WHITE_SPACE)
    ensures SkipSpaces(white + s) == SkipSpaces(s)
    decreases white
  {
    if white == "" {
      assert white + s == s;
    } else {
      SpaceExactly(white[0]);
      assert (white + s)[1..] == white[1..] + s;
      SkipsFront(white[1..], s);
    }
  }

  lemma {:induction false} TrimsBack(s: string, white: string)
    requires Over(white, WHITE_SPACE) && (s != "" ==> s[|s| - 1] !in WHITE_SPACE)
    ensures TrimEnd(s + white) == s
    decreases white
  {
    if white == "" {
      assert s + white == s;
      if s != "" {
        SpaceExactly(s[|s| - 1]);
      }
    } else {
      var last := white[|white| - 1];
      assert last in white;
      SpaceExactly(last);
      assert (s + white)[..|s + white| - 1] == s + white[..|white| - 1];
      TrimsBack(s, white[..|white| - 1]);
    }
  }

  lemma {:induction false} ArgEndPasses(a: string, rest: string, depth: int)
    requires !OpenComma(a, depth)
    ensures ArgEnd(a + rest, depth) == |a| + ArgEnd(rest, DepthAfter(a, depth))
  {
    if a == "" {
      assert a + rest == rest;
    } else {
      assert (a + rest)[1..] == a[1..] + rest;
      ArgEndPasses(a[1..], rest, Nest(a[0], depth));
    }
  }

  lemma {:induction false} WhiteIsFlat(white: string)
    requires Over(white, WHITE_SPACE)
    ensures DepthAfter(white, 0) == 0 && !OpenComma(white, 0)
    decreases white
  {
    if white != "" {
      assert white[0] in white;
      WhiteIsFlat(white[1..]);
    }
  }

  lemma {:induction false} FirstArgOf(a: string, back: string, rest: string)
    requires GoodArg(a) && Over(back, WHITE_SPACE) && (rest == "" || rest[0] == ',')
    ensures FirstArg(a + back + rest) == NonEmpty([a])
    ensures AfterArg(a + back + rest) == if rest == "" then "" else rest[1..]
  {
    var t := a + back + rest;
    WhiteIsFlat(back);
    DepthConcat(a, back, 0);
    ArgEndPasses(a + back, rest, 0);
    assert t[..|a + back|] == a + back;
    TrimsBack(a, back);
    assert rest != "" ==> t[|a + back| + 1..] == rest[1..];
  }

  /** One argument, whatever white space is around it; nothing at all between two commas is no argument. */
  lemma {:induction false} ParseOne(p: Padded, rest: string)
    requires GoodPadding(p) && (rest == "" || rest[0] == ',')
    ensures ParseArgs(p.front + p.text + p.back + rest) ==
            NonEmpty([p.text]) + ParseArgs(if rest == "" then "" else rest[1..])
  {
    var t := p.text + p.back + rest;
    assert p.front + p.text + p.back + rest == p.front + t;
    SkipsFront(p.front, t);
    if p.text != "" {
      SpaceExactly(t[0]);
      FirstArgOf(p.text, p.back, rest);
    } else {
      assert t == p.back + rest;
      SkipsFront(p.back, rest);
      assert "" + "" + rest == rest;
      FirstArgOf("", "", rest);
    }
  }

  lemma {:induction false} JoinMore(items: seq<string>, sep: string)
    requires |items| > 1
    ensures Join(items, sep) == items[0] + (sep + Join(items[1..], sep))
  {
  }

  lemma {:induction false} ParseJoined(ps: seq<Padded>)
    requires forall k :: 0 <= k < |ps| ==> GoodPadding(ps[k])
    ensures ParseArgs(Join(Shown(ps), ",")) == NonEmpty(Texts(ps))
    decreases |ps|
  {
    if |ps| == 1 {
      var text := ps[0].front + ps[0].text + ps[0].back;
      ParseOne(ps[0], "");
      assert text + "" == text && Shown(ps) == [text] && Texts(ps) == [ps[0].text];
      assert ParseArgs("") == [];
    } else if |ps| > 1 {
      var rest := Join(Shown(ps[1..]), ",");
      ParseOne(ps[0], "," + rest);
      assert ("," + rest)[1..] == rest;
      ParseJoined(ps[1..]);
      JoinMore(Shown(ps), ",");
      assert Shown(ps)[1..] == Shown(ps[1..]) && Texts(ps)[1..] == Texts(ps[1..]);
    }
  }

  lemma {:induction false} FindInFront(a: string, c: char, rest: string)
    requires c !in a && (rest == "" || rest[0] == c)
    ensures Find(a + rest, c) == |a|
  {
    if a == "" {
      assert a + rest == rest;
    } else {
      assert (a + rest)[1..] == a[1..] + rest;
      assert a[0] in a;
      FindInFront(a[1..], c, rest);
    }
  }

  lemma {:induction false} FindLastBehind(a: string, c: char, rest: string)
    requires c !in rest && (a == "" || a[|a| - 1] == c)
    ensures FindLast(a + rest, c) == |a| - 1
    decreases rest
  {
    if rest == "" {
      assert a + rest == a;
    } else {
      assert rest[|rest| - 1] in rest;
      assert (a + rest)[..|a + rest| - 1] == a + rest[..|rest| - 1];
      FindLastBehind(a, c, rest[..|rest| - 1]);
    }
  }

  lemma {:induction false} ParseShape(name: string, gap: string, inner: string, rest: string)
    requires GoodName(name) && Over(gap, WHITE_SPACE) && ')' !in rest
    ensures ParsedCall(name + gap + "(" + inner + ")" + rest) == (ERR_OK, [name] + ParseArgs(inner))
  {
    var front, back := name + gap, "(" + inner + ")";
    var text := front + (back + rest);
    assert name + gap + "(" + inner + ")" + rest == text;
    FindInFront(front, '(', back + rest);
    assert text[..|front|] == front && text[|front|..] == back + rest;
    TrimsBack(name, gap);
    FindLastBehind(back, ')', rest);
    assert text[|front| + 1..][..|back| - 2] == inner;
  }

  /** However it is spaced, parsing a printed call gives back its name and its arguments. */
  lemma {:induction false} CallRoundTrip(c: CallText)
    requires GoodCall(c)
    ensures ParsedCall(Print(c)) == (ERR_OK, [c.name] + NonEmpty(Texts(c.args)))
  {
    ParseShape(c.name, c.gap, Join(Shown(c.args), ","), c.rest);
    ParseJoined(c.args);
  }

  // ----- texts that are no calls -----

  /** Without an opening parenthesis nothing is pushed. */
  lemma {:induction false} NoOpening(input: string)
    requires '(' !in input
    ensures ParsedCall(input) == (ERR_SYNTAX, [])
  {
    FindInFront(input, '(', "");
    assert input + "" == input;
  }

  /** Nor if nothing but white space is in front of it. */
  lemma {:induction false} NoName(white: string, rest: string)
    requires Over(white, WHITE_SPACE)
    ensures ParsedCall(white + "(" + rest) == (ERR_SYNTAX, [])
  {
    var input := white + ("(" + rest);
    assert white + "(" + rest == input;
    FindInFront(white, '(', "(" + rest);
    assert input[..|white|] == white;
    TrimsBack("", white);
    assert "" + white == white;
  }

  /** Without a closing one behind it the name has been pushed by then. */
  lemma {:induction false} NoClosing(name: string, gap: string, rest: string)
    requires name != "" && '(' !in name && name[|name| - 1] !in WHITE_SPACE && Over(gap, WHITE_SPACE)
    ensures ')' !in rest ==> ParsedCall(name + gap + "(" + rest) == (ERR_SYNTAX, [name])
    ensures ')' in rest ==> ParsedCall(name + gap + "(" + rest).0 == ERR_OK
  {
    var front, back := name + gap, "(" + rest;
    var input := front + back;
    assert name + gap + "(" + rest == input;
    FindInFront(front, '(', back);
    assert input[..|front|] == front && input[|front|..] == back;
    TrimsBack(name, gap);
    if ')' !in rest {
      FindLastBehind("", ')', back);
      assert "" + back == back;
    } else {
      FindLastFinds(back, ')');
    }
  }

  lemma {:induction false} FindLastFinds(s: string, c: char)
    requires c in s
    ensures FindLast(s, c) >= 0
  {
    if s[|s| - 1] != c {
      FindLastFinds(s[..|s| - 1], c);
    }
  }

  // ----- splitting a printed list -----

  lemma {:induction false} FindShifted(pre: string, s: string, i: nat, c: char)
    requires i <= |s|
    ensures FindFrom(pre + s, |pre| + i, c) == |pre| + FindFrom(s, i, c)
    decreases |s| - i
  {
    if i < |s| && s[i] != c {
      FindShifted(pre, s, i + 1, c);
    }
  }

  /** Splitting from a place on does not depend on what comes before. */
  lemma {:induction false} SplitShifted(pre: string, s: string, i: nat)
    ensures SplitFrom(pre + s, |pre| + i) == SplitFrom(s, i)
    decreases |s| + 1 - i
  {
    if i <= |s| {
      ItemShifted(pre, s, i);
      SplitShifted(pre, s, FindFrom(s, i, ';') + 1);
    }
  }

  lemma {:induction false} ItemShifted(pre: string, s: string, i: nat)
    requires i <= |s|
    ensures FindFrom(pre + s, |pre| + i, ';') == |pre| + FindFrom(s, i, ';')
    ensures ItemAt(pre + s, |pre| + i) == ItemAt(s, i)
  {
    FindShifted(pre, s, i, ';');
    var e := FindFrom(s, i, ';');
    assert (pre + s)[|pre| + i..|pre| + e] == s[i..e];
  }

  /** An item of a list: blanks in front, then a text, which may be missing, without a semicolon. */
  ghost predicate IsItem(p: Padded) {
    Over(p.front, BLANKS) && (p.text != "" ==> p.text[0] !in BLANKS) && ';' !in p.text && p.back == ""
  }

  lemma {:induction false} SkipsBlanks(blanks: string, s: string)
    requires Over(blanks, BLANKS) && (s != "" ==> s[0] !in BLANKS)
    ensures SkipBlanks(blanks + s) == s
    decreases blanks
  {
    if blanks == "" {
      assert blanks + s == s;
      if s != "" {
        SpaceExactly(s[0]);
      }
    } else {
      SpaceExactly(blanks[0]);
      assert (blanks + s)[1..] == blanks[1..] + s;
      SkipsBlanks(blanks[1..], s);
    }
  }

  lemma {:induction false} FirstItemEnds(item: string, rest: string)
    requires ';' !in item && (rest == "" || rest[0] == ';')
    ensures FindFrom(item + rest, 0, ';') == |item|
  {
    var k := FindFrom(item + rest, 0, ';');
    assert forall j :: 0 <= j < |item| ==> (item + rest)[j] == item[j] && item[j] in item;
    assert rest != "" ==> (item + rest)[|item|] == ';';
  }

  lemma {:induction false} FirstItem(p: Padded, rest: string)
    requires IsItem(p) && (rest == "" || rest[0] == ';')
    ensures FindFrom(p.front + p.text + rest, 0, ';') == |p.front + p.text|
    ensures ItemAt(p.front + p.text + rest, 0) == NonEmpty([p.text])
  {
    FirstItemEnds(p.front + p.text, rest);
    assert (p.front + p.text + rest)[0..|p.front + p.text|] == p.front + p.text;
    SkipsBlanks(p.front, p.text);
  }

  lemma {:induction false} SplitLast(p: Padded)
    requires IsItem(p)
    ensures Split(p.front + p.text) == NonEmpty([p.text])
  {
    var s := p.front + p.text;
    FirstItem(p, "");
    assert s + "" == s;
    assert SplitFrom(s, |s| + 1) == [];
  }

  lemma {:induction false} SplitOne(p: Padded, tail: string)
    requires IsItem(p)
    ensures Split(p.front + p.text + (";" + tail)) == NonEmpty([p.text]) + Split(tail)
  {
    var item := p.front + p.text;
    FirstItem(p, ";" + tail);
    assert item + (";" + tail) == (item + ";") + tail;
    SplitShifted(item + ";", tail, 0);
  }

  /** Splitting a list gives its items without the blanks in front, and drops those that are empty then. */
  lemma {:induction false} SplitJoined(ps: seq<Padded>)
    requires forall k :: 0 <= k < |ps| ==> IsItem(ps[k])
    ensures Split(Join(Shown(ps), ";")) == NonEmpty(Texts(ps))
    decreases |ps|
  {
    if ps == [] {
      assert SplitFrom("", 1) == [];
    } else if |ps| == 1 {
      SplitLast(ps[0]);
      var item := ps[0].front + ps[0].text;
      assert item + "" == item && Shown(ps) == [item + ""];
      assert Texts(ps) == [ps[0].text];
    } else {
      SplitJoined(ps[1..]);
      SplitOne(ps[0], Join(Shown(ps[1..]), ";"));
      JoinMore(Shown(ps), ";");
      assert Shown(ps)[0] == ps[0].front + ps[0].text;
      assert Shown(ps)[1..] == Shown(ps[1..]) && Texts(ps)[1..] == Texts(ps[1..]);
    }
  }

  lemma {:induction false} WhiteHasNoSemicolon(white: string)
    requires Over(white, WHITE_SPACE)
    ensures ';' !in white
  {
  }

  lemma {:induction false} JoinedHasNoSemicolon(ps: seq<Padded>)
    requires forall k :: 0 <= k < |ps| ==> GoodPadding(ps[k])
    ensures ';' !in Join(Shown(ps), ",")
    decreases |ps|
  {
    if ps != [] {
      WhiteHasNoSemicolon(ps[0].front);
      WhiteHasNoSemicolon(ps[0].back);
      assert Shown(ps)[0] == ps[0].front + ps[0].text + ps[0].back;
      if |ps| > 1 {
        JoinedHasNoSemicolon(ps[1..]);
        assert Shown(ps)[1..] == Shown(ps[1..]);
      }
    }
  }

  lemma {:induction false} PrintedCallIsItem(blanks: string, c: CallText)
    requires GoodCall(c) && Over(blanks, BLANKS)
    ensures IsItem(Padded(blanks, Print(c), "")) && Print(c) != ""
  {
    JoinedHasNoSemicolon(c.args);
    WhiteHasNoSemicolon(c.gap);
    assert Print(c)[0] == c.name[0];
  }

  /** Calls, each with the blanks that are written in front of it. */
  function Listed(blanks: seq<string>, calls: seq<CallText>): (r: seq<Padded>)
    requires |blanks| == |calls|
    ensures |r| == |calls| && forall k :: 0 <= k < |r| ==> r[k] == Padded(blanks[k], Print(calls[k]), "")
  {
    if calls == [] then [] else [Padded(blanks[0], Print(calls[0]), "")] + Listed(blanks[1..], calls[1..])
  }

  lemma {:induction false} NoneIsEmpty(ps: seq<Padded>)
    requires forall k :: 0 <= k < |ps| ==> ps[k].text != ""
    ensures |NonEmpty(Texts(ps))| == |ps| && forall k :: 0 <= k < |ps| ==> NonEmpty(Texts(ps))[k] == ps[k].text
    decreases |ps|
  {
    if ps != [] {
      NoneIsEmpty(ps[1..]);
      assert Texts(ps)[1..] == Texts(ps[1..]);
    }
  }

  /** Printing any list of calls, joined by semicolons and with blanks in front of them, and splitting it
      again gives back the printed calls; and each of them parses to its name and arguments. */
  lemma {:induction false} ListRoundTrip(blanks: seq<string>, calls: seq<CallText>)
    requires |blanks| == |calls| && forall k :: 0 <= k < |calls| ==> GoodCall(calls[k]) && Over(blanks[k], BLANKS)
    ensures var items := Split(Join(Shown(Listed(blanks, calls)), ";"));
            && |items| == |calls|
            && (forall k :: 0 <= k < |calls| ==> items[k] == Print(calls[k]))
            && forall k :: 0 <= k < |calls| ==>
                 ParsedCall(items[k]) == (ERR_OK, [calls[k].name] + NonEmpty(Texts(calls[k].args)))
  {
    var listed := Listed(blanks, calls);
    forall k | 0 <= k < |listed|
      ensures IsItem(listed[k]) && listed[k].text != ""
    {
      PrintedCallIsItem(blanks[k], calls[k]);
    }
    SplitJoined(listed);
    NoneIsEmpty(listed);
    forall k | 0 <= k < |calls|
      ensures ParsedCall(Print(calls[k])) == (ERR_OK, [calls[k].name] + NonEmpty(Texts(calls[k].args)))
    {
      CallRoundTrip(calls[k]);
    }
  }
}
