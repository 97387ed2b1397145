/** Type spellings: the printer of type expressions, and the query tool's operations on printed text.

    The query tool splits, strips and substitutes in text what it should split, strip and substitute
    in type expressions. The lemmas say when the two agree.
 */
module TypeSpelling {
  import opened Wrappers
  import opened TypeSyntax
  import opened Text

  // ---------------------------------------------------------------------------------------------
  // Printing
  // ---------------------------------------------------------------------------------------------

  function PrintExtent(d: Option<Extent>): string {
    match d
    case None => ""
    case Some(Literal(n)) => Decimal(n)
    case Some(Expression) => "?"
  }

  function PrintExtents(dims: seq<Option<Extent>>): string {
    if dims == [] then ""
    else if |dims| == 1 then PrintExtent(dims[0])
    else PrintExtent(dims[0]) + "," + PrintExtents(dims[1..])
  }

  function Stars(n: nat): string {
    seq(n, _ => '*')
  }

  function Print(node: TypeNode): string
    decreases node, 1
  {
    match node
    case AnyNode => "any"
    case FuncParamNode(isRef, base) => (if isRef then "ref " else "") + Print(base)
    case AppliedNode(base, args) => Print(base) + ("[" + PrintList(args) + "]")
    case BaseNode(name) => name
    case DynNode(base) => Print(base) + " dyn"
    case ConstNode(base) => Print(base) + " const"
    case PointerNode(base, dim) => Print(base) + Stars(dim)
    case IndexableNode(base) => Print(base) + "[*]"
    case ArrayNode(base, dims) => Print(base) + ("[" + PrintExtents(dims) + "]")
    case TupleNode(items) => "<" + PrintList(items) + ">"
    case FuncPtrNode(params, ret) =>
      "(" + (PrintList(params) + ":" + (if ret.Some? then " " + Print(ret.value) else "")) + ")"
  }

  function PrintList(nodes: seq<TypeNode>): string
    decreases nodes, 0
  {
    if nodes == [] then ""
    else if |nodes| == 1 then Print(nodes[0])
    else Print(nodes[0]) + ", " + PrintList(nodes[1..])
  }

  predicate NameChar(c: char) {
    'a' <= c <= 'z' || 'A' <= c <= 'Z' || '0' <= c <= '9' || c == '_' || c == '.'
  }

  predicate IsName(s: string) {
    s != "" && forall c <- s :: NameChar(c)
  }

  /** Type expressions as the parser builds them: `ref` parameters stand directly in a function-pointer
      type, only named or applied types are applied, and never to nothing (empty brackets make an array). */
  predicate WellFormed(node: TypeNode)
    decreases node, 1
  {
    match node
    case AnyNode => true
    case FuncParamNode(_, _) => false
    case AppliedNode(base, args) =>
      (base.BaseNode? || base.AnyNode? || base.AppliedNode?) && WellFormed(base) && args != [] && WellFormedAll(args)
    case BaseNode(name) => IsName(name)
    case DynNode(base) => WellFormed(base)
    case ConstNode(base) => WellFormed(base)
    case PointerNode(base, _) => WellFormed(base)
    case IndexableNode(base) => WellFormed(base)
    case ArrayNode(base, _) => WellFormed(base)
    case TupleNode(items) => WellFormedAll(items)
    case FuncPtrNode(params, ret) => WellFormedParams(params) && (ret.Some? ==> WellFormed(ret.value))
  }

  predicate WellFormedAll(nodes: seq<TypeNode>)
    decreases nodes, 0
  {
    nodes != [] ==> WellFormed(nodes[0]) && WellFormedAll(nodes[1..])
  }

  predicate WellFormedParams(params: seq<TypeNode>)
    decreases params, 0
  {
    params != [] ==>
      WellFormedParam(params[0]) && WellFormedParams(params[1..])
  }

  predicate WellFormedParam(param: TypeNode)
    decreases param, 2
  {
    if param.FuncParamNode? then WellFormed(param.base) else WellFormed(param)
  }

  lemma {:induction false} WellFormedEach(nodes: seq<TypeNode>, i: nat)
    requires WellFormedAll(nodes) && i < |nodes|
    ensures WellFormed(nodes[i])
  {
    if i > 0 {
      WellFormedEach(nodes[1..], i - 1);
    }
  }

  // ---------------------------------------------------------------------------------------------
  // The first and last character of a printed type
  // ---------------------------------------------------------------------------------------------

  /** Characters a printed type can end with. */
  predicate Closing(c: char) {
    NameChar(c) || c == ']' || c == '*' || c == '>' || c == ')'
  }

  lemma LastOf(s: string, t: string)
    requires t != ""
    ensures (s + t)[|s + t| - 1] == t[|t| - 1]
  {
  }

  lemma {:induction false} PrintEdges(node: TypeNode)
    requires WellFormed(node)
    ensures var s := Print(node); s != "" && !IsSpace(s[0]) && Closing(s[|s| - 1])
  {
    match node
    case AppliedNode(base, args) => PrintEdges(base);
    case DynNode(base) => PrintEdges(base);
    case ConstNode(base) => PrintEdges(base);
    case PointerNode(base, dim) => PrintEdges(base);
    case IndexableNode(base) => PrintEdges(base);
    case ArrayNode(base, dims) => PrintEdges(base);
    case BaseNode(name) => assert NameChar(name[0]) && NameChar(name[|name| - 1]);
    case TupleNode(items) => LastOf("<" + PrintList(items), ">");
    case FuncPtrNode(params, ret) =>
    case AnyNode =>
  }

  lemma PrintSolid(node: TypeNode)
    requires WellFormed(node)
    ensures Solid(Print(node))
    ensures Trim(Print(node)) == Print(node)
    ensures Trim("" + Print(node)) == Print(node) && Trim(" " + Print(node)) == Print(node)
  {
    PrintEdges(node);
    TrimSolid(Print(node));
  }

  // ---------------------------------------------------------------------------------------------
  // Splitting at top-level commas
  // ---------------------------------------------------------------------------------------------

  datatype Depth = Depth(square: nat, paren: nat, angle: nat)

  const OUTSIDE := Depth(0, 0, 0)

  function Less(n: nat): nat {
    if n > 0 then n - 1 else 0
  }

  function Step(d: Depth, c: char): Depth {
    match c
    case '[' => d.(square := d.square + 1)
    case ']' => d.(square := Less(d.square))
    case '(' => d.(paren := d.paren + 1)
    case ')' => d.(paren := Less(d.paren))
    case '<' => d.(angle := d.angle + 1)
    case '>' => d.(angle := Less(d.angle))
    case _ => d
  }

  /** The parts of the text still to come, when `current` has been read of the present part. */
  function SplitFrom(text: string, current: string, d: Depth): seq<string> {
    if text == "" then [Trim(current)]
    else if text[0] == ',' && d == OUTSIDE then [Trim(current)] + SplitFrom(text[1..], "", d)
    else SplitFrom(text[1..], current + [text[0]], Step(d, text[0]))
  }

  /** The nesting after a stretch of text, or nothing if it contains a comma that splits. */
  function Run(text: string, d: Depth): Option<Depth> {
    if text == "" then Some(d)
    else if text[0] == ',' && d == OUTSIDE then None
    else Run(text[1..], Step(d, text[0]))
  }

  lemma {:induction false} RunAppend(s: string, t: string, d: Depth)
    ensures Run(s + t, d) == if Run(s, d).None? then None else Run(t, Run(s, d).value)
  {
    if s == "" {
      assert s + t == t;
    } else {
      assert (s + t)[1..] == s[1..] + t;
      if !(s[0] == ',' && d == OUTSIDE) {
        RunAppend(s[1..], t, Step(d, s[0]));
      }
    }
  }

  lemma {:induction false} SplitRun(t: string, rest: string, current: string, d: Depth)
    requires Run(t, d).Some?
    ensures SplitFrom(t + rest, current, d) == SplitFrom(rest, current + t, Run(t, d).value)
  {
    if t == "" {
      assert t + rest == rest && current + t == current;
    } else {
      assert (t + rest)[1..] == t[1..] + rest;
      assert current + [t[0]] + t[1..] == current + t;
      SplitRun(t[1..], rest, current + [t[0]], Step(d, t[0]));
    }
  }

  /** The square-bracket depth after a stretch of text, or nothing if it closes the outermost one. */
  function SquareRun(text: string, k: nat): Option<nat>
    requires k >= 1
  {
    if text == "" then Some(k)
    else if text[0] == '[' then SquareRun(text[1..], k + 1)
    else if text[0] == ']' then (if k == 1 then None else SquareRun(text[1..], k - 1))
    else SquareRun(text[1..], k)
  }

  lemma {:induction false} SquareRunAppend(s: string, t: string, k: nat, m: nat)
    requires k >= 1 && m >= 1 && SquareRun(s, k) == Some(m)
    ensures SquareRun(s + t, k) == SquareRun(t, m)
  {
    if s == "" {
      assert s + t == t;
    } else {
      assert (s + t)[1..] == s[1..] + t;
      SquareRunAppend(s[1..], t, if s[0] == '[' then k + 1 else if s[0] == ']' then k - 1 else k, m);
    }
  }

  /** A stretch of text that leaves every nesting as it was and does not split, wherever a top-level
      comma would not split or the text has none. */
  predicate Neutral(t: string, d: Depth, k: nat)
    requires k >= 1
  {
    Run(t, d) == Some(d) && SquareRun(t, k) == Some(k)
  }

  lemma NeutralAppend(s: string, t: string, d: Depth, k: nat)
    requires k >= 1 && Neutral(s, d, k) && Neutral(t, d, k)
    ensures Neutral(s + t, d, k)
  {
    RunAppend(s, t, d);
    SquareRunAppend(s, t, k, k);
  }

  predicate Bracket(c: char) {
    c == '[' || c == ']' || c == '(' || c == ')' || c == '<' || c == '>'
  }

  lemma {:induction false} PlainNeutral(t: string, d: Depth, k: nat)
    requires k >= 1 && forall c <- t :: !Bracket(c) && (c == ',' ==> d != OUTSIDE)
    ensures Neutral(t, d, k)
  {
    if t != "" {
      assert t == [t[0]] + t[1..];
      assert t[0] in t && Step(d, t[0]) == d;
      PlainNeutral(t[1..], d, k);
    }
  }

  /** Text in square brackets. */
  lemma SquareNeutral(t: string, d: Depth, k: nat)
    requires k >= 1 && Neutral(t, d.(square := d.square + 1), k + 1)
    ensures Neutral("[" + t + "]", d, k)
  {
    var e := d.(square := d.square + 1);
    RunAppend(t, "]", e);
    SquareRunAppend(t, "]", k + 1, k + 1);
    assert "[" + t + "]" == "[" + (t + "]") && ("[" + (t + "]"))[1..] == t + "]";
    assert "]"[1..] == "";
    assert Run("]", e) == Some(d) && SquareRun("]", k + 1) == Some(k);
  }

  /** Text in round or angle brackets. */
  lemma OtherNeutral(open: string, t: string, close: string, d: Depth, k: nat)
    requires k >= 1 && ((open == "(" && close == ")") || (open == "<" && close == ">"))
    requires Neutral(t, Step(d, open[0]), k)
    ensures Neutral(open + t + close, d, k)
  {
    var e := Step(d, open[0]);
    RunAppend(t, close, e);
    SquareRunAppend(t, close, k, k);
    assert open + t + close == open + (t + close) && (open + (t + close))[1..] == t + close;
    assert close[1..] == "";
    assert Run(close, e) == Some(d) && SquareRun(close, k) == Some(k);
  }

  lemma {:induction false} DecimalPlain(n: nat)
    ensures forall c <- Decimal(n) :: '0' <= c <= '9'
  {
    if n >= 10 {
      DecimalPlain(n / 10);
    }
  }

  lemma {:induction false} ExtentsPlain(dims: seq<Option<Extent>>)
    ensures forall c <- PrintExtents(dims) :: '0' <= c <= '9' || c == '?' || c == ','
  {
    if dims != [] {
      ExtentsPlain(dims[1..]);
      if dims[0].Some? && dims[0].value.Literal? {
        DecimalPlain(dims[0].value.n);
      }
    }
  }

  /** Every printed type is balanced in all three kinds of brackets and has commas only inside them. */
  lemma {:induction false} PrintNeutral(node: TypeNode, d: Depth, k: nat)
    requires WellFormed(node) && k >= 1
    ensures Neutral(Print(node), d, k)
    decreases node, 1
  {
    match node
    case AnyNode => PlainNeutral("any", d, k);
    case AppliedNode(base, args) =>
      PrintNeutral(base, d, k);
      PrintListNeutral(args, d.(square := d.square + 1), k + 1);
      SquareNeutral(PrintList(args), d, k);
      NeutralAppend(Print(base), "[" + PrintList(args) + "]", d, k);
    case BaseNode(name) => PlainNeutral(name, d, k);
    case DynNode(base) =>
      PrintNeutral(base, d, k);
      PlainNeutral(" dyn", d, k);
      NeutralAppend(Print(base), " dyn", d, k);
    case ConstNode(base) =>
      PrintNeutral(base, d, k);
      PlainNeutral(" const", d, k);
      NeutralAppend(Print(base), " const", d, k);
    case PointerNode(base, dim) =>
      PrintNeutral(base, d, k);
      PlainNeutral(Stars(dim), d, k);
      NeutralAppend(Print(base), Stars(dim), d, k);
    case IndexableNode(base) =>
      PrintNeutral(base, d, k);
      PlainNeutral("*", d.(square := d.square + 1), k + 1);
      SquareNeutral("*", d, k);
      NeutralAppend(Print(base), "[" + "*" + "]", d, k);
      assert "[" + "*" + "]" == "[*]";
    case ArrayNode(base, dims) =>
      PrintNeutral(base, d, k);
      ExtentsPlain(dims);
      PlainNeutral(PrintExtents(dims), d.(square := d.square + 1), k + 1);
      SquareNeutral(PrintExtents(dims), d, k);
      NeutralAppend(Print(base), "[" + PrintExtents(dims) + "]", d, k);
    case TupleNode(items) =>
      PrintListNeutral(items, Step(d, '<'), k);
      OtherNeutral("<", PrintList(items), ">", d, k);
    case FuncPtrNode(params, ret) => PrintFuncNeutral(params, ret, d, k);
  }

  lemma {:induction false} PrintListNeutral(nodes: seq<TypeNode>, d: Depth, k: nat)
    requires WellFormedAll(nodes) && k >= 1 && d != OUTSIDE
    ensures Neutral(PrintList(nodes), d, k)
    decreases nodes, 0
  {
    if nodes == [] {
    } else {
      PrintNeutral(nodes[0], d, k);
      if |nodes| > 1 {
        PrintListNeutral(nodes[1..], d, k);
        PlainNeutral(", ", d, k);
        NeutralAppend(Print(nodes[0]), ", ", d, k);
        NeutralAppend(Print(nodes[0]) + ", ", PrintList(nodes[1..]), d, k);
      }
    }
  }

  lemma {:induction false} PrintParamNeutral(param: TypeNode, d: Depth, k: nat)
    requires WellFormedParam(param) && k >= 1
    ensures Neutral(Print(param), d, k)
    decreases param, 2
  {
    match param
    case FuncParamNode(isRef, base) =>
      PrintNeutral(base, d, k);
      PlainNeutral(if isRef then "ref " else "", d, k);
      NeutralAppend(if isRef then "ref " else "", Print(base), d, k);
    case _ => PrintNeutral(param, d, k);
  }

  lemma {:induction false} PrintParamsNeutral(params: seq<TypeNode>, d: Depth, k: nat)
    requires WellFormedParams(params) && k >= 1 && d != OUTSIDE
    ensures Neutral(PrintList(params), d, k)
    decreases params, 0
  {
    if params == [] {
    } else {
      PrintParamNeutral(params[0], d, k);
      if |params| > 1 {
        PrintParamsNeutral(params[1..], d, k);
        PlainNeutral(", ", d, k);
        NeutralAppend(Print(params[0]), ", ", d, k);
        NeutralAppend(Print(params[0]) + ", ", PrintList(params[1..]), d, k);
      }
    }
  }

  lemma {:induction false} PrintRetNeutral(ret: Option<TypeNode>, d: Depth, k: nat)
    requires k >= 1 && (ret.Some? ==> WellFormed(ret.value))
    ensures Neutral(if ret.Some? then " " + Print(ret.value) else "", d, k)
    decreases ret, 2
  {
    if ret.Some? {
      PrintNeutral(ret.value, d, k);
      PlainNeutral(" ", d, k);
      NeutralAppend(" ", Print(ret.value), d, k);
    } else {
      PlainNeutral("", d, k);
    }
  }

  lemma {:induction false} PrintFuncNeutral(params: seq<TypeNode>, ret: Option<TypeNode>, d: Depth, k: nat)
    requires WellFormed(FuncPtrNode(params, ret)) && k >= 1
    ensures Neutral(Print(FuncPtrNode(params, ret)), d, k)
    decreases FuncPtrNode(params, ret), 0
  {
    var e := Step(d, '(');
    var list, tail := PrintList(params), if ret.Some? then " " + Print(ret.value) else "";
    PrintParamsNeutral(params, e, k);
    PrintRetNeutral(ret, e, k);
    PlainNeutral(":", e, k);
    NeutralAppend(list, ":", e, k);
    NeutralAppend(list + ":", tail, e, k);
    OtherNeutral("(", list + ":" + tail, ")", d, k);
  }

  function PrintEach(nodes: seq<TypeNode>): seq<string> {
    if nodes == [] then [] else [Print(nodes[0])] + PrintEach(nodes[1..])
  }

  /** Splitting a printed, non-empty list gives back its printed elements; `lead` is the separator's
      blank that precedes every element but the first. */
  lemma {:induction false} SplitPrintList(nodes: seq<TypeNode>, lead: string)
    requires WellFormedAll(nodes) && nodes != [] && (lead == "" || lead == " ")
    ensures SplitFrom(PrintList(nodes), lead, OUTSIDE) == PrintEach(nodes)
  {
    var head := Print(nodes[0]);
    PrintNeutral(nodes[0], OUTSIDE, 1);
    PrintSolid(nodes[0]);
    if |nodes| == 1 {
      SplitLast(head, lead);
      assert nodes[1..] == [];
    } else {
      SplitHead(head, PrintList(nodes[1..]), lead);
      SplitPrintList(nodes[1..], " ");
      assert PrintList(nodes) == head + (", " + PrintList(nodes[1..]));
    }
  }

  lemma SplitLast(head: string, lead: string)
    requires Run(head, OUTSIDE) == Some(OUTSIDE) && Trim(lead + head) == head
    ensures SplitFrom(head, lead, OUTSIDE) == [head]
  {
    SplitRun(head, "", lead, OUTSIDE);
    assert head + "" == head;
  }

  /** The separator ends the present part and leaves its blank to the next. */
  lemma SplitHead(head: string, rest: string, lead: string)
    requires Run(head, OUTSIDE) == Some(OUTSIDE) && Trim(lead + head) == head
    ensures SplitFrom(head + (", " + rest), lead, OUTSIDE) == [head] + SplitFrom(rest, " ", OUTSIDE)
  {
    SplitRun(head, ", " + rest, lead, OUTSIDE);
    assert (", " + rest)[1..] == " " + rest && (" " + rest)[1..] == rest;
    assert "" + [' '] == " ";
    assert Step(OUTSIDE, ' ') == OUTSIDE;
  }

  // ---------------------------------------------------------------------------------------------
  // Taking an applied type apart
  // ---------------------------------------------------------------------------------------------

  /** Removes qualifiers at the end of a trimmed spelling. */
  function TrimConsts(s: string): string
    decreases |s|
  {
    if |s| > 6 && EndsWith(s, " const") then
      TrimLength(s[..|s| - 6]);
      TrimConsts(Trim(s[..|s| - 6]))
    else s
  }

  lemma TrimConstsSolid(s: string)
    requires Solid(s)
    ensures Solid(s + " const") && TrimConsts(s + " const") == TrimConsts(s)
  {
    SuffixOf(s, " const");
    TrimSolid(s);
  }

  lemma TrimConstsNone(s: string)
    requires !EndsWith(s, " const")
    ensures TrimConsts(s) == s
  {
  }

  function FindChar(s: string, c: char): (i: nat)
    ensures i <= |s|
    ensures i < |s| ==> s[i] == c
    ensures c !in s[..i]
  {
    if s == "" || s[0] == c then 0
    else
      var i := 1 + FindChar(s[1..], c);
      assert s[..i] == [s[0]] + s[1..][..i - 1];
      i
  }

  /** Where the k-th enclosing square bracket is closed. */
  function CloseFrom(s: string, k: nat): (r: Option<nat>)
    requires k >= 1
    ensures r.Some? ==> r.value < |s|
  {
    if s == "" then None
    else if s[0] == ']' && k == 1 then Some(0)
    else
      var i := CloseFrom(s[1..], if s[0] == '[' then k + 1 else if s[0] == ']' then k - 1 else k);
      if i.None? then None else Some(1 + i.value)
  }

  datatype AppliedSpelling = AppliedSpelling(base: string, args: seq<string>)

  function SplitCleaned(cleaned: string): Option<AppliedSpelling> {
    var open := FindChar(cleaned, '[');
    if open == |cleaned| then Some(AppliedSpelling(cleaned, []))
    else if cleaned[|cleaned| - 1] != ']' || open == 0 then None
    else
      var close := CloseFrom(cleaned[open + 1..], 1);
      if close.None? || open + 1 + close.value != |cleaned| - 1 then None
      else
        var base := Trim(cleaned[..open]);
        if base == "" then None
        else Some(AppliedSpelling(base, SplitFrom(cleaned[open + 1..|cleaned| - 1], "", OUTSIDE)))
  }

  function SplitApplied(spelling: string): Option<AppliedSpelling> {
    SplitCleaned(Clean(spelling))
  }

  lemma {:induction false} CloseAfter(t: string, rest: string, k: nat, m: nat)
    requires k >= 1 && m >= 1 && SquareRun(t, k) == Some(m)
    ensures CloseFrom(t + rest, k)
         == if CloseFrom(rest, m).None? then None else Some(|t| + CloseFrom(rest, m).value)
  {
    if t == "" {
      assert t + rest == rest;
    } else {
      assert (t + rest)[1..] == t[1..] + rest;
      CloseAfter(t[1..], rest, if t[0] == '[' then k + 1 else if t[0] == ']' then k - 1 else k, m);
    }
  }

  lemma {:induction false} FindFirst(s: string, c: char, rest: string)
    requires c !in s
    ensures FindChar(s + ([c] + rest), c) == |s|
  {
    if s == "" {
      assert s + ([c] + rest) == [c] + rest;
    } else {
      assert s[0] in s && (s + ([c] + rest))[1..] == s[1..] + ([c] + rest);
      FindFirst(s[1..], c, rest);
    }
  }

  lemma NameSolid(name: string)
    requires IsName(name)
    ensures Solid(name) && '[' !in name && !EndsWith(name, " const")
  {
    assert NameChar(name[0]) && NameChar(name[|name| - 1]);
    if |name| >= 6 {
      assert NameChar(name[|name| - 6]);
    }
    NotSuffix(name, " const", 0);
  }

  /** A solid text without square brackets followed by one bracketed text is read as applied. */
  lemma SplitCleanedBracketed(text: string, head: string, inner: string)
    requires text == head + ("[" + inner + "]") && Solid(head) && '[' !in head && SquareRun(inner, 1) == Some(1)
    ensures SplitCleaned(text) == Some(AppliedSpelling(head, SplitFrom(inner, "", OUTSIDE)))
  {
    assert FindChar(text, '[') == |head| && CloseFrom(text[|head| + 1..], 1) == Some(|inner|) by {
      BracketParts(head, inner);
      FindFirst(head, '[', inner + "]");
      CloseAfter(inner, "]", 1, 1);
    }
    assert text[..|head|] == head && text[|head| + 1..|text| - 1] == inner by {
      BracketParts(head, inner);
    }
    TrimSolid(head);
    SplitCleanedAt(text, head, inner);
  }

  lemma BracketParts(name: string, inner: string)
    ensures var text := name + ("[" + inner + "]");
      && text == name + (['['] + (inner + "]"))
      && text[|name| + 1..] == inner + "]"
      && text[..|name|] == name
      && text[|name| + 1..|text| - 1] == inner
  {
  }

  lemma SplitCleanedAt(text: string, name: string, inner: string)
    requires name != "" && |text| == |name| + |inner| + 2 && text[|text| - 1] == ']'
    requires FindChar(text, '[') == |name| && CloseFrom(text[|name| + 1..], 1) == Some(|inner|)
    requires text[..|name|] == name && Trim(name) == name && text[|name| + 1..|text| - 1] == inner
    ensures SplitCleaned(text) == Some(AppliedSpelling(name, SplitFrom(inner, "", OUTSIDE)))
  {
  }

  /** Balanced text that opens a bracket closes it again before it ends. */
  lemma {:induction false} ClosesWithin(t: string, rest: string, k: nat)
    requires k >= 1 && SquareRun(t, k + 1) == Some(1)
    ensures CloseFrom(t + rest, k).Some? && CloseFrom(t + rest, k).value < |t|
    decreases |t|
  {
    assert t != "" && (t + rest)[1..] == t[1..] + rest;
    if t[0] == '[' {
      ClosesWithin(t[1..], rest, k + 1);
    } else if t[0] == ']' {
      if k > 1 {
        ClosesWithin(t[1..], rest, k - 1);
      }
    } else {
      ClosesWithin(t[1..], rest, k);
    }
  }

  lemma {:induction false} PlainSquareRun(s: string, rest: string)
    requires '[' !in s && SquareRun(s + rest, 1).Some?
    ensures SquareRun(s + rest, 1) == SquareRun(rest, 1)
    decreases |s|
  {
    if s == "" {
      assert s + rest == rest;
    } else {
      assert s[0] in s && (s + rest)[0] == s[0] && (s + rest)[1..] == s[1..] + rest;
      PlainSquareRun(s[1..], rest);
    }
  }

  lemma FindCharExact(s: string, c: char)
    ensures FindChar(s, c) < |s| <==> c in s
  {
    assert s[..|s|] == s;
  }

  /** When the head of a bracketed text has brackets itself, the first one closes inside the head. */
  lemma SplitCleanedNested(text: string, head: string, tail: string)
    requires text == head + tail && tail != "" && '[' in head && SquareRun(head, 1) == Some(1)
    ensures SplitCleaned(text).None?
  {
    FindCharExact(head, '[');
    var open := FindChar(head, '[');
    NestedParts(text, head, tail, open);
    NestedClose(head[..open], head[open + 1..], tail);
  }

  lemma NestedParts(text: string, head: string, tail: string, open: nat)
    requires text == head + tail && open < |head| && head[open] == '[' && '[' !in head[..open]
    ensures head == head[..open] + (['['] + head[open + 1..])
    ensures text[open + 1..] == head[open + 1..] + tail && FindChar(text, '[') == open
  {
    var before, after := head[..open], head[open + 1..];
    assert head == before + (['['] + after);
    assert text == before + (['['] + (after + tail));
    FindFirst(before, '[', after + tail);
  }

  lemma NestedClose(before: string, after: string, tail: string)
    requires '[' !in before && SquareRun(before + (['['] + after), 1) == Some(1)
    ensures CloseFrom(after + tail, 1).Some? && CloseFrom(after + tail, 1).value < |after|
  {
    PlainSquareRun(before, ['['] + after);
    assert (['['] + after)[1..] == after;
    ClosesWithin(after, tail, 1);
  }

  /** A text that has brackets and does not end with one is not read as applied. */
  lemma SplitCleanedOpen(text: string)
    requires '[' in text && text[|text| - 1] != ']'
    ensures SplitCleaned(text).None?
  {
    FindCharExact(text, '[');
  }

  lemma SplitCleanedPlain(text: string)
    requires '[' !in text
    ensures SplitCleaned(text) == Some(AppliedSpelling(text, []))
  {
    FindCharExact(text, '[');
  }

  // ---------------------------------------------------------------------------------------------
  // How each printed type splits
  // ---------------------------------------------------------------------------------------------

  /** The type without what leaves no trace before the trailing qualifiers of its spelling. */
  function Bare(node: TypeNode): TypeNode {
    match node
    case ConstNode(base) => Bare(base)
    case PointerNode(base, dim) => if dim == 0 then Bare(base) else node
    case _ => node
  }

  lemma {:induction false} CleanPrinted(node: TypeNode)
    requires WellFormed(node)
    ensures WellFormed(Bare(node)) && Clean(Print(node)) == Print(Bare(node))
  {
    PrintSolid(node);
    match node
    case ConstNode(base) =>
      PrintSolid(base);
      CleanConst(Print(base));
      CleanPrinted(base);
    case PointerNode(base, dim) =>
      if dim == 0 {
        assert Print(node) == Print(base);
        CleanPrinted(base);
      } else {
        NotSuffix(Print(node), " const", 5);
        CleanSolid(Print(node));
      }
    case IndexableNode(base) =>
      NotSuffix(Print(node), " const", 5);
      CleanSolid(Print(node));
    case _ =>
      CoreHasNoSuffix(node);
      CleanSolid(Print(node));
  }

  /** The spellings that end with a bracket: the text before it and the parts inside. */
  datatype Bracketing = Bracketing(base: TypeNode, inner: string, parts: seq<string>)

  function ExtentParts(dims: seq<Option<Extent>>): seq<string> {
    if dims == [] then [""]
    else if |dims| == 1 then [PrintExtent(dims[0])]
    else [PrintExtent(dims[0])] + ExtentParts(dims[1..])
  }

  function BracketingOf(node: TypeNode): Option<Bracketing> {
    match node
    case AppliedNode(base, args) => Some(Bracketing(base, PrintList(args), PrintEach(args)))
    case IndexableNode(base) => Some(Bracketing(base, "*", ["*"]))
    case ArrayNode(base, dims) => Some(Bracketing(base, PrintExtents(dims), ExtentParts(dims)))
    case _ => None
  }

  lemma ExtentIsPlain(d: Option<Extent>)
    ensures var s := PrintExtent(d); Run(s, OUTSIDE) == Some(OUTSIDE) && Trim("" + s) == s && ',' !in s
  {
    var s := PrintExtent(d);
    if d.Some? && d.value.Literal? {
      DecimalPlain(d.value.n);
      assert s[0] in s && s[|s| - 1] in s;
    }
    forall c <- s ensures !Bracket(c) && c != ',' {
    }
    PlainNeutral(s, OUTSIDE, 1);
    assert "" + s == s;
    if s != "" {
      TrimSolid(s);
    }
  }

  lemma {:induction false} SplitExtents(dims: seq<Option<Extent>>)
    ensures SplitFrom(PrintExtents(dims), "", OUTSIDE) == ExtentParts(dims)
  {
    if dims == [] {
      assert Trim("") == "";
    } else {
      var head := PrintExtent(dims[0]);
      ExtentIsPlain(dims[0]);
      if |dims| == 1 {
        SplitLast(head, "");
      } else {
        SplitExtents(dims[1..]);
        SplitAtComma(head, PrintExtents(dims[1..]));
      }
    }
  }

  lemma SplitAtComma(head: string, rest: string)
    requires Run(head, OUTSIDE) == Some(OUTSIDE) && Trim("" + head) == head
    ensures SplitFrom(head + "," + rest, "", OUTSIDE) == [head] + SplitFrom(rest, "", OUTSIDE)
  {
    assert head + "," + rest == head + ("," + rest);
    SplitRun(head, "," + rest, "", OUTSIDE);
    assert ("," + rest)[1..] == rest;
  }

  lemma BracketingPrints(node: TypeNode)
    requires WellFormed(node) && BracketingOf(node).Some?
    ensures var b := BracketingOf(node).value;
      && WellFormed(b.base) && Print(node) == Print(b.base) + ("[" + b.inner + "]")
      && SquareRun(b.inner, 1) == Some(1) && SplitFrom(b.inner, "", OUTSIDE) == b.parts
  {
    match node
    case AppliedNode(base, args) =>
      PrintListNeutral(args, OUTSIDE.(square := 1), 1);
      SplitPrintList(args, "");
    case IndexableNode(base) =>
      StarIsOnePart();
      assert "[" + "*" + "]" == "[*]";
    case ArrayNode(base, dims) =>
      ExtentsPlain(dims);
      PlainNeutral(PrintExtents(dims), OUTSIDE.(square := 1), 1);
      SplitExtents(dims);
  }

  /** How every printed type splits: a spelling without square brackets is a plain name; one that is some
      text without square brackets followed by a bracket is read as that text applied to the parts inside;
      every other spelling is refused. */
  lemma SplitOfPrinted(node: TypeNode)
    requires WellFormed(node)
    ensures var n := Bare(node);
      var b := BracketingOf(n);
      SplitApplied(Print(node))
         == if '[' !in Print(n) then Some(AppliedSpelling(Print(n), []))
            else if b.Some? && '[' !in Print(b.value.base)
            then Some(AppliedSpelling(Print(b.value.base), b.value.parts))
            else None
  {
    CleanPrinted(node);
    var n := Bare(node);
    if '[' !in Print(n) {
      SplitCleanedPlain(Print(n));
    } else if BracketingOf(n).Some? {
      var b := BracketingOf(n).value;
      BracketingPrints(n);
      if '[' !in Print(b.base) {
        PrintSolid(b.base);
        SplitCleanedBracketed(Print(n), Print(b.base), b.inner);
      } else {
        PrintNeutral(b.base, OUTSIDE, 1);
        SplitCleanedNested(Print(n), Print(b.base), "[" + b.inner + "]");
      }
    } else {
      BareHasNoBracketEnd(node);
      SplitCleanedOpen(Print(n));
    }
  }

  lemma {:induction false} BareHasNoBracketEnd(node: TypeNode)
    requires WellFormed(node) && BracketingOf(Bare(node)).None?
    ensures var s := Print(Bare(node)); s != "" && s[|s| - 1] != ']'
  {
    match node
    case ConstNode(base) => BareHasNoBracketEnd(base);
    case PointerNode(base, dim) =>
      if dim == 0 {
        BareHasNoBracketEnd(base);
      }
    case BaseNode(name) => assert NameChar(name[|name| - 1]);
    case TupleNode(items) => LastOf("<" + PrintList(items), ">");
    case _ =>
  }

  /** Splitting a printed applied type gives back the printed base and exactly the printed arguments if
      and only if the base is not applied itself. */
  lemma SplitRecoversAppliedType(base: TypeNode, args: seq<TypeNode>)
    requires WellFormed(AppliedNode(base, args))
    ensures SplitApplied(Print(AppliedNode(base, args))) == Some(AppliedSpelling(Print(base), PrintEach(args)))
       <==> !base.AppliedNode?
  {
    var node := AppliedNode(base, args);
    SplitOfPrinted(node);
    HasBracket(Print(base), PrintList(args));
    match base
    case BaseNode(name) => NameSolid(name);
    case AppliedNode(inner, innerArgs) => HasBracket(Print(inner), PrintList(innerArgs));
    case _ =>
  }

  lemma HasBracket(head: string, inner: string)
    ensures '[' in head + ("[" + inner + "]")
  {
    assert (head + ("[" + inner + "]"))[|head|] == '[';
  }

  /** `Foo[A][B]` is not taken apart at all. */
  lemma TwiceAppliedIsRefused()
    ensures var node := AppliedNode(AppliedNode(BaseNode("Foo"), [BaseNode("A")]), [BaseNode("B")]);
      WellFormed(node) && SplitApplied(Print(node)).None?
  {
    var inner := AppliedNode(BaseNode("Foo"), [BaseNode("A")]);
    var node := AppliedNode(inner, [BaseNode("B")]);
    assert WellFormed(node) by {
      assert WellFormedAll([BaseNode("A")]) && WellFormedAll([BaseNode("B")]);
    }
    SplitOfPrinted(node);
    HasBracket("Foo", PrintList([BaseNode("A")]));
    HasBracket(Print(inner), PrintList([BaseNode("B")]));
  }

  /** Qualifiers around a printed type do not change how it splits. */
  lemma SplitIgnoresConst(node: TypeNode)
    requires WellFormed(node)
    ensures SplitApplied(Print(ConstNode(node))) == SplitApplied(Print(node))
  {
    PrintSolid(node);
    CleanConst(Print(node));
  }

  lemma StarIsOnePart()
    ensures SquareRun("*", 1) == Some(1) && SplitFrom("*", "", OUTSIDE) == ["*"]
  {
    PlainNeutral("*", OUTSIDE, 1);
    TrimSolid("*");
    SplitLast("*", "");
  }

  /** An indexable pointer is mistaken for its element type applied to a star, exactly when the element
      type prints no square bracket; otherwise it is refused. */
  lemma IndexablePointerReadsAsApplied(base: TypeNode)
    requires WellFormed(base)
    ensures SplitApplied(Print(IndexableNode(base)))
         == if '[' !in Print(base) then Some(AppliedSpelling(Print(base), ["*"])) else None
  {
    SplitOfPrinted(IndexableNode(base));
    HasBracket(Print(base), "*");
    assert "[" + "*" + "]" == "[*]";
  }

  /** An array is mistaken for its element type applied to the printed dimensions, under the same
      condition. */
  lemma ArrayReadsAsApplied(base: TypeNode, dims: seq<Option<Extent>>)
    requires WellFormed(base)
    ensures SplitApplied(Print(ArrayNode(base, dims)))
         == if '[' !in Print(base) then Some(AppliedSpelling(Print(base), ExtentParts(dims))) else None
  {
    SplitOfPrinted(ArrayNode(base, dims));
    HasBracket(Print(base), PrintExtents(dims));
  }

  // ---------------------------------------------------------------------------------------------
  // Stripping pointers and qualifiers
  // ---------------------------------------------------------------------------------------------

  lemma {:induction false} TrimConstsLength(s: string)
    ensures |TrimConsts(s)| <= |s|
    decreases |s|
  {
    if |s| > 6 && EndsWith(s, " const") {
      TrimLength(s[..|s| - 6]);
      TrimConstsLength(Trim(s[..|s| - 6]));
    }
  }

  function Clean(spelling: string): string {
    TrimConsts(Trim(spelling))
  }

  function StripText(spelling: string): string
    decreases |spelling|, 1
  {
    TrimLength(spelling);
    TrimConstsLength(Trim(spelling));
    StripCleaned(Clean(spelling))
  }

  function StripCleaned(cleaned: string): string
    decreases |cleaned|, 0
  {
    if |cleaned| > 3 && EndsWith(cleaned, "[*]") then
      TrimLength(cleaned[..|cleaned| - 3]);
      StripText(Trim(cleaned[..|cleaned| - 3]))
    else if cleaned != "" && cleaned[|cleaned| - 1] == '*' then
      TrimLength(cleaned[..|cleaned| - 1]);
      StripText(Trim(cleaned[..|cleaned| - 1]))
    else cleaned
  }

  lemma CleanConst(s: string)
    requires Solid(s)
    ensures Clean(s + " const") == Clean(s)
  {
    TrimConstsSolid(s);
    TrimSolid(s);
    TrimSolid(s + " const");
  }

  lemma CleanSolid(s: string)
    requires Solid(s) && !EndsWith(s, " const")
    ensures Clean(s) == s
  {
    TrimSolid(s);
    TrimConstsNone(s);
  }

  lemma StripTextConst(s: string)
    requires Solid(s)
    ensures StripText(s + " const") == StripText(s)
  {
    CleanConst(s);
  }

  lemma StripTextIndexable(s: string)
    requires Solid(s)
    ensures StripText(s + "[*]") == StripText(s)
  {
    var text := s + "[*]";
    SuffixOf(s, "[*]");
    NotSuffix(text, " const", 5);
    CleanSolid(text);
    TrimSolid(s);
    assert StripCleaned(text) == StripText(s);
  }

  lemma StripTextStar(s: string)
    requires Solid(s)
    ensures StripText(s + "*") == StripText(s)
  {
    var text := s + "*";
    SuffixOf(s, "*");
    NotSuffix(text, " const", 5);
    NotSuffix(text, "[*]", 2);
    CleanSolid(text);
    TrimSolid(s);
    assert StripCleaned(text) == StripText(s);
  }

  lemma StripTextCore(s: string)
    requires Solid(s) && !EndsWith(s, " const") && !EndsWith(s, "[*]") && s[|s| - 1] != '*'
    ensures StripText(s) == s
  {
    CleanSolid(s);
    assert StripCleaned(s) == s;
  }

  /** The type below all outer qualifiers, pointers and indexable pointers. */
  function Strip(node: TypeNode): TypeNode {
    match node
    case ConstNode(base) => Strip(base)
    case PointerNode(base, _) => Strip(base)
    case IndexableNode(base) => Strip(base)
    case _ => node
  }

  /** A printed type neither starts with a star nor ends with an opened one. */
  lemma {:induction false} NoOpenStar(node: TypeNode)
    requires WellFormed(node)
    ensures Print(node) != "" && Print(node)[0] != '*' && !EndsWith(Print(node), "[*")
  {
    PrintEdges(node);
    var s := Print(node);
    match node
    case PointerNode(base, dim) =>
      NoOpenStar(base);
      PrintEdges(base);
      if dim == 0 {
        assert s == Print(base);
      } else {
        NotSuffix(s, "[*", 0);
      }
    case AppliedNode(base, args) => NoOpenStar(base); NotSuffix(s, "[*", 1);
    case DynNode(base) => NoOpenStar(base); NotSuffix(s, "[*", 1);
    case ConstNode(base) => NoOpenStar(base); NotSuffix(s, "[*", 1);
    case IndexableNode(base) => NoOpenStar(base); NotSuffix(s, "[*", 1);
    case ArrayNode(base, _) => NoOpenStar(base); NotSuffix(s, "[*", 1);
    case BaseNode(name) =>
      assert NameChar(name[0]) && NameChar(name[|name| - 1]);
      NotSuffix(s, "[*", 1);
    case TupleNode(_) => NotSuffix(s, "[*", 1);
    case FuncPtrNode(_, _) => NotSuffix(s, "[*", 1);
    case AnyNode => NotSuffix(s, "[*", 1);
  }

  lemma {:induction false} NoOpenStarList(nodes: seq<TypeNode>)
    requires WellFormedAll(nodes)
    ensures !EndsWith("[" + PrintList(nodes), "[*")
  {
    if nodes == [] {
      NotSuffix("[", "[*", 1);
    } else {
      NoOpenStar(nodes[0]);
      if |nodes| == 1 {
        AfterText("[", Print(nodes[0]));
      } else {
        NoOpenStarList(nodes[1..]);
        WellFormedEach(nodes, 1);
        NoOpenStar(nodes[1]);
        AfterList(Print(nodes[0]), PrintList(nodes[1..]));
      }
    }
  }

  lemma AfterText(s: string, t: string)
    requires t != "" && t[0] != '*' && !EndsWith(t, "[*")
    ensures !EndsWith(s + t, "[*")
  {
    if |t| == 1 {
      NotSuffix(s + t, "[*", 1);
    } else {
      assert (s + t)[|s + t| - 2..] == t[|t| - 2..];
    }
  }

  lemma AfterList(head: string, rest: string)
    requires !EndsWith("[" + rest, "[*")
    ensures !EndsWith("[" + (head + ", " + rest), "[*")
  {
    var text := "[" + (head + ", " + rest);
    if |rest| >= 2 {
      assert text[|text| - 2..] == ("[" + rest)[|rest| - 1..];
    } else {
      NotSuffix(text, "[*", 0);
    }
  }

  lemma BracketEnd(base: string, inner: string)
    requires !EndsWith("[" + inner, "[*")
    ensures var s := base + ("[" + inner + "]");
      s[|s| - 1] == ']' && !EndsWith(s, "[*]") && !EndsWith(s, " const")
  {
    var open := "[" + inner;
    var s := base + (open + "]");
    assert s[|s| - 1] == ']';
    NotSuffix(s, " const", 5);
    if |open| == 1 {
      NotSuffix(s, "[*]", 1);
    } else if open[|open| - 1] != '*' {
      NotSuffix(s, "[*]", 1);
    } else {
      assert open[|open| - 2..] == [open[|open| - 2], '*'];
      NotSuffix(s, "[*]", 0);
    }
  }

  lemma ExtentsEnd(dims: seq<Option<Extent>>)
    ensures !EndsWith("[" + PrintExtents(dims), "[*")
  {
    var inner := PrintExtents(dims);
    ExtentsPlain(dims);
    if inner != "" {
      assert inner[|inner| - 1] in inner;
    }
    NotSuffix("[" + inner, "[*", 1);
  }

  predicate Core(node: TypeNode) {
    !node.ConstNode? && !node.PointerNode? && !node.IndexableNode?
  }

  /** A type with nothing to strip prints without a suffix that would be stripped. */
  lemma CoreHasNoSuffix(node: TypeNode)
    requires WellFormed(node) && Core(node)
    ensures var s := Print(node);
      s != "" && s[|s| - 1] != '*' && !EndsWith(s, " const") && !EndsWith(s, "[*]")
  {
    var s := Print(node);
    match node
    case AppliedNode(base, args) =>
      NoOpenStarList(args);
      BracketEnd(Print(base), PrintList(args));
    case ArrayNode(base, dims) =>
      ExtentsEnd(dims);
      BracketEnd(Print(base), PrintExtents(dims));
    case BaseNode(name) =>
      NameSolid(name);
      assert NameChar(s[|s| - 1]);
      NotSuffix(s, "[*]", 2);
    case DynNode(base) =>
      assert s[|s| - 1] == 'n';
      NotSuffix(s, " const", 5);
      NotSuffix(s, "[*]", 2);
    case TupleNode(_) =>
      assert s[|s| - 1] == '>';
      NotSuffix(s, " const", 5);
      NotSuffix(s, "[*]", 2);
    case FuncPtrNode(_, _) =>
      assert s[|s| - 1] == ')';
      NotSuffix(s, " const", 5);
      NotSuffix(s, "[*]", 2);
    case AnyNode =>
      NotSuffix(s, " const", 5);
      NotSuffix(s, "[*]", 2);
  }

  /** Stripping suffixes from printed text is stripping the type expression. */
  lemma {:induction false} StripTextIsStrip(node: TypeNode)
    requires WellFormed(node)
    ensures StripText(Print(node)) == Print(Strip(node))
  {
    match node
    case ConstNode(base) =>
      PrintSolid(base);
      StripTextConst(Print(base));
      StripTextIsStrip(base);
    case IndexableNode(base) =>
      PrintSolid(base);
      StripTextIndexable(Print(base));
      StripTextIsStrip(base);
    case PointerNode(base, dim) =>
      PrintSolid(base);
      StripTextStars(Print(base), dim);
      StripTextIsStrip(base);
    case _ => StripTextOfCore(node);
  }

  lemma StripTextOfCore(node: TypeNode)
    requires WellFormed(node) && Core(node)
    ensures StripText(Print(node)) == Print(node)
  {
    PrintSolid(node);
    CoreHasNoSuffix(node);
    StripTextCore(Print(node));
  }

  lemma SolidStars(s: string, dim: nat)
    requires Solid(s)
    ensures Solid(s + Stars(dim))
  {
  }

  lemma {:induction false} StripTextStars(s: string, dim: nat)
    requires Solid(s)
    ensures StripText(s + Stars(dim)) == StripText(s)
  {
    if dim == 0 {
      assert s + Stars(dim) == s;
    } else {
      SolidStars(s, dim - 1);
      StripTextStar(s + Stars(dim - 1));
      StripTextStars(s, dim - 1);
      assert s + Stars(dim) == s + Stars(dim - 1) + "*";
    }
  }

  // ---------------------------------------------------------------------------------------------
  // The loops of the printer and the query tool
  // ---------------------------------------------------------------------------------------------

  lemma PrintListSnoc(nodes: seq<TypeNode>, i: nat)
    requires 0 < i < |nodes|
    ensures PrintList(nodes[..i + 1]) == PrintList(nodes[..i]) + ", " + Print(nodes[i])
    decreases i
  {
    var longer, shorter := nodes[..i + 1], nodes[..i];
    assert longer[1..] == nodes[1..][..i] && shorter[1..] == nodes[1..][..i - 1];
    if i == 1 {
      assert longer[1..] == [nodes[1]];
    } else {
      PrintListSnoc(nodes[1..], i - 1);
      var last := Print(nodes[i]);
      assert PrintList(longer) == Print(nodes[0]) + ", " + (PrintList(shorter[1..]) + ", " + last);
      assert Print(nodes[0]) + ", " + (PrintList(shorter[1..]) + ", " + last)
          == Print(nodes[0]) + ", " + PrintList(shorter[1..]) + ", " + last;
    }
  }

  method DescribeTypeNode(node: TypeNode) returns (name: string)
    ensures name == Print(node)
    decreases node, 1
  {
    match node
    case AnyNode => name := "any";
    case FuncParamNode(isRef, base) =>
      name := if isRef then "ref " else "";
      var inner := DescribeTypeNode(base);
      name := name + inner;
    case AppliedNode(base, args) =>
      name := DescribeTypeNode(base);
      var list := DescribeTypeNodes(args);
      name := name + ("[" + list + "]");
    case BaseNode(text) => name := text;
    case DynNode(base) =>
      name := DescribeTypeNode(base);
      name := name + " dyn";
    case ConstNode(base) =>
      name := DescribeTypeNode(base);
      name := name + " const";
    case PointerNode(base, dim) =>
      var inner := DescribeTypeNode(base);
      name := inner;
      assert inner + Stars(0) == inner;
      for i := 0 to dim
        invariant name == inner + Stars(i)
      {
        name := name + "*";
      }
    case IndexableNode(base) =>
      name := DescribeTypeNode(base);
      name := name + "[*]";
    case ArrayNode(base, dims) =>
      name := DescribeTypeNode(base);
      name := name + ("[" + PrintExtents(dims) + "]");
    case TupleNode(items) =>
      var list := DescribeTypeNodes(items);
      name := "<" + list + ">";
    case FuncPtrNode(params, ret) =>
      var list := DescribeTypeNodes(params);
      var tail := "";
      if ret.Some? {
        var inner := DescribeTypeNode(ret.value);
        tail := " " + inner;
      }
      name := "(" + (list + ":" + tail) + ")";
  }

  method DescribeTypeNodes(nodes: seq<TypeNode>) returns (name: string)
    ensures name == PrintList(nodes)
    decreases nodes, 0
  {
    name := "";
    for i := 0 to |nodes|
      invariant name == PrintList(nodes[..i])
    {
      var item := DescribeTypeNode(nodes[i]);
      if i != 0 {
        PrintListSnoc(nodes, i);
        name := name + ", ";
      } else {
        assert nodes[..1] == [nodes[0]];
        assert "" + item == item;
      }
      name := name + item;
    }
    assert nodes[..|nodes|] == nodes;
  }

  method SplitTopLevelTypeArguments(text: string) returns (parts: seq<string>)
    ensures parts == SplitFrom(text, "", OUTSIDE)
  {
    parts := [];
    var start := 0;
    var depth := OUTSIDE;
    for i := 0 to |text|
      invariant start <= i
      invariant parts + SplitFrom(text[i..], text[start..i], depth) == SplitFrom(text, "", OUTSIDE)
    {
      assert text[i..][1..] == text[i + 1..];
      assert text[start..i] + [text[i]] == text[start..i + 1];
      if text[i] == ',' && depth == OUTSIDE {
        var part, rest := Trim(text[start..i]), SplitFrom(text[i + 1..], "", depth);
        assert parts + ([part] + rest) == parts + [part] + rest;
        parts := parts + [part];
        start := i + 1;
        assert text[start..i + 1] == "";
      } else {
        depth := Step(depth, text[i]);
      }
    }
    parts := parts + [Trim(text[start..])];
    assert text[|text|..] == "" && text[start..] == text[start..|text|];
  }

  method TrimProjectableTemplateLookupTypeSpelling(spelling: string) returns (cleaned: string)
    ensures cleaned == StripText(spelling)
  {
    cleaned := Trim(spelling);
    TrimIdempotent(spelling);
    var changed := true;
    while changed
      invariant StripText(spelling) == if changed then StripText(cleaned) else cleaned
      decreases changed, |cleaned|
    {
      TrimLength(cleaned);
      TrimConstsLength(Trim(cleaned));
      changed := false;
      cleaned := Clean(cleaned);
      if |cleaned| > 3 && EndsWith(cleaned, "[*]") {
        TrimLength(cleaned[..|cleaned| - 3]);
        cleaned := Trim(cleaned[..|cleaned| - 3]);
        changed := true;
      } else if cleaned != "" && cleaned[|cleaned| - 1] == '*' {
        TrimLength(cleaned[..|cleaned| - 1]);
        cleaned := Trim(cleaned[..|cleaned| - 1]);
        changed := true;
      }
    }
  }

  /** The index at which the square bracket opened at `open` is closed, or the length if it is not. */
  method FindClosingBracket(cleaned: string, open: nat) returns (close: nat)
    requires open < |cleaned| && cleaned[open] == '['
    ensures var r := CloseFrom(cleaned[open + 1..], 1);
      close == if r.None? then |cleaned| else open + 1 + r.value
  {
    var squareDepth := 1;
    close := open + 1;
    while close < |cleaned|
      invariant open < close <= |cleaned| && squareDepth >= 1
      invariant CloseFrom(cleaned[open + 1..], 1)
             == (var r := CloseFrom(cleaned[close..], squareDepth);
                 if r.None? then None else Some(close - open - 1 + r.value))
    {
      assert cleaned[close..][1..] == cleaned[close + 1..];
      if cleaned[close] == '[' {
        squareDepth := squareDepth + 1;
      } else if cleaned[close] == ']' {
        if squareDepth == 1 {
          return;
        }
        squareDepth := squareDepth - 1;
      }
      close := close + 1;
    }
  }

  method SplitAppliedTypeSpelling(spelling: string) returns (ok: bool, baseName: string, args: seq<string>)
    ensures ok <==> SplitApplied(spelling).Some?
    ensures ok ==> SplitApplied(spelling) == Some(AppliedSpelling(baseName, args))
  {
    var cleaned := Clean(spelling);
    baseName, args := cleaned, [];
    var open := FindChar(cleaned, '[');
    if open == |cleaned| {
      return true, baseName, args;
    }
    if cleaned[|cleaned| - 1] != ']' || open == 0 {
      return false, baseName, args;
    }
    var close := FindClosingBracket(cleaned, open);
    if close == |cleaned| || close != |cleaned| - 1 {
      return false, baseName, args;
    }
    baseName := Trim(cleaned[..open]);
    args := SplitTopLevelTypeArguments(cleaned[open + 1..close]);
    ok := baseName != "";
  }
}
