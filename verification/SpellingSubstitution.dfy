/** Substituting template arguments in the spelling of a type, against substituting them in the type. */
module SpellingSubstitution {
  import opened Wrappers
  import opened TypeSyntax
  import opened TypeSpelling

  /** Names qualified by a module are never template parameters. */
  predicate IsParameter<T>(name: string, args: map<string, T>) {
    '.' !in name && name in args
  }

  function ExtentMarks(dims: seq<Option<Extent>>): string {
    if dims == [] then ""
    else
      (if dims[0].None? then "<null>" else "<expr>")
      + (if |dims| == 1 then "" else ", " + ExtentMarks(dims[1..]))
  }

  function SubstText(node: TypeNode, args: map<string, string>): string
    decreases node, 1
  {
    match node
    case FuncParamNode(_, base) => SubstText(base, args)
    case AnyNode => "any"
    case BaseNode(name) => if IsParameter(name, args) then args[name] else name
    case AppliedNode(base, items) => SubstText(base, args) + ("[" + SubstTextList(items, args) + "]")
    case ConstNode(base) => SubstText(base, args) + " const"
    case DynNode(base) => SubstText(base, args) + " dyn"
    case PointerNode(base, dim) => SubstText(base, args) + Stars(dim)
    case IndexableNode(base) => SubstText(base, args) + "[*]"
    case ArrayNode(base, dims) => SubstText(base, args) + ("[" + ExtentMarks(dims) + "]")
    case TupleNode(items) => "<" + SubstTextList(items, args) + ">"
    case FuncPtrNode(params, ret) =>
      "(" + (SubstTextList(params, args) + ":" + (if ret.Some? then " " + SubstText(ret.value, args) else "")) + ")"
  }

  function SubstTextList(nodes: seq<TypeNode>, args: map<string, string>): string
    decreases nodes, 0
  {
    if nodes == [] then ""
    else if |nodes| == 1 then SubstText(nodes[0], args)
    else SubstText(nodes[0], args) + ", " + SubstTextList(nodes[1..], args)
  }

  type Bindings = map<string, TypeNode>

  function SubstTree(node: TypeNode, s: Bindings): TypeNode
    decreases node, 1
  {
    match node
    case FuncParamNode(isRef, base) => FuncParamNode(isRef, SubstTree(base, s))
    case AnyNode => node
    case BaseNode(name) => if name in s && forall c <- name :: c != '.' then s[name] else node
    case AppliedNode(base, items) => AppliedNode(SubstTree(base, s), SubstTrees(items, s))
    case ConstNode(base) => ConstNode(SubstTree(base, s))
    case DynNode(base) => DynNode(SubstTree(base, s))
    case PointerNode(base, dim) => PointerNode(SubstTree(base, s), dim)
    case IndexableNode(base) => IndexableNode(SubstTree(base, s))
    case ArrayNode(base, dims) => ArrayNode(SubstTree(base, s), dims)
    case TupleNode(items) => TupleNode(SubstTrees(items, s))
    case FuncPtrNode(params, ret) =>
      FuncPtrNode(SubstTrees(params, s), if ret.Some? then Some(SubstTree(ret.value, s)) else None)
  }

  function SubstTrees(nodes: seq<TypeNode>, s: Bindings): (r: seq<TypeNode>)
    ensures |r| == |nodes|
    decreases nodes, 0
  {
    if nodes == [] then [] else [SubstTree(nodes[0], s)] + SubstTrees(nodes[1..], s)
  }

  /** The printed arguments that a binding of parameters to types stands for. */
  function Printed(s: Bindings): map<string, string> {
    map k <- s :: Print(s[k])
  }

  /** How many array dimensions and how many `ref` parameters the type spells out itself. */
  function Extents(node: TypeNode): nat
    decreases node, 1
  {
    match node
    case AnyNode | BaseNode(_) => 0
    case FuncParamNode(_, base) => Extents(base)
    case AppliedNode(base, items) => Extents(base) + ExtentsAll(items)
    case ConstNode(base) => Extents(base)
    case DynNode(base) => Extents(base)
    case PointerNode(base, _) => Extents(base)
    case IndexableNode(base) => Extents(base)
    case ArrayNode(base, dims) => Extents(base) + |dims|
    case TupleNode(items) => ExtentsAll(items)
    case FuncPtrNode(params, ret) => ExtentsAll(params) + (if ret.Some? then Extents(ret.value) else 0)
  }

  function ExtentsAll(nodes: seq<TypeNode>): nat
    decreases nodes, 0
  {
    if nodes == [] then 0 else Extents(nodes[0]) + ExtentsAll(nodes[1..])
  }

  function Refs(node: TypeNode): nat
    decreases node, 1
  {
    match node
    case AnyNode | BaseNode(_) => 0
    case FuncParamNode(isRef, base) => (if isRef then 1 else 0) + Refs(base)
    case AppliedNode(base, items) => Refs(base) + RefsAll(items)
    case ConstNode(base) => Refs(base)
    case DynNode(base) => Refs(base)
    case PointerNode(base, _) => Refs(base)
    case IndexableNode(base) => Refs(base)
    case ArrayNode(base, _) => Refs(base)
    case TupleNode(items) => RefsAll(items)
    case FuncPtrNode(params, ret) => RefsAll(params) + (if ret.Some? then Refs(ret.value) else 0)
  }

  function RefsAll(nodes: seq<TypeNode>): nat
    decreases nodes, 0
  {
    if nodes == [] then 0 else Refs(nodes[0]) + RefsAll(nodes[1..])
  }

  // ---------------------------------------------------------------------------------------------
  // Where the texts agree
  // ---------------------------------------------------------------------------------------------

  /** How two spellings relate: with no dimensions spelled out they differ in length by the dropped
      `ref`s and are equal without any; dimensions show as extra angle brackets. */
  predicate Related(text: string, printed: string, extents: nat, refs: nat) {
    && Angles(text) == Angles(printed) + extents
    && (extents == 0 ==> |printed| == |text| + 4 * refs)
    && (extents == 0 && refs == 0 ==> text == printed)
  }

  function Angles(s: string): nat {
    if s == "" then 0 else (if s[0] == '<' then 1 else 0) + Angles(s[1..])
  }

  lemma {:induction false} AnglesAppend(s: string, t: string)
    ensures Angles(s + t) == Angles(s) + Angles(t)
  {
    if s == "" {
      assert s + t == t;
    } else {
      assert (s + t)[1..] == s[1..] + t;
      AnglesAppend(s[1..], t);
    }
  }

  lemma {:induction false} NoAngles(s: string)
    requires '<' !in s
    ensures Angles(s) == 0
  {
    if s != "" {
      assert s[0] in s;
      NoAngles(s[1..]);
    }
  }

  lemma RelatedSame(s: string)
    ensures Related(s, s, 0, 0)
  {
  }

  lemma RelatedAppend(t: string, p: string, m: nat, r: nat, u: string, q: string, n: nat, v: nat)
    requires Related(t, p, m, r) && Related(u, q, n, v)
    ensures Related(t + u, p + q, m + n, r + v)
  {
    AnglesAppend(t, u);
    AnglesAppend(p, q);
  }

  lemma RelatedSuffix(t: string, p: string, m: nat, r: nat, suffix: string)
    requires Related(t, p, m, r)
    ensures Related(t + suffix, p + suffix, m, r)
  {
    RelatedSame(suffix);
    RelatedAppend(t, p, m, r, suffix, suffix, 0, 0);
  }

  lemma RelatedEnclosed(open: string, t: string, p: string, m: nat, r: nat, close: string)
    requires Related(t, p, m, r)
    ensures Related(open + t + close, open + p + close, m, r)
  {
    RelatedSame(open);
    RelatedAppend(open, open, 0, 0, t, p, m, r);
    RelatedSuffix(open + t, open + p, m, r, close);
  }

  lemma {:induction false} ExtentMarksAngles(dims: seq<Option<Extent>>)
    ensures Angles(ExtentMarks(dims)) == |dims|
    ensures Angles(PrintExtents(dims)) == 0
  {
    ExtentsPlain(dims);
    NoAngles(PrintExtents(dims));
    MarksAngles(dims);
  }

  lemma {:induction false} MarksAngles(dims: seq<Option<Extent>>)
    ensures Angles(ExtentMarks(dims)) == |dims|
  {
    if dims != [] {
      MarksAngles(dims[1..]);
      var head := if dims[0].None? then "<null>" else "<expr>";
      var tail := if |dims| == 1 then "" else ", " + ExtentMarks(dims[1..]);
      AnglesAppend(head, tail);
      NoAngles(head[1..]);
      NoAngles(", ");
      AnglesAppend(", ", ExtentMarks(dims[1..]));
    }
  }

  lemma {:induction false} SubstRelated(node: TypeNode, s: Bindings)
    ensures Related(SubstText(node, Printed(s)), Print(SubstTree(node, s)), Extents(node), Refs(node))
    decreases node, 1
  {
    var args := Printed(s);
    match node
    case AnyNode => RelatedSame("any");
    case BaseNode(name) => RelatedSame(SubstText(node, args));
    case FuncParamNode(isRef, base) =>
      SubstRelated(base, s);
      if isRef {
        NoAngles("ref ");
        AnglesAppend("ref ", Print(SubstTree(base, s)));
      } else {
        assert Print(SubstTree(node, s)) == Print(SubstTree(base, s));
      }
    case AppliedNode(base, items) =>
      SubstRelated(base, s);
      SubstRelatedList(items, s);
      var t, p := SubstTextList(items, args), PrintList(SubstTrees(items, s));
      RelatedEnclosed("[", t, p, ExtentsAll(items), RefsAll(items), "]");
      RelatedAppend(SubstText(base, args), Print(SubstTree(base, s)), Extents(base), Refs(base),
                    "[" + t + "]", "[" + p + "]", ExtentsAll(items), RefsAll(items));
    case ConstNode(base) =>
      SubstRelated(base, s);
      RelatedSuffix(SubstText(base, args), Print(SubstTree(base, s)), Extents(base), Refs(base), " const");
    case DynNode(base) =>
      SubstRelated(base, s);
      RelatedSuffix(SubstText(base, args), Print(SubstTree(base, s)), Extents(base), Refs(base), " dyn");
    case PointerNode(base, dim) =>
      SubstRelated(base, s);
      RelatedSuffix(SubstText(base, args), Print(SubstTree(base, s)), Extents(base), Refs(base), Stars(dim));
    case IndexableNode(base) =>
      SubstRelated(base, s);
      RelatedSuffix(SubstText(base, args), Print(SubstTree(base, s)), Extents(base), Refs(base), "[*]");
    case ArrayNode(base, dims) =>
      SubstRelated(base, s);
      ExtentMarksAngles(dims);
      var t, p := ExtentMarks(dims), PrintExtents(dims);
      RelatedEnclosed("[", t, p, |dims|, 0, "]");
      RelatedAppend(SubstText(base, args), Print(SubstTree(base, s)), Extents(base), Refs(base),
                    "[" + t + "]", "[" + p + "]", |dims|, 0);
    case TupleNode(items) =>
      SubstRelatedList(items, s);
      RelatedEnclosed("<", SubstTextList(items, args), PrintList(SubstTrees(items, s)),
                      ExtentsAll(items), RefsAll(items), ">");
    case FuncPtrNode(params, ret) => SubstRelatedFunc(params, ret, s);
  }

  lemma {:induction false} SubstRelatedFunc(params: seq<TypeNode>, ret: Option<TypeNode>, s: Bindings)
    ensures var node := FuncPtrNode(params, ret);
      Related(SubstText(node, Printed(s)), Print(SubstTree(node, s)), Extents(node), Refs(node))
    decreases FuncPtrNode(params, ret), 0
  {
    var args := Printed(s);
    var t, p := SubstTextList(params, args), PrintList(SubstTrees(params, s));
    var m, r := ExtentsAll(params), RefsAll(params);
    SubstRelatedList(params, s);
    RelatedSuffix(t, p, m, r, ":");
    if ret.Some? {
      SubstRelated(ret.value, s);
      RelatedSame(" ");
      var u, q, n, v := SubstText(ret.value, args), Print(SubstTree(ret.value, s)), Extents(ret.value), Refs(ret.value);
      RelatedAppend(" ", " ", 0, 0, u, q, n, v);
      RelatedAppend(t + ":", p + ":", m, r, " " + u, " " + q, n, v);
      RelatedEnclosed("(", t + ":" + (" " + u), p + ":" + (" " + q), m + n, r + v, ")");
    } else {
      RelatedSuffix(t + ":", p + ":", m, r, "");
      RelatedEnclosed("(", t + ":" + "", p + ":" + "", m, r, ")");
    }
  }

  lemma {:induction false} SubstRelatedList(nodes: seq<TypeNode>, s: Bindings)
    ensures Related(SubstTextList(nodes, Printed(s)), PrintList(SubstTrees(nodes, s)),
                    ExtentsAll(nodes), RefsAll(nodes))
    decreases nodes, 0
  {
    var args := Printed(s);
    if nodes == [] {
      RelatedSame("");
    } else {
      SubstRelated(nodes[0], s);
      SubstRelatedList(nodes[1..], s);
      var trees := SubstTrees(nodes, s);
      assert trees[1..] == SubstTrees(nodes[1..], s);
      if |nodes| > 1 {
        var t, p := SubstText(nodes[0], args), Print(trees[0]);
        RelatedSuffix(t, p, Extents(nodes[0]), Refs(nodes[0]), ", ");
        RelatedAppend(t + ", ", p + ", ", Extents(nodes[0]), Refs(nodes[0]),
                      SubstTextList(nodes[1..], args), PrintList(trees[1..]),
                      ExtentsAll(nodes[1..]), RefsAll(nodes[1..]));
      }
    }
  }

  /** Substituting in the spelling is spelling the substituted type, exactly when the type spells out
      no array dimension and no `ref` parameter of its own. */
  lemma SubstTextIsSubstTree(node: TypeNode, s: Bindings)
    ensures SubstText(node, Printed(s)) == Print(SubstTree(node, s)) <==> Extents(node) == 0 && Refs(node) == 0
  {
    SubstRelated(node, s);
  }

  /** `T[3]` with T an i32: the spelling loses the three, the type keeps it. */
  lemma DimensionsAreMarks()
    ensures var node, s := ArrayNode(BaseNode("T"), [Some(Literal(3))]), map["T" := BaseNode("i32")];
      && SubstText(node, Printed(s)) == "i32[<expr>]"
      && Print(SubstTree(node, s)) != SubstText(node, Printed(s))
  {
    var node, s := ArrayNode(BaseNode("T"), [Some(Literal(3))]), map["T" := BaseNode("i32")];
    assert IsParameter("T", s) && Printed(s)["T"] == Print(BaseNode("i32")) == "i32";
    assert SubstText(BaseNode("T"), Printed(s)) == "i32";
    assert Extents(node) == 1;
    SubstTextIsSubstTree(node, s);
  }
}
