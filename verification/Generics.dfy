/** Generic type arguments of a call: substitution into signature types, and its inverse, inference by
    matching signature types against argument types.

    Resolved types are interned, so pointer equality is structural equality here.
 */
module Generics {
  import opened Wrappers
  import opened TypeSyntax

  /** Resolved types. An applied struct remembers its template by exported name, which carries the path of
      the template's module. */
  datatype Type =
    | AnyType
    | NamedType(name: string)
    | AppliedType(template: string, args: seq<Type>)
    | ConstType(base: Type)
    | DynType(text: string)
    | PointerType(base: Type)
    | IndexableType(base: Type)
    | ArrayType(base: Type, dims: seq<Option<Extent>>)
    | TupleType(items: seq<Type>)
    | FuncType(params: seq<Type>, refs: seq<bool>, ret: Option<Type>)

  datatype Template = Template(exportedName: string, arity: nat)

  /** What the names of a signature resolve to. */
  datatype Scope = Scope(named: map<string, Type>, templates: map<string, Template>, dyns: map<TypeNode, Type>)

  /** `createConstType` never stacks qualifiers. */
  function MakeConst(t: Type): Type {
    if t.ConstType? then t else ConstType(t)
  }

  function Unqualified(t: Type): Type {
    if t.ConstType? then t.base else t
  }

  function MakePointers(t: Type, dim: nat): Type {
    if dim == 0 then t else PointerType(MakePointers(t, dim - 1))
  }

  // ---------------------------------------------------------------------------------------------
  // Substitution
  // ---------------------------------------------------------------------------------------------

  type Bindings = map<string, Type>

  function Subst(node: TypeNode, s: Bindings, scope: Scope): Option<Type>
    decreases node, 1
  {
    match node
    case FuncParamNode(_, base) => Subst(base, s, scope)
    case AnyNode => Some(AnyType)
    case BaseNode(name) =>
      if name in s then Some(s[name])
      else if name in scope.named then Some(scope.named[name])
      else None
    case AppliedNode(base, args) =>
      if !base.BaseNode? || base.name !in scope.templates then None
      else
        var t := scope.templates[base.name];
        if t.arity == 0 || |args| != t.arity then None
        else
          var argTypes := SubstAll(args, s, scope);
          if argTypes.None? then None else Some(AppliedType(t.exportedName, argTypes.value))
    case ConstNode(base) =>
      var t := Subst(base, s, scope);
      if t.None? then None else Some(MakeConst(t.value))
    case DynNode(base) => if base in scope.dyns then Some(scope.dyns[base]) else None
    case PointerNode(base, dim) =>
      var t := Subst(base, s, scope);
      if t.None? then None else Some(MakePointers(t.value, dim))
    case IndexableNode(base) =>
      var t := Subst(base, s, scope);
      if t.None? then None else Some(IndexableType(t.value))
    case ArrayNode(base, dims) =>
      var t := Subst(base, s, scope);
      if t.None? then None else Some(ArrayType(t.value, dims))
    case TupleNode(items) =>
      var ts := SubstAll(items, s, scope);
      if ts.None? then None else Some(TupleType(ts.value))
    case FuncPtrNode(params, ret) =>
      var ps := SubstAll(params, s, scope);
      if ps.None? then None
      else if ret.None? then Some(PointerType(FuncType(ps.value, RefKinds(params), None)))
      else
        var r := Subst(ret.value, s, scope);
        if r.None? then None else Some(PointerType(FuncType(ps.value, RefKinds(params), r)))
  }

  /** Element-wise; a `FuncParamNode` element stands for the type it wraps. */
  function SubstAll(nodes: seq<TypeNode>, s: Bindings, scope: Scope): (r: Option<seq<Type>>)
    ensures r.Some? ==> |r.value| == |nodes|
    decreases nodes, 0
  {
    if nodes == [] then Some([])
    else
      var head := Subst(nodes[0], s, scope);
      var tail := SubstAll(nodes[1..], s, scope);
      if head.None? || tail.None? then None else Some([head.value] + tail.value)
  }

  function RefKinds(params: seq<TypeNode>): seq<bool> {
    seq(|params|, i requires 0 <= i < |params| => params[i].FuncParamNode? && params[i].isRef)
  }

  // ---------------------------------------------------------------------------------------------
  // Inference
  // ---------------------------------------------------------------------------------------------

  /** The type parameters, each with the type selected for it so far. */
  type Selection = map<string, Option<Type>>

  function Bind(sel: Selection, name: string, t: Type): Option<Selection> {
    if name !in sel then Some(sel)
    else if sel[name].None? then Some(sel[name := Some(t)])
    else if sel[name].value == t then Some(sel)
    else None
  }

  /** Peels `dim` raw pointers, each below at most one qualifier. */
  function PeelPointers(t: Type, dim: nat): Option<Type>
    decreases dim
  {
    if dim == 0 then Some(t)
    else
      var u := Unqualified(t);
      if u.PointerType? then PeelPointers(u.base, dim - 1) else None
  }

  /** The actual struct was instantiated from a template of the pattern's exported name. */
  predicate MatchesTemplate(base: TypeNode, arity: nat, u: Type, scope: Scope) {
    && base.BaseNode? && base.name in scope.templates
    && u.AppliedType?
    && u.template == scope.templates[base.name].exportedName
    && |u.args| == arity
  }

  /** `None` reports a conflict; a shape mismatch silently leaves the selection as it is. */
  function Infer(p: TypeNode, a: Type, scope: Scope, sel: Selection): Option<Selection>
    decreases p, 1
  {
    var u := Unqualified(a);
    match p
    case FuncParamNode(_, base) => Infer(base, a, scope, sel)
    case BaseNode(name) => Bind(sel, name, a)
    case ConstNode(base) => Infer(base, u, scope, sel)
    case PointerNode(base, dim) =>
      var t := PeelPointers(a, dim);
      if t.None? then Some(sel) else Infer(base, t.value, scope, sel)
    case IndexableNode(base) => if u.IndexableType? then Infer(base, u.base, scope, sel) else Some(sel)
    case ArrayNode(base, _) => if u.ArrayType? then Infer(base, u.base, scope, sel) else Some(sel)
    case TupleNode(items) =>
      if u.TupleType? && |u.items| == |items| then InferAll(items, u.items, scope, sel) else Some(sel)
    case FuncPtrNode(params, ret) =>
      if u.PointerType? && u.base.FuncType? && |u.base.params| == |params| then
        var inner := InferAll(params, u.base.params, scope, sel);
        if inner.None? || ret.None? || u.base.ret.None? then inner
        else Infer(ret.value, u.base.ret.value, scope, inner.value)
      else Some(sel)
    case AppliedNode(base, args) =>
      if MatchesTemplate(base, |args|, u, scope) then InferAll(args, u.args, scope, sel)
      else Some(sel)
    case AnyNode | DynNode(_) => Some(sel)
  }

  function InferAll(ps: seq<TypeNode>, ts: seq<Type>, scope: Scope, sel: Selection): Option<Selection>
    requires |ps| == |ts|
    decreases ps, 0
  {
    if ps == [] then Some(sel)
    else
      var first := Infer(ps[0], ts[0], scope, sel);
      if first.None? then None else InferAll(ps[1..], ts[1..], scope, first.value)
  }

  // ---------------------------------------------------------------------------------------------
  // Inference solves a set of constraints
  // ---------------------------------------------------------------------------------------------

  type Constraint = (string, Type)

  /** The name/type pairs that matching p against a compares, in order. */
  function Constraints(p: TypeNode, a: Type, scope: Scope): seq<Constraint>
    decreases p, 1
  {
    var u := Unqualified(a);
    match p
    case FuncParamNode(_, base) => Constraints(base, a, scope)
    case BaseNode(name) => [(name, a)]
    case ConstNode(base) => Constraints(base, u, scope)
    case PointerNode(base, dim) =>
      var t := PeelPointers(a, dim);
      if t.None? then [] else Constraints(base, t.value, scope)
    case IndexableNode(base) => if u.IndexableType? then Constraints(base, u.base, scope) else []
    case ArrayNode(base, _) => if u.ArrayType? then Constraints(base, u.base, scope) else []
    case TupleNode(items) =>
      if u.TupleType? && |u.items| == |items| then ConstraintsAll(items, u.items, scope) else []
    case FuncPtrNode(params, ret) =>
      if u.PointerType? && u.base.FuncType? && |u.base.params| == |params| then
        ConstraintsAll(params, u.base.params, scope)
        + (if ret.None? || u.base.ret.None? then [] else Constraints(ret.value, u.base.ret.value, scope))
      else []
    case AppliedNode(base, args) =>
      if MatchesTemplate(base, |args|, u, scope) then ConstraintsAll(args, u.args, scope)
      else []
    case AnyNode | DynNode(_) => []
  }

  function ConstraintsAll(ps: seq<TypeNode>, ts: seq<Type>, scope: Scope): seq<Constraint>
    requires |ps| == |ts|
    decreases ps, 0
  {
    if ps == [] then []
    else Constraints(ps[0], ts[0], scope) + ConstraintsAll(ps[1..], ts[1..], scope)
  }

  function Solve(cs: seq<Constraint>, sel: Selection): Option<Selection> {
    if cs == [] then Some(sel)
    else
      var first := Bind(sel, cs[0].0, cs[0].1);
      if first.None? then None else Solve(cs[1..], first.value)
  }

  lemma {:induction false} SolveAppend(cs: seq<Constraint>, ds: seq<Constraint>, sel: Selection)
    ensures Solve(cs + ds, sel)
         == if Solve(cs, sel).None? then None else Solve(ds, Solve(cs, sel).value)
  {
    if cs == [] {
      assert cs + ds == ds;
    } else {
      assert (cs + ds)[1..] == cs[1..] + ds;
      var first := Bind(sel, cs[0].0, cs[0].1);
      if first.Some? {
        SolveAppend(cs[1..], ds, first.value);
      }
    }
  }

  lemma {:induction false} InferSolves(p: TypeNode, a: Type, scope: Scope, sel: Selection)
    ensures Infer(p, a, scope, sel) == Solve(Constraints(p, a, scope), sel)
    decreases p, 1
  {
    var u := Unqualified(a);
    match p
    case FuncParamNode(_, base) => InferSolves(base, a, scope, sel);
    case BaseNode(name) =>
    case ConstNode(base) => InferSolves(base, u, scope, sel);
    case PointerNode(base, dim) =>
      if PeelPointers(a, dim).Some? {
        InferSolves(base, PeelPointers(a, dim).value, scope, sel);
      }
    case IndexableNode(base) =>
      if u.IndexableType? {
        InferSolves(base, u.base, scope, sel);
      }
    case ArrayNode(base, _) =>
      if u.ArrayType? {
        InferSolves(base, u.base, scope, sel);
      }
    case TupleNode(items) =>
      if u.TupleType? && |u.items| == |items| {
        InferAllSolves(items, u.items, scope, sel);
      }
    case FuncPtrNode(params, ret) =>
      if u.PointerType? && u.base.FuncType? && |u.base.params| == |params| {
        InferAllSolves(params, u.base.params, scope, sel);
        var cs := ConstraintsAll(params, u.base.params, scope);
        if ret.Some? && u.base.ret.Some? {
          SolveAppend(cs, Constraints(ret.value, u.base.ret.value, scope), sel);
          if Solve(cs, sel).Some? {
            InferSolves(ret.value, u.base.ret.value, scope, Solve(cs, sel).value);
          }
        } else {
          assert cs + [] == cs;
        }
      }
    case AppliedNode(base, args) =>
      if MatchesTemplate(base, |args|, u, scope) {
        InferAllSolves(args, u.args, scope, sel);
      }
    case AnyNode | DynNode(_) =>
  }

  lemma {:induction false} InferAllSolves(ps: seq<TypeNode>, ts: seq<Type>, scope: Scope, sel: Selection)
    requires |ps| == |ts|
    ensures InferAll(ps, ts, scope, sel) == Solve(ConstraintsAll(ps, ts, scope), sel)
    decreases ps, 0
  {
    if ps == [] {
    } else {
      InferSolves(ps[0], ts[0], scope, sel);
      SolveAppend(Constraints(ps[0], ts[0], scope), ConstraintsAll(ps[1..], ts[1..], scope), sel);
      var first := Infer(ps[0], ts[0], scope, sel);
      if first.Some? {
        InferAllSolves(ps[1..], ts[1..], scope, first.value);
      }
    }
  }

  // ---------------------------------------------------------------------------------------------
  // What a solution is, without reference to any order
  // ---------------------------------------------------------------------------------------------

  predicate Agree(sel: Selection, c: Constraint) {
    c.0 in sel && sel[c.0].Some? ==> sel[c.0].value == c.1
  }

  /** No constraint contradicts the selection or another constraint on the same parameter. */
  predicate Consistent(cs: set<Constraint>, sel: Selection) {
    && (forall c <- cs :: Agree(sel, c))
    && (forall c <- cs, d <- cs :: c.0 == d.0 && c.0 in sel ==> c.1 == d.1)
  }

  /** `r` keeps what `sel` had selected, adds what the constraints say, and nothing else. */
  predicate Solution(cs: set<Constraint>, sel: Selection, r: Selection) {
    && r.Keys == sel.Keys
    && (forall c <- cs :: c.0 in sel ==> r[c.0] == Some(c.1))
    && (forall k <- sel :: sel[k].Some? ==> r[k] == sel[k])
    && (forall k <- sel :: r[k].Some? && sel[k].None? ==> (k, r[k].value) in cs)
  }

  function Elements(cs: seq<Constraint>): set<Constraint> {
    set c <- cs
  }

  lemma {:induction false} SolveIffConsistent(cs: seq<Constraint>, sel: Selection)
    ensures Solve(cs, sel).Some? <==> Consistent(Elements(cs), sel)
    ensures Solve(cs, sel).Some? ==> Solution(Elements(cs), sel, Solve(cs, sel).value)
  {
    if cs == [] {
    } else {
      var c, rest := cs[0], Elements(cs[1..]);
      assert Elements(cs) == {c} + rest;
      var first := Bind(sel, c.0, c.1);
      if first.Some? {
        SolveIffConsistent(cs[1..], first.value);
        ConsistentStep(c, rest, sel, first.value);
      } else {
        assert !Agree(sel, c);
      }
    }
  }

  lemma ConsistentStep(c: Constraint, rest: set<Constraint>, sel: Selection, next: Selection)
    requires Bind(sel, c.0, c.1) == Some(next)
    ensures Consistent({c} + rest, sel) <==> Consistent(rest, next)
  {
    if Consistent(rest, next) {
      forall d <- rest ensures d.0 == c.0 && c.0 in sel ==> d.1 == c.1 {
        assert Agree(next, d);
      }
      forall d <- {c} + rest ensures Agree(sel, d) {
        if d in rest {
          assert Agree(next, d);
        }
      }
    }
    if Consistent({c} + rest, sel) {
      forall d <- rest ensures Agree(next, d) {
        assert Agree(sel, d);
      }
    }
  }

  /** Inference succeeds exactly when its constraints are consistent; no earlier selection changes. */
  lemma InferenceIsConstraintSolving(p: TypeNode, a: Type, scope: Scope, sel: Selection)
    ensures var cs := Elements(Constraints(p, a, scope));
      && (Infer(p, a, scope, sel).Some? <==> Consistent(cs, sel))
      && (Infer(p, a, scope, sel).Some? ==> Solution(cs, sel, Infer(p, a, scope, sel).value))
  {
    InferSolves(p, a, scope, sel);
    SolveIffConsistent(Constraints(p, a, scope), sel);
  }

  /** A bound parameter is never rebound, and no parameter appears or disappears. */
  lemma InferenceIsMonotone(p: TypeNode, a: Type, scope: Scope, sel: Selection, k: string)
    requires Infer(p, a, scope, sel).Some? && k in sel
    ensures Infer(p, a, scope, sel).value.Keys == sel.Keys
    ensures sel[k].Some? ==> Infer(p, a, scope, sel).value[k] == sel[k]
  {
    InferenceIsConstraintSolving(p, a, scope, sel);
  }

  // ---------------------------------------------------------------------------------------------
  // Order of the arguments
  // ---------------------------------------------------------------------------------------------

  type Argument = (TypeNode, Type)

  function InferArguments(args: seq<Argument>, scope: Scope, sel: Selection): Option<Selection> {
    if args == [] then Some(sel)
    else
      var first := Infer(args[0].0, args[0].1, scope, sel);
      if first.None? then None else InferArguments(args[1..], scope, first.value)
  }

  function ArgumentConstraints(args: seq<Argument>, scope: Scope): seq<Constraint> {
    if args == [] then []
    else Constraints(args[0].0, args[0].1, scope) + ArgumentConstraints(args[1..], scope)
  }

  lemma {:induction false} InferArgumentsSolves(args: seq<Argument>, scope: Scope, sel: Selection)
    ensures InferArguments(args, scope, sel) == Solve(ArgumentConstraints(args, scope), sel)
  {
    if args == [] {
    } else {
      InferSolves(args[0].0, args[0].1, scope, sel);
      SolveAppend(Constraints(args[0].0, args[0].1, scope), ArgumentConstraints(args[1..], scope), sel);
      var first := Infer(args[0].0, args[0].1, scope, sel);
      if first.Some? {
        InferArgumentsSolves(args[1..], scope, first.value);
      }
    }
  }

  lemma {:induction false} ArgumentConstraintElements(args: seq<Argument>, scope: Scope, c: Constraint)
    ensures c in ArgumentConstraints(args, scope)
       <==> exists g <- args :: c in Constraints(g.0, g.1, scope)
  {
    if args == [] {
    } else {
      ArgumentConstraintElements(args[1..], scope, c);
      assert args == [args[0]] + args[1..];
    }
  }

  lemma SolutionUnique(cs: set<Constraint>, sel: Selection, r: Selection, s: Selection)
    requires Solution(cs, sel, r) && Solution(cs, sel, s)
    ensures r == s
  {
    forall k <- sel ensures r[k] == s[k] {
      if sel[k].None? && r[k].Some? {
        assert (k, r[k].value) in cs;
      }
      if sel[k].None? && s[k].Some? {
        assert (k, s[k].value) in cs;
      }
    }
  }

  /** The order in which arguments are matched, and how often an argument is repeated, is irrelevant:
      both calls conflict, or both select the same types. */
  lemma InferenceIgnoresOrder(args: seq<Argument>, other: seq<Argument>, scope: Scope, sel: Selection)
    requires forall g :: g in args <==> g in other
    ensures InferArguments(args, scope, sel) == InferArguments(other, scope, sel)
  {
    var cs, ds := ArgumentConstraints(args, scope), ArgumentConstraints(other, scope);
    forall c ensures c in cs <==> c in ds {
      ArgumentConstraintElements(args, scope, c);
      ArgumentConstraintElements(other, scope, c);
    }
    assert Elements(cs) == Elements(ds);
    InferArgumentsSolves(args, scope, sel);
    InferArgumentsSolves(other, scope, sel);
    SolveIffConsistent(cs, sel);
    SolveIffConsistent(ds, sel);
    if Solve(cs, sel).Some? {
      SolutionUnique(Elements(cs), sel, Solve(cs, sel).value, Solve(ds, sel).value);
    }
  }

  // ---------------------------------------------------------------------------------------------
  // Inference undoes substitution
  // ---------------------------------------------------------------------------------------------

  /** The base names that matching against a substituted type reaches. */
  function Names(p: TypeNode): set<string>
    decreases p, 1
  {
    match p
    case BaseNode(name) => {name}
    case AppliedNode(_, args) => NamesAll(args)
    case ConstNode(base) => Names(base)
    case PointerNode(base, _) => Names(base)
    case IndexableNode(base) => Names(base)
    case ArrayNode(base, _) => Names(base)
    case TupleNode(items) => NamesAll(items)
    case FuncPtrNode(params, ret) => NamesAll(params) + (if ret.Some? then Names(ret.value) else {})
    case FuncParamNode(_, base) => Names(base)
    case AnyNode | DynNode(_) => {}
  }

  function NamesAll(ps: seq<TypeNode>): set<string>
    decreases ps, 0
  {
    if ps == [] then {} else Names(ps[0]) + NamesAll(ps[1..])
  }

  /** A qualifier in the pattern ends up on a parameter whose own type is already const, and is lost
      because qualifiers do not stack. `below` tells whether a qualifier stands directly above p. */
  predicate LosesConst(p: TypeNode, s: Bindings, below: bool)
    decreases p, 1
  {
    match p
    case BaseNode(name) => below && name in s && s[name].ConstType?
    case AppliedNode(_, args) => LosesConstAny(args, s)
    case ConstNode(base) => LosesConst(base, s, true)
    case PointerNode(base, dim) => LosesConst(base, s, below && dim == 0)
    case IndexableNode(base) => LosesConst(base, s, false)
    case ArrayNode(base, _) => LosesConst(base, s, false)
    case TupleNode(items) => LosesConstAny(items, s)
    case FuncPtrNode(params, ret) => LosesConstAny(params, s) || (ret.Some? && LosesConst(ret.value, s, false))
    case FuncParamNode(_, base) => LosesConst(base, s, below)
    case AnyNode | DynNode(_) => false
  }

  predicate LosesConstAny(ps: seq<TypeNode>, s: Bindings)
    decreases ps, 0
  {
    ps != [] && (LosesConst(ps[0], s, false) || LosesConstAny(ps[1..], s))
  }

  /** Types as the type table builds them: no qualifier directly on a qualifier. */
  predicate Canonical(t: Type) {
    t.ConstType? ==> !t.base.ConstType?
  }

  predicate CanonicalBindings(s: Bindings) {
    forall k <- s :: Canonical(s[k])
  }

  predicate CanonicalScope(scope: Scope) {
    && (forall k <- scope.named :: Canonical(scope.named[k]))
    && (forall k <- scope.dyns :: Canonical(scope.dyns[k]))
  }

  lemma {:induction false} SubstOuterCanonical(p: TypeNode, s: Bindings, scope: Scope)
    requires CanonicalBindings(s) && CanonicalScope(scope)
    ensures Subst(p, s, scope).Some? ==> Canonical(Subst(p, s, scope).value)
  {
    match p
    case ConstNode(base) => SubstOuterCanonical(base, s, scope);
    case PointerNode(base, dim) => SubstOuterCanonical(base, s, scope);
    case FuncParamNode(_, base) => SubstOuterCanonical(base, s, scope);
    case _ =>
  }

  /** No qualifier directly on a qualifier anywhere inside the type. */
  predicate CanonicalThroughout(t: Type)
    decreases t, 1
  {
    match t
    case ConstType(base) => !base.ConstType? && CanonicalThroughout(base)
    case PointerType(base) => CanonicalThroughout(base)
    case IndexableType(base) => CanonicalThroughout(base)
    case ArrayType(base, _) => CanonicalThroughout(base)
    case TupleType(items) => AllCanonical(items)
    case AppliedType(_, args) => AllCanonical(args)
    case FuncType(params, _, ret) => AllCanonical(params) && (ret.Some? ==> CanonicalThroughout(ret.value))
    case AnyType | NamedType(_) | DynType(_) => true
  }

  predicate AllCanonical(ts: seq<Type>)
    decreases ts, 0
  {
    ts != [] ==> CanonicalThroughout(ts[0]) && AllCanonical(ts[1..])
  }

  predicate CanonicalInside(s: Bindings, scope: Scope) {
    && (forall k <- s :: CanonicalThroughout(s[k]))
    && (forall k <- scope.named :: CanonicalThroughout(scope.named[k]))
    && (forall k <- scope.dyns :: CanonicalThroughout(scope.dyns[k]))
  }

  /** Substitution never stacks qualifiers at any depth, whatever the pattern. */
  lemma {:induction false} SubstCanonical(p: TypeNode, s: Bindings, scope: Scope)
    requires CanonicalInside(s, scope)
    ensures Subst(p, s, scope).Some? ==> CanonicalThroughout(Subst(p, s, scope).value)
    decreases p, 1
  {
    match p
    case FuncParamNode(_, base) => SubstCanonical(base, s, scope);
    case ConstNode(base) => SubstCanonical(base, s, scope);
    case PointerNode(base, dim) =>
      SubstCanonical(base, s, scope);
      if Subst(base, s, scope).Some? {
        PointersCanonical(Subst(base, s, scope).value, dim);
      }
    case IndexableNode(base) => SubstCanonical(base, s, scope);
    case ArrayNode(base, _) => SubstCanonical(base, s, scope);
    case TupleNode(items) => SubstAllCanonical(items, s, scope);
    case AppliedNode(_, args) => SubstAllCanonical(args, s, scope);
    case FuncPtrNode(params, ret) => SubstFuncCanonical(params, ret, s, scope);
    case AnyNode | BaseNode(_) | DynNode(_) =>
  }

  lemma {:induction false} SubstFuncCanonical(params: seq<TypeNode>, ret: Option<TypeNode>, s: Bindings, scope: Scope)
    requires CanonicalInside(s, scope)
    ensures var t := Subst(FuncPtrNode(params, ret), s, scope); t.Some? ==> CanonicalThroughout(t.value)
    decreases FuncPtrNode(params, ret), 0
  {
    SubstAllCanonical(params, s, scope);
    if ret.Some? {
      SubstCanonical(ret.value, s, scope);
    }
  }

  lemma {:induction false} SubstAllCanonical(ps: seq<TypeNode>, s: Bindings, scope: Scope)
    requires CanonicalInside(s, scope)
    ensures SubstAll(ps, s, scope).Some? ==> AllCanonical(SubstAll(ps, s, scope).value)
    decreases ps, 0
  {
    if ps != [] {
      SubstCanonical(ps[0], s, scope);
      SubstAllCanonical(ps[1..], s, scope);
    }
  }

  lemma {:induction false} PointersCanonical(t: Type, dim: nat)
    requires CanonicalThroughout(t)
    ensures CanonicalThroughout(MakePointers(t, dim))
  {
    if dim > 0 {
      PointersCanonical(t, dim - 1);
    }
  }

  lemma {:induction false} PeelMakePointers(t: Type, dim: nat)
    ensures PeelPointers(MakePointers(t, dim), dim) == Some(t)
  {
    if dim > 0 {
      PeelMakePointers(t, dim - 1);
    }
  }

  /** Every constraint on a parameter carries the type that was substituted for it. */
  predicate Faithful(cs: seq<Constraint>, s: Bindings) {
    forall c <- cs :: c.0 in s ==> c.1 == s[c.0]
  }

  function NamesOf(cs: seq<Constraint>): set<string> {
    set c <- cs :: c.0
  }

  lemma FaithfulAppend(cs: seq<Constraint>, ds: seq<Constraint>, s: Bindings)
    ensures Faithful(cs + ds, s) <==> Faithful(cs, s) && Faithful(ds, s)
    ensures NamesOf(cs + ds) == NamesOf(cs) + NamesOf(ds)
  {
    assert forall c :: c in cs + ds <==> c in cs || c in ds;
  }

  /** Matching a pattern against its own instance: `below` is set when the qualifier above the pattern
      was stripped from the instance on the way. */
  lemma {:induction false} InstanceConstraints(p: TypeNode, s: Bindings, scope: Scope, below: bool)
    requires CanonicalBindings(s) && CanonicalScope(scope) && Subst(p, s, scope).Some?
    ensures var t := Subst(p, s, scope).value;
      var cs := Constraints(p, if below then Unqualified(t) else t, scope);
      NamesOf(cs) == Names(p) && (Faithful(cs, s) <==> !LosesConst(p, s, below))
    decreases p, 1
  {
    SubstOuterCanonical(p, s, scope);
    match p
    case FuncParamNode(_, base) => InstanceConstraints(base, s, scope, below);
    case BaseNode(name) =>
    case ConstNode(base) => InstanceConstraints(base, s, scope, true);
    case PointerNode(base, dim) =>
      InstanceConstraints(base, s, scope, below && dim == 0);
      PeelMakePointers(Subst(base, s, scope).value, dim);
    case IndexableNode(base) => InstanceConstraints(base, s, scope, false);
    case ArrayNode(base, _) => InstanceConstraints(base, s, scope, false);
    case TupleNode(items) => InstanceConstraintsAll(items, s, scope);
    case FuncPtrNode(params, ret) => InstanceConstraintsFunc(params, ret, s, scope, below);
    case AppliedNode(base, args) => InstanceConstraintsAll(args, s, scope);
    case AnyNode | DynNode(_) =>
  }

  lemma {:induction false} InstanceConstraintsFunc(params: seq<TypeNode>, ret: Option<TypeNode>, s: Bindings,
      scope: Scope, below: bool)
    requires CanonicalBindings(s) && CanonicalScope(scope) && Subst(FuncPtrNode(params, ret), s, scope).Some?
    ensures var p := FuncPtrNode(params, ret);
      var t := Subst(p, s, scope).value;
      var cs := Constraints(p, if below then Unqualified(t) else t, scope);
      NamesOf(cs) == Names(p) && (Faithful(cs, s) <==> !LosesConst(p, s, below))
    decreases FuncPtrNode(params, ret), 0
  {
    InstanceConstraintsAll(params, s, scope);
    var cs := ConstraintsAll(params, SubstAll(params, s, scope).value, scope);
    if ret.Some? {
      InstanceConstraints(ret.value, s, scope, false);
      FaithfulAppend(cs, Constraints(ret.value, Subst(ret.value, s, scope).value, scope), s);
    } else {
      assert cs + [] == cs;
    }
  }

  lemma {:induction false} InstanceConstraintsAll(ps: seq<TypeNode>, s: Bindings, scope: Scope)
    requires CanonicalBindings(s) && CanonicalScope(scope) && SubstAll(ps, s, scope).Some?
    ensures var cs := ConstraintsAll(ps, SubstAll(ps, s, scope).value, scope);
      NamesOf(cs) == NamesAll(ps) && (Faithful(cs, s) <==> !LosesConstAny(ps, s))
    decreases ps, 0
  {
    if ps == [] {
    } else {
      InstanceConstraints(ps[0], s, scope, false);
      InstanceConstraintsAll(ps[1..], s, scope);
      var ts := SubstAll(ps, s, scope).value;
      assert ts[1..] == SubstAll(ps[1..], s, scope).value;
      FaithfulAppend(Constraints(ps[0], ts[0], scope), ConstraintsAll(ps[1..], ts[1..], scope), s);
    }
  }

  /** The selection in which exactly the parameters in `known` are bound, to their substituted types. */
  function Restricted(s: Bindings, known: set<string>): Selection {
    map k <- s :: if k in known then Some(s[k]) else None
  }

  /** Matching a pattern against its instance recovers the substitution on every parameter it
      mentions, and touches no other; exactly when no qualifier was lost on the way. */
  lemma InferenceUndoesSubstitution(p: TypeNode, s: Bindings, scope: Scope, known: set<string>)
    requires CanonicalBindings(s) && CanonicalScope(scope) && Subst(p, s, scope).Some?
    ensures Infer(p, Subst(p, s, scope).value, scope, Restricted(s, known))
         == Some(Restricted(s, known + Names(p)))
       <==> !LosesConst(p, s, false)
  {
    var t := Subst(p, s, scope).value;
    var cs := Constraints(p, t, scope);
    var sel, goal := Restricted(s, known), Restricted(s, known + Names(p));
    InstanceConstraints(p, s, scope, false);
    InferenceIsConstraintSolving(p, t, scope, sel);
    if Faithful(cs, s) {
      forall c <- Elements(cs) ensures Agree(sel, c) {}
      assert Consistent(Elements(cs), sel);
      var r := Infer(p, t, scope, sel).value;
      forall k <- s ensures r[k] == goal[k] {
        if k !in known && k in Names(p) {
          var c :| c in cs && c.0 == k;
          assert c in Elements(cs);
        }
        if k !in known && r[k].Some? {
          assert (k, r[k].value) in Elements(cs);
        }
      }
      assert r == goal;
    } else {
      var c :| c in cs && c.0 in s && c.1 != s[c.0];
      assert c in Elements(cs) && c.0 in Names(p);
    }
  }

  /** `T const` with T an `i32 const` is an `i32 const`, and matching it again gives T the type i32. */
  lemma ConstIsLost(scope: Scope)
    ensures var i32 := NamedType("i32");
      var p, s := ConstNode(BaseNode("T")), map["T" := ConstType(i32)];
      && LosesConst(p, s, false)
      && Subst(p, s, scope) == Some(ConstType(i32))
      && Infer(p, ConstType(i32), scope, map["T" := None]) == Some(map["T" := Some(i32)])
  {
    var p, s := ConstNode(BaseNode("T")), map["T" := ConstType(NamedType("i32"))];
    assert Subst(BaseNode("T"), s, scope) == Some(s["T"]);
    var unbound: Selection := map["T" := None];
    assert unbound["T" := Some(NamedType("i32"))] == map["T" := Some(NamedType("i32"))];
    assert Infer(BaseNode("T"), NamedType("i32"), scope, unbound) == Bind(unbound, "T", NamedType("i32"));
  }

  // ---------------------------------------------------------------------------------------------
  // Soundness: substituting what was inferred
  // ---------------------------------------------------------------------------------------------

  /** The part of a type that inference compares: qualifiers, array dimensions and the binding kinds
      of function parameters are dropped. */
  function Erase(t: Type): Type
    decreases t, 1
  {
    match t
    case ConstType(base) => Erase(base)
    case PointerType(base) => PointerType(Erase(base))
    case IndexableType(base) => IndexableType(Erase(base))
    case ArrayType(base, _) => ArrayType(Erase(base), [])
    case TupleType(items) => TupleType(EraseAll(items))
    case AppliedType(template, args) => AppliedType(template, EraseAll(args))
    case FuncType(params, _, ret) =>
      FuncType(EraseAll(params), [], if ret.Some? then Some(Erase(ret.value)) else None)
    case AnyType | NamedType(_) | DynType(_) => t
  }

  function EraseAll(ts: seq<Type>): (r: seq<Type>)
    ensures |r| == |ts|
    decreases ts, 0
  {
    if ts == [] then [] else [Erase(ts[0])] + EraseAll(ts[1..])
  }

  /** Argument types: nowhere a qualifier on a qualifier or on a bare function type. */
  predicate WellFormed(t: Type)
    decreases t, 1
  {
    match t
    case ConstType(base) => !base.ConstType? && !base.FuncType? && WellFormed(base)
    case PointerType(base) => WellFormed(base)
    case IndexableType(base) => WellFormed(base)
    case ArrayType(base, _) => WellFormed(base)
    case TupleType(items) => WellFormedAll(items)
    case AppliedType(_, args) => WellFormedAll(args)
    case FuncType(params, _, ret) => WellFormedAll(params) && (ret.Some? ==> WellFormed(ret.value))
    case AnyType | NamedType(_) | DynType(_) => true
  }

  predicate WellFormedAll(ts: seq<Type>)
    decreases ts, 0
  {
    ts != [] ==> WellFormed(ts[0]) && WellFormedAll(ts[1..])
  }

  /** No branch of the matching bails out, and the parts of the pattern that mention no parameter are
      what they should be. Inference itself does not look at leaves that are not parameters. */
  predicate Fits(p: TypeNode, a: Type, params: set<string>, scope: Scope)
    decreases p, 1
  {
    var u := Unqualified(a);
    match p
    case FuncParamNode(_, base) => Fits(base, a, params, scope)
    case BaseNode(name) => name in params || (name in scope.named && Erase(scope.named[name]) == Erase(a))
    case ConstNode(base) => Fits(base, u, params, scope)
    case PointerNode(base, dim) =>
      PeelPointers(a, dim).Some? && Fits(base, PeelPointers(a, dim).value, params, scope)
    case IndexableNode(base) => u.IndexableType? && Fits(base, u.base, params, scope)
    case ArrayNode(base, _) => u.ArrayType? && Fits(base, u.base, params, scope)
    case TupleNode(items) => u.TupleType? && |u.items| == |items| && FitsAll(items, u.items, params, scope)
    case FuncPtrNode(ps, ret) =>
      && u.PointerType? && u.base.FuncType? && |u.base.params| == |ps|
      && FitsAll(ps, u.base.params, params, scope)
      && (ret.Some? <==> u.base.ret.Some?)
      && (ret.Some? ==> Fits(ret.value, u.base.ret.value, params, scope))
    case AppliedNode(base, args) =>
      && MatchesTemplate(base, |args|, u, scope)
      && scope.templates[base.name].arity == |args| != 0
      && FitsAll(args, u.args, params, scope)
    case AnyNode => u.AnyType?
    case DynNode(base) => base in scope.dyns && Erase(scope.dyns[base]) == Erase(a)
  }

  predicate FitsAll(ps: seq<TypeNode>, ts: seq<Type>, params: set<string>, scope: Scope)
    requires |ps| == |ts|
    decreases ps, 0
  {
    ps != [] ==> Fits(ps[0], ts[0], params, scope) && FitsAll(ps[1..], ts[1..], params, scope)
  }

  lemma {:induction false} EraseMakePointers(t: Type, dim: nat)
    ensures Erase(MakePointers(t, dim)) == MakePointers(Erase(t), dim)
  {
    if dim > 0 {
      EraseMakePointers(t, dim - 1);
    }
  }

  lemma {:induction false} MakePointersInjective(x: Type, y: Type, dim: nat)
    requires MakePointers(x, dim) == MakePointers(y, dim)
    ensures x == y
  {
    if dim > 0 {
      MakePointersInjective(x, y, dim - 1);
    }
  }

  lemma {:induction false} PeelErase(a: Type, dim: nat, x: Type)
    requires WellFormed(a)
    ensures var t := PeelPointers(a, dim);
      if t.Some? then WellFormed(t.value) && Erase(a) == MakePointers(Erase(t.value), dim)
      else Erase(a) != MakePointers(x, dim)
  {
    if dim > 0 && Unqualified(a).PointerType? {
      var u := Unqualified(a);
      PeelErase(u.base, dim - 1, x);
    }
  }

  /** What erasure does to a type below its qualifier. */
  function ErasedShape(u: Type): Type
    requires !u.ConstType?
  {
    match u
    case PointerType(base) => PointerType(Erase(base))
    case IndexableType(base) => IndexableType(Erase(base))
    case ArrayType(base, _) => ArrayType(Erase(base), [])
    case TupleType(items) => TupleType(EraseAll(items))
    case AppliedType(template, args) => AppliedType(template, EraseAll(args))
    case FuncType(params, _, ret) =>
      FuncType(EraseAll(params), [], if ret.Some? then Some(Erase(ret.value)) else None)
    case AnyType | NamedType(_) | DynType(_) => u
  }

  lemma EraseUnqualified(a: Type)
    requires WellFormed(a)
    ensures var u := Unqualified(a); WellFormed(u) && !u.ConstType? && Erase(a) == ErasedShape(u)
  {
    assert Erase(a) == Erase(Unqualified(a));
  }

  predicate SameErasure(r: Option<Type>, a: Type) {
    r.Some? && Erase(r.value) == Erase(a)
  }

  /** A pattern whose constraints the bindings meet reproduces the actual type exactly when it fits. */
  lemma {:induction false} SubstReproduces(p: TypeNode, a: Type, s: Bindings, scope: Scope)
    requires WellFormed(a) && Faithful(Constraints(p, a, scope), s)
    ensures SameErasure(Subst(p, s, scope), a) <==> Fits(p, a, s.Keys, scope)
    decreases p, 1
  {
    var u := Unqualified(a);
    EraseUnqualified(a);
    match p
    case FuncParamNode(_, base) => SubstReproduces(base, a, s, scope);
    case BaseNode(name) =>
    case ConstNode(base) => SubstReproduces(base, u, s, scope);
    case PointerNode(base, dim) => SubstReproducesPointer(base, dim, a, s, scope);
    case IndexableNode(base) => SubstReproducesElement(p, a, s, scope);
    case ArrayNode(base, _) => SubstReproducesElement(p, a, s, scope);
    case TupleNode(items) => SubstReproducesTuple(items, a, s, scope);
    case FuncPtrNode(params, ret) =>
      if PointsToFunc(a, |params|) {
        SubstReproducesFunc(params, ret, a, s, scope);
      } else {
        NotAFunction(params, ret, a, s, scope);
      }
    case AppliedNode(base, args) => SubstReproducesApplied(base, args, a, s, scope);
    case AnyNode =>
    case DynNode(_) =>
  }

  lemma {:induction false} SubstReproducesElement(p: TypeNode, a: Type, s: Bindings, scope: Scope)
    requires p.IndexableNode? || p.ArrayNode?
    requires WellFormed(a) && Faithful(Constraints(p, a, scope), s)
    ensures SameErasure(Subst(p, s, scope), a) <==> Fits(p, a, s.Keys, scope)
    decreases p, 0
  {
    var u := Unqualified(a);
    EraseUnqualified(a);
    if (if p.IndexableNode? then u.IndexableType? else u.ArrayType?) {
      SubstReproduces(p.base, u.base, s, scope);
    }
  }

  lemma {:induction false} SubstReproducesTuple(items: seq<TypeNode>, a: Type, s: Bindings, scope: Scope)
    requires WellFormed(a) && Faithful(Constraints(TupleNode(items), a, scope), s)
    ensures SameErasure(Subst(TupleNode(items), s, scope), a) <==> Fits(TupleNode(items), a, s.Keys, scope)
    decreases TupleNode(items), 0
  {
    var u := Unqualified(a);
    EraseUnqualified(a);
    if u.TupleType? && |u.items| == |items| {
      SubstReproducesAll(items, u.items, s, scope);
    }
  }

  lemma {:induction false} SubstReproducesApplied(base: TypeNode, args: seq<TypeNode>, a: Type, s: Bindings,
                                                  scope: Scope)
    requires WellFormed(a) && Faithful(Constraints(AppliedNode(base, args), a, scope), s)
    ensures SameErasure(Subst(AppliedNode(base, args), s, scope), a)
       <==> Fits(AppliedNode(base, args), a, s.Keys, scope)
    decreases AppliedNode(base, args), 0
  {
    var u := Unqualified(a);
    EraseUnqualified(a);
    if MatchesTemplate(base, |args|, u, scope) {
      SubstReproducesAll(args, u.args, s, scope);
    }
  }

  lemma {:induction false} SubstReproducesPointer(base: TypeNode, dim: nat, a: Type, s: Bindings, scope: Scope)
    requires WellFormed(a) && Faithful(Constraints(PointerNode(base, dim), a, scope), s)
    ensures SameErasure(Subst(PointerNode(base, dim), s, scope), a) <==> Fits(PointerNode(base, dim), a, s.Keys, scope)
    decreases base, 2
  {
    var t, x := PeelPointers(a, dim), Subst(base, s, scope);
    PeelErase(a, dim, if x.Some? then Erase(x.value) else a);
    if t.Some? {
      SubstReproduces(base, t.value, s, scope);
    }
    if x.Some? {
      EraseMakePointers(x.value, dim);
      if t.Some? && MakePointers(Erase(x.value), dim) == Erase(a) {
        MakePointersInjective(Erase(x.value), Erase(t.value), dim);
      }
    }
  }

  predicate PointsToFunc(a: Type, arity: nat) {
    var u := Unqualified(a);
    u.PointerType? && u.base.FuncType? && |u.base.params| == arity
  }

  lemma NotAFunction(params: seq<TypeNode>, ret: Option<TypeNode>, a: Type, s: Bindings, scope: Scope)
    requires WellFormed(a) && !PointsToFunc(a, |params|)
    ensures !SameErasure(Subst(FuncPtrNode(params, ret), s, scope), a)
    ensures !Fits(FuncPtrNode(params, ret), a, s.Keys, scope)
  {
    var u := Unqualified(a);
    EraseUnqualified(a);
    if u.PointerType? {
      EraseUnqualified(u.base);
    }
    var r := Subst(FuncPtrNode(params, ret), s, scope);
    if r.Some? {
      var f := r.value.base;
      assert Erase(r.value) == PointerType(Erase(f)) && Erase(f) == ErasedShape(f);
    }
  }

  lemma {:induction false} SubstReproducesFunc(params: seq<TypeNode>, ret: Option<TypeNode>, a: Type, s: Bindings,
      scope: Scope)
    requires WellFormed(a) && Faithful(Constraints(FuncPtrNode(params, ret), a, scope), s)
    requires PointsToFunc(a, |params|)
    ensures SameErasure(Subst(FuncPtrNode(params, ret), s, scope), a)
       <==> Fits(FuncPtrNode(params, ret), a, s.Keys, scope)
    decreases FuncPtrNode(params, ret), 0
  {
    var f := Unqualified(a).base;
    EraseUnqualified(a);
    EraseUnqualified(f);
    var cs := ConstraintsAll(params, f.params, scope);
    if ret.Some? && f.ret.Some? {
      FaithfulAppend(cs, Constraints(ret.value, f.ret.value, scope), s);
      SubstReproduces(ret.value, f.ret.value, s, scope);
    } else {
      assert cs + [] == cs;
    }
    SubstReproducesAll(params, f.params, s, scope);
    var r := Subst(FuncPtrNode(params, ret), s, scope);
    if r.Some? {
      assert Erase(r.value) == PointerType(Erase(r.value.base)) && Erase(r.value.base) == ErasedShape(r.value.base);
    }
  }

  lemma {:induction false} SubstReproducesAll(ps: seq<TypeNode>, ts: seq<Type>, s: Bindings, scope: Scope)
    requires |ps| == |ts| && WellFormedAll(ts) && Faithful(ConstraintsAll(ps, ts, scope), s)
    ensures (SubstAll(ps, s, scope).Some? && EraseAll(SubstAll(ps, s, scope).value) == EraseAll(ts))
       <==> FitsAll(ps, ts, s.Keys, scope)
    decreases ps, 0
  {
    if ps == [] {
    } else {
      FaithfulAppend(Constraints(ps[0], ts[0], scope), ConstraintsAll(ps[1..], ts[1..], scope), s);
      SubstReproduces(ps[0], ts[0], s, scope);
      SubstReproducesAll(ps[1..], ts[1..], s, scope);
      var r := SubstAll(ps, s, scope);
      if r.Some? {
        assert r.value[1..] == SubstAll(ps[1..], s, scope).value;
        assert EraseAll(r.value) == [Erase(r.value[0])] + EraseAll(r.value[1..]);
        assert EraseAll(ts) == [Erase(ts[0])] + EraseAll(ts[1..]);
        assert EraseAll(r.value)[1..] == EraseAll(r.value[1..]);
        assert EraseAll(ts)[1..] == EraseAll(ts[1..]);
      }
    }
  }

  /** When every parameter was inferred, instantiating the signature type gives back the argument type,
      up to qualifiers, dimensions and binding kinds, exactly when the pattern fits the argument. */
  lemma InferenceIsSound(p: TypeNode, a: Type, scope: Scope, sel: Selection, s: Bindings)
    requires WellFormed(a) && Infer(p, a, scope, sel).Some?
    requires s.Keys == sel.Keys && forall k <- sel :: Infer(p, a, scope, sel).value.Keys == sel.Keys
                                                   && Infer(p, a, scope, sel).value[k] == Some(s[k])
    ensures SameErasure(Subst(p, s, scope), a) <==> Fits(p, a, s.Keys, scope)
  {
    InferenceIsConstraintSolving(p, a, scope, sel);
    forall c <- Constraints(p, a, scope) ensures c.0 in s ==> c.1 == s[c.0] {
      assert c in Elements(Constraints(p, a, scope));
    }
    SubstReproduces(p, a, s, scope);
  }

  /** `Pair[T, i32]` against `Pair[bool, f64]`: nothing bails out, T becomes bool, and the instance is another
      type. */
  lemma LeavesAreNotCompared(scope: Scope)
    requires "Pair" in scope.templates && scope.templates["Pair"].arity == 2
    requires "i32" in scope.named && scope.named["i32"] == NamedType("i32")
    ensures var pair := scope.templates["Pair"].exportedName;
      var p, s := AppliedNode(BaseNode("Pair"), [BaseNode("T"), BaseNode("i32")]), map["T" := NamedType("bool")];
      var a := AppliedType(pair, [NamedType("bool"), NamedType("f64")]);
      && Infer(p, a, scope, map["T" := None]) == Some(map["T" := Some(NamedType("bool"))])
      && !Fits(p, a, s.Keys, scope) && !SameErasure(Subst(p, s, scope), a)
  {
    var args, types := [BaseNode("T"), BaseNode("i32")], [NamedType("bool"), NamedType("f64")];
    var p, s := AppliedNode(BaseNode("Pair"), args), map["T" := NamedType("bool")];
    var a := AppliedType(scope.templates["Pair"].exportedName, types);
    var unbound: Selection := map["T" := None];
    var bound: Selection := map["T" := Some(NamedType("bool"))];
    assert unbound["T" := Some(NamedType("bool"))] == bound;
    assert args[1..] == [BaseNode("i32")] && types[1..] == [NamedType("f64")];
    assert InferAll(args[1..], types[1..], scope, bound) == Some(bound);
    assert InferAll(args, types, scope, unbound) == Some(bound);
    assert !FitsAll(args[1..], types[1..], s.Keys, scope);
    assert !FitsAll(args, types, s.Keys, scope) && !Fits(p, a, s.Keys, scope);
    InferenceIsSound(p, a, scope, unbound, s);
  }

  // ---------------------------------------------------------------------------------------------
  // Type arguments of a whole call
  // ---------------------------------------------------------------------------------------------

  function Unbound(params: seq<string>): Selection {
    map k <- params :: None
  }

  /** The inferred type arguments of a call: an error when the arguments conflict or leave a parameter
      open. */
  function InferTypeArgs(params: seq<string>, args: seq<Argument>, scope: Scope): Option<Bindings> {
    var r := InferArguments(args, scope, Unbound(params));
    if r.None? || exists k <- r.value :: r.value[k].None? then None
    else Some(map k <- r.value :: r.value[k].value)
  }

  predicate Mentioned(args: seq<Argument>, k: string) {
    exists g <- args :: k in Names(g.0)
  }

  lemma InstanceArguments(args: seq<Argument>, scope: Scope, s: Bindings)
    requires CanonicalBindings(s) && CanonicalScope(scope)
    requires forall g <- args :: Subst(g.0, s, scope) == Some(g.1)
    ensures Faithful(ArgumentConstraints(args, scope), s) <==> forall g <- args :: !LosesConst(g.0, s, false)
    ensures forall k :: k in NamesOf(ArgumentConstraints(args, scope)) <==> Mentioned(args, k)
  {
    var cs := ArgumentConstraints(args, scope);
    forall g <- args, c <- Constraints(g.0, g.1, scope) ensures c in cs {
      ArgumentConstraintElements(args, scope, c);
    }
    forall g <- args
      ensures Names(g.0) == NamesOf(Constraints(g.0, g.1, scope)) <= NamesOf(cs)
      ensures Faithful(Constraints(g.0, g.1, scope), s) <==> !LosesConst(g.0, s, false)
    {
      InstanceConstraints(g.0, s, scope, false);
    }
    forall c <- cs ensures Mentioned(args, c.0) && exists g <- args :: c in Constraints(g.0, g.1, scope) {
      ArgumentConstraintElements(args, scope, c);
      var g :| g in args && c in Constraints(g.0, g.1, scope);
      assert c.0 in NamesOf(Constraints(g.0, g.1, scope));
    }
  }

  /** A call whose arguments are instances of the formal types gets its type arguments back exactly when the
      formal types mention every parameter and no qualifier was lost. */
  lemma CallRecoversTypeArgs(params: seq<string>, args: seq<Argument>, scope: Scope, s: Bindings)
    requires CanonicalBindings(s) && CanonicalScope(scope) && s.Keys == set k <- params
    requires forall g <- args :: Subst(g.0, s, scope) == Some(g.1)
    ensures InferTypeArgs(params, args, scope) == Some(s)
       <==> (forall k <- params :: Mentioned(args, k)) && forall g <- args :: !LosesConst(g.0, s, false)
  {
    var sel, cs := Unbound(params), ArgumentConstraints(args, scope);
    InferArgumentsSolves(args, scope, sel);
    SolveIffConsistent(cs, sel);
    InstanceArguments(args, scope, s);
    if Faithful(cs, s) && forall k <- params :: Mentioned(args, k) {
      assert Consistent(Elements(cs), sel);
      CoveringSolution(params, cs, s, Solve(cs, sel).value);
    }
    if InferTypeArgs(params, args, scope) == Some(s) {
      InferredIsFaithful(params, args, scope, s);
    }
  }

  lemma InferredIsFaithful(params: seq<string>, args: seq<Argument>, scope: Scope, s: Bindings)
    requires InferTypeArgs(params, args, scope) == Some(s)
    ensures s.Keys == (set k <- params) <= NamesOf(ArgumentConstraints(args, scope))
    ensures Faithful(ArgumentConstraints(args, scope), s)
  {
    var sel, cs := Unbound(params), ArgumentConstraints(args, scope);
    InferArgumentsSolves(args, scope, sel);
    SolveIffConsistent(cs, sel);
    var r := Solve(cs, sel).value;
    assert s == map k <- r :: r[k].value;
    forall c <- cs ensures c.0 in s ==> c.1 == s[c.0] {
      assert c in Elements(cs);
    }
    forall k <- s ensures k in NamesOf(cs) {
      assert (k, r[k].value) in Elements(cs);
    }
  }

  /** Faithful constraints that cover every parameter leave one solution. */
  lemma CoveringSolution(params: seq<string>, cs: seq<Constraint>, s: Bindings, r: Selection)
    requires s.Keys == (set k <- params) <= NamesOf(cs)
    requires Faithful(cs, s) && Solution(Elements(cs), Unbound(params), r)
    ensures forall k <- r :: r[k].Some?
    ensures (map k <- r :: r[k].value) == s
  {
    forall k <- r ensures r[k] == Some(s[k]) {
      var c :| c in cs && c.0 == k;
      assert c in Elements(cs);
    }
  }

  /** Whatever a call infers, each argument type is reproduced, up to qualifiers, dimensions and binding
      kinds, exactly when its formal type fits it. */
  lemma CallInferenceIsSound(params: seq<string>, args: seq<Argument>, scope: Scope, s: Bindings, g: Argument)
    requires InferTypeArgs(params, args, scope) == Some(s) && g in args && WellFormed(g.1)
    ensures s.Keys == set k <- params
    ensures SameErasure(Subst(g.0, s, scope), g.1) <==> Fits(g.0, g.1, s.Keys, scope)
  {
    InferredIsFaithful(params, args, scope, s);
    forall c <- Constraints(g.0, g.1, scope) ensures c.0 in s ==> c.1 == s[c.0] {
      ArgumentConstraintElements(args, scope, c);
    }
    SubstReproduces(g.0, g.1, s, scope);
  }

  // ---------------------------------------------------------------------------------------------
  // The analyzer's form: one selection, filled in place
  // ---------------------------------------------------------------------------------------------

  class TypeArgumentInference {
    const scope: Scope
    var selectedByName: Selection

    constructor (scope: Scope, params: seq<string>)
      ensures this.scope == scope
      ensures selectedByName.Keys == set k <- params
      ensures forall k <- params :: selectedByName[k] == None
    {
      this.scope := scope;
      selectedByName := map k <- params :: None;
    }

    method BindParameter(name: string, actual: Type) returns (ok: bool)
      modifies this
      ensures ok <==> Bind(old(selectedByName), name, actual).Some?
      ensures ok ==> selectedByName == Bind(old(selectedByName), name, actual).value
      ensures !ok ==> selectedByName == old(selectedByName)
    {
      ok := true;
      if name in selectedByName {
        if selectedByName[name].None? {
          selectedByName := selectedByName[name := Some(actual)];
        } else {
          ok := selectedByName[name].value == actual;
        }
      }
    }

    method InferFromPattern(pattern: TypeNode, actual: Type) returns (ok: bool)
      modifies this
      ensures ok <==> Infer(pattern, actual, scope, old(selectedByName)).Some?
      ensures ok ==> selectedByName == Infer(pattern, actual, scope, old(selectedByName)).value
      decreases pattern, 1
    {
      var u := Unqualified(actual);
      match pattern
      case FuncParamNode(_, base) => ok := InferFromPattern(base, actual);
      case BaseNode(name) => ok := BindParameter(name, actual);
      case ConstNode(base) => ok := InferFromPattern(base, u);
      case PointerNode(base, dim) =>
        var current := actual;
        for i := 0 to dim
          invariant PeelPointers(actual, dim) == PeelPointers(current, dim - i)
        {
          var pointer := Unqualified(current);
          if !pointer.PointerType? {
            return true;
          }
          current := pointer.base;
        }
        ok := InferFromPattern(base, current);
      case IndexableNode(base) =>
        ok := true;
        if u.IndexableType? {
          ok := InferFromPattern(base, u.base);
        }
      case ArrayNode(base, _) =>
        ok := true;
        if u.ArrayType? {
          ok := InferFromPattern(base, u.base);
        }
      case TupleNode(items) =>
        ok := true;
        if u.TupleType? && |u.items| == |items| {
          ok := InferFromPatterns(items, u.items);
        }
      case FuncPtrNode(params, ret) =>
        ok := true;
        if u.PointerType? && u.base.FuncType? && |u.base.params| == |params| {
          ok := InferFromPatterns(params, u.base.params);
          if ok && ret.Some? && u.base.ret.Some? {
            ok := InferFromPattern(ret.value, u.base.ret.value);
          }
        }
      case AppliedNode(base, args) =>
        ok := true;
        if MatchesTemplate(base, |args|, u, scope) {
          ok := InferFromPatterns(args, u.args);
        }
      case AnyNode => ok := true;
      case DynNode(_) => ok := true;
    }

    method InferFromPatterns(patterns: seq<TypeNode>, actuals: seq<Type>) returns (ok: bool)
      requires |patterns| == |actuals|
      modifies this
      ensures ok <==> InferAll(patterns, actuals, scope, old(selectedByName)).Some?
      ensures ok ==> selectedByName == InferAll(patterns, actuals, scope, old(selectedByName)).value
      decreases patterns, 0
    {
      ok := true;
      for i := 0 to |patterns|
        invariant ok
        invariant InferAll(patterns, actuals, scope, old(selectedByName))
               == InferAll(patterns[i..], actuals[i..], scope, selectedByName)
      {
        ok := InferFromPattern(patterns[i], actuals[i]);
        if !ok {
          return;
        }
        assert patterns[i..][1..] == patterns[i + 1..] && actuals[i..][1..] == actuals[i + 1..];
      }
    }
  }
}
