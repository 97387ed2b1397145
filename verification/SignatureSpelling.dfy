/** Resolved types as type expressions: what instantiating a signature type gives, with every qualifier,
    dimension and ref mark. */
module SignatureSpelling {
  import opened Wrappers
  import opened TypeSyntax
  import opened Generics
  import SpellingSubstitution

  // ---------------------------------------------------------------------------------------------
  // Writing a type down
  // ---------------------------------------------------------------------------------------------

  function Written(t: Type): TypeNode
    decreases t, 1
  {
    match t
    case AnyType => AnyNode
    case NamedType(name) => BaseNode(name)
    case AppliedType(template, args) => AppliedNode(BaseNode(template), WrittenAll(args))
    case ConstType(base) => ConstNode(Written(base))
    case DynType(text) => DynNode(BaseNode(text))
    case PointerType(base) => if base.FuncType? then Written(base) else PointerNode(Written(base), 1)
    case IndexableType(base) => IndexableNode(Written(base))
    case ArrayType(base, dims) => ArrayNode(Written(base), dims)
    case TupleType(items) => TupleNode(WrittenAll(items))
    case FuncType(params, refs, ret) =>
      FuncPtrNode(WrittenParams(params, refs), if ret.Some? then Some(Written(ret.value)) else None)
  }

  function WrittenAll(ts: seq<Type>): (r: seq<TypeNode>)
    ensures |r| == |ts|
    decreases ts, 0
  {
    if ts == [] then [] else [Written(ts[0])] + WrittenAll(ts[1..])
  }

  /** Every parameter with its ref mark. */
  function WrittenParams(params: seq<Type>, refs: seq<bool>): (r: seq<TypeNode>)
    ensures |r| == |params|
    decreases params, 0
  {
    if params == [] then []
    else
      [FuncParamNode(refs != [] && refs[0], Written(params[0]))]
        + WrittenParams(params[1..], if refs == [] then [] else refs[1..])
  }

  /** The types that values have: no qualifier on a qualifier, functions only behind a pointer. */
  predicate IsValueType(t: Type)
    decreases t, 1
  {
    match t
    case ConstType(base) => !base.ConstType? && IsValueType(base)
    case PointerType(base) =>
      if base.FuncType? then
        && |base.refs| == |base.params| && AreValueTypes(base.params)
        && (base.ret.Some? ==> IsValueType(base.ret.value))
      else IsValueType(base)
    case IndexableType(base) => IsValueType(base)
    case ArrayType(base, _) => IsValueType(base)
    case TupleType(items) => AreValueTypes(items)
    case AppliedType(_, args) => AreValueTypes(args)
    case FuncType(_, _, _) => false
    case AnyType | NamedType(_) | DynType(_) => true
  }

  predicate AreValueTypes(ts: seq<Type>)
    decreases ts, 0
  {
    ts != [] ==> IsValueType(ts[0]) && AreValueTypes(ts[1..])
  }

  /** What is written determines the type. */
  lemma {:induction false} WrittenIsInjective(t: Type, u: Type)
    requires IsValueType(t) && IsValueType(u) && Written(t) == Written(u)
    ensures t == u
    decreases t, 1
  {
    match t
    case ConstType(base) => WrittenIsInjective(base, u.base);
    case IndexableType(base) => WrittenIsInjective(base, u.base);
    case ArrayType(base, _) => WrittenIsInjective(base, u.base);
    case TupleType(items) => WrittenAllIsInjective(items, u.items);
    case AppliedType(_, args) => WrittenAllIsInjective(args, u.args);
    case PointerType(base) =>
      if base.FuncType? {
        WrittenParamsIsInjective(base.params, base.refs, u.base.params, u.base.refs);
        if base.ret.Some? {
          WrittenIsInjective(base.ret.value, u.base.ret.value);
        }
      } else {
        WrittenIsInjective(base, u.base);
      }
    case AnyType | NamedType(_) | DynType(_) =>
  }

  lemma {:induction false} WrittenAllIsInjective(ts: seq<Type>, us: seq<Type>)
    requires AreValueTypes(ts) && AreValueTypes(us) && WrittenAll(ts) == WrittenAll(us)
    ensures ts == us
    decreases ts, 0
  {
    assert |ts| == |us|;
    if ts != [] {
      assert WrittenAll(ts)[0] == WrittenAll(us)[0] && WrittenAll(ts)[1..] == WrittenAll(us)[1..];
      WrittenIsInjective(ts[0], us[0]);
      WrittenAllIsInjective(ts[1..], us[1..]);
      assert ts == [ts[0]] + ts[1..] && us == [us[0]] + us[1..];
    }
  }

  lemma {:induction false} WrittenParamsIsInjective(ts: seq<Type>, rs: seq<bool>, us: seq<Type>, qs: seq<bool>)
    requires AreValueTypes(ts) && AreValueTypes(us) && |ts| == |rs| && |us| == |qs|
    requires WrittenParams(ts, rs) == WrittenParams(us, qs)
    ensures ts == us && rs == qs
    decreases ts, 0
  {
    assert |ts| == |us|;
    if ts != [] {
      assert WrittenParams(ts, rs)[0] == WrittenParams(us, qs)[0];
      assert WrittenParams(ts, rs)[1..] == WrittenParams(us, qs)[1..];
      WrittenIsInjective(ts[0], us[0]);
      WrittenParamsIsInjective(ts[1..], rs[1..], us[1..], qs[1..]);
      assert ts == [ts[0]] + ts[1..] && us == [us[0]] + us[1..];
      assert rs == [rs[0]] + rs[1..] && qs == [qs[0]] + qs[1..];
    }
  }

  // ---------------------------------------------------------------------------------------------
  // One spelling for every type
  // ---------------------------------------------------------------------------------------------

  function SinglePointers(node: TypeNode, dim: nat): TypeNode {
    if dim == 0 then node else PointerNode(SinglePointers(node, dim - 1), 1)
  }

  /** Const once, pointers one at a time, and every parameter of a function pointer marked as one. */
  function Normal(node: TypeNode): TypeNode
    decreases node, 1
  {
    match node
    case AnyNode | BaseNode(_) | DynNode(_) => node
    case AppliedNode(base, args) => AppliedNode(base, NormalAll(args))
    case ConstNode(base) => if Normal(base).ConstNode? then Normal(base) else ConstNode(Normal(base))
    case PointerNode(base, dim) => SinglePointers(Normal(base), dim)
    case IndexableNode(base) => IndexableNode(Normal(base))
    case ArrayNode(base, dims) => ArrayNode(Normal(base), dims)
    case TupleNode(items) => TupleNode(NormalAll(items))
    case FuncPtrNode(params, ret) =>
      FuncPtrNode(NormalParams(params), if ret.Some? then Some(Normal(ret.value)) else None)
    case FuncParamNode(_, base) => Normal(base)
  }

  function NormalAll(nodes: seq<TypeNode>): (r: seq<TypeNode>)
    ensures |r| == |nodes|
    decreases nodes, 0
  {
    if nodes == [] then [] else [Normal(nodes[0])] + NormalAll(nodes[1..])
  }

  function NormalParams(params: seq<TypeNode>): (r: seq<TypeNode>)
    ensures |r| == |params|
    decreases params, 0
  {
    if params == [] then []
    else [FuncParamNode(params[0].FuncParamNode? && params[0].isRef, Normal(params[0]))] + NormalParams(params[1..])
  }

  lemma {:induction false} NormalOfWritten(t: Type)
    requires IsValueType(t)
    ensures Normal(Written(t)) == Written(t) && !Written(t).FuncParamNode?
    ensures Written(t).ConstNode? <==> t.ConstType?
    decreases t, 1
  {
    match t
    case ConstType(base) => NormalOfWritten(base);
    case PointerType(base) =>
      if base.FuncType? {
        NormalOfWrittenParams(base.params, base.refs);
        if base.ret.Some? {
          NormalOfWritten(base.ret.value);
        }
      } else {
        NormalOfWritten(base);
        assert SinglePointers(Written(base), 1) == PointerNode(SinglePointers(Written(base), 0), 1);
      }
    case IndexableType(base) => NormalOfWritten(base);
    case ArrayType(base, _) => NormalOfWritten(base);
    case TupleType(items) => NormalOfWrittenAll(items);
    case AppliedType(_, args) => NormalOfWrittenAll(args);
    case AnyType | NamedType(_) | DynType(_) =>
  }

  lemma {:induction false} NormalOfWrittenAll(ts: seq<Type>)
    requires AreValueTypes(ts)
    ensures NormalAll(WrittenAll(ts)) == WrittenAll(ts)
    decreases ts, 0
  {
    if ts != [] {
      NormalOfWritten(ts[0]);
      NormalOfWrittenAll(ts[1..]);
      assert WrittenAll(ts)[1..] == WrittenAll(ts[1..]);
    }
  }

  lemma {:induction false} NormalOfWrittenParams(ts: seq<Type>, refs: seq<bool>)
    requires AreValueTypes(ts)
    ensures NormalParams(WrittenParams(ts, refs)) == WrittenParams(ts, refs)
    decreases ts, 0
  {
    if ts != [] {
      var rest := if refs == [] then [] else refs[1..];
      NormalOfWritten(ts[0]);
      NormalOfWrittenParams(ts[1..], rest);
      assert WrittenParams(ts, refs)[1..] == WrittenParams(ts[1..], rest);
    }
  }

  // ---------------------------------------------------------------------------------------------
  // Instantiating is substituting in the type expression
  // ---------------------------------------------------------------------------------------------

  /** Names are replaced by what the signature resolves them to: parameters by their bindings, other names,
      templates and traits by what is in scope. */
  ghost predicate WritesNames(names: SpellingSubstitution.Bindings, s: Bindings, scope: Scope) {
    && (forall k <- s :: IsValueType(s[k]) && SpellingSubstitution.SubstTree(BaseNode(k), names) == Written(s[k]))
    && (forall k <- scope.named :: k !in s ==>
          IsValueType(scope.named[k])
          && SpellingSubstitution.SubstTree(BaseNode(k), names) == Written(scope.named[k]))
    && (forall k <- scope.templates ::
          SpellingSubstitution.SubstTree(BaseNode(k), names) == BaseNode(scope.templates[k].exportedName))
    && (forall b <- scope.dyns ::
          IsValueType(scope.dyns[b])
          && SpellingSubstitution.SubstTree(DynNode(b), names) == Written(scope.dyns[b]))
  }

  lemma {:induction false} WrittenPointers(t: Type, dim: nat)
    requires IsValueType(t)
    ensures IsValueType(MakePointers(t, dim)) && Written(MakePointers(t, dim)) == SinglePointers(Written(t), dim)
  {
    if dim > 0 {
      WrittenPointers(t, dim - 1);
    }
  }

  /** The type, written down, is the type expression with its names replaced. */
  ghost predicate Writes(p: TypeNode, t: Type, names: SpellingSubstitution.Bindings) {
    && IsValueType(t) && Written(t) == Normal(SpellingSubstitution.SubstTree(p, names))
    && (SpellingSubstitution.SubstTree(p, names).FuncParamNode? <==> p.FuncParamNode?)
  }

  lemma NameIsWritten(p: TypeNode, s: Bindings, scope: Scope, names: SpellingSubstitution.Bindings)
    requires p.AnyNode? || p.BaseNode? || p.DynNode?
    requires WritesNames(names, s, scope) && Subst(p, s, scope).Some?
    ensures Writes(p, Subst(p, s, scope).value, names)
  {
    NormalOfWritten(Subst(p, s, scope).value);
  }

  lemma ConstIsWritten(base: TypeNode, t: Type, names: SpellingSubstitution.Bindings, isRef: bool)
    requires Writes(base, t, names)
    ensures Writes(FuncParamNode(isRef, base), t, names)
    ensures Writes(ConstNode(base), MakeConst(t), names)
  {
    NormalOfWritten(t);
  }

  lemma PointerIsWritten(base: TypeNode, t: Type, names: SpellingSubstitution.Bindings, dim: nat)
    requires Writes(base, t, names)
    ensures Writes(PointerNode(base, dim), MakePointers(t, dim), names)
  {
    WrittenPointers(t, dim);
  }

  lemma ArrayIsWritten(base: TypeNode, t: Type, names: SpellingSubstitution.Bindings, dims: seq<Option<Extent>>)
    requires Writes(base, t, names)
    ensures Writes(IndexableNode(base), IndexableType(t), names)
    ensures Writes(ArrayNode(base, dims), ArrayType(t, dims), names)
  {
  }

  lemma FuncIsWritten(params: seq<TypeNode>, ts: seq<Type>, ret: Option<TypeNode>, r: Option<Type>,
                      names: SpellingSubstitution.Bindings)
    requires |ts| == |params| && AreValueTypes(ts)
    requires WrittenParams(ts, RefKinds(params)) == NormalParams(SpellingSubstitution.SubstTrees(params, names))
    requires ret.Some? == r.Some? && (ret.Some? ==> Writes(ret.value, r.value, names))
    ensures Writes(FuncPtrNode(params, ret), PointerType(FuncType(ts, RefKinds(params), r)), names)
  {
  }

  /** The instance of a signature type, written down, is the type expression with its names replaced: const
      stands where the expression or a replaced name has it and nowhere else, and so do dimensions and ref
      marks. */
  lemma {:induction false} InstanceIsWritten(p: TypeNode, s: Bindings, scope: Scope,
                                             names: SpellingSubstitution.Bindings)
    requires WritesNames(names, s, scope) && Subst(p, s, scope).Some?
    ensures Writes(p, Subst(p, s, scope).value, names)
    decreases p, 1
  {
    match p
    case AnyNode | BaseNode(_) | DynNode(_) => NameIsWritten(p, s, scope, names);
    case FuncParamNode(isRef, base) =>
      InstanceIsWritten(base, s, scope, names);
      ConstIsWritten(base, Subst(base, s, scope).value, names, isRef);
    case ConstNode(base) =>
      InstanceIsWritten(base, s, scope, names);
      ConstIsWritten(base, Subst(base, s, scope).value, names, false);
    case PointerNode(base, dim) =>
      InstanceIsWritten(base, s, scope, names);
      PointerIsWritten(base, Subst(base, s, scope).value, names, dim);
    case IndexableNode(base) =>
      InstanceIsWritten(base, s, scope, names);
      ArrayIsWritten(base, Subst(base, s, scope).value, names, []);
    case ArrayNode(base, dims) =>
      InstanceIsWritten(base, s, scope, names);
      ArrayIsWritten(base, Subst(base, s, scope).value, names, dims);
    case TupleNode(items) => InstancesAreWritten(items, s, scope, names);
    case AppliedNode(base, args) => AppliedIsWritten(base, args, s, scope, names);
    case FuncPtrNode(params, ret) => FuncInstanceIsWritten(params, ret, s, scope, names);
  }

  lemma {:induction false} AppliedIsWritten(base: TypeNode, args: seq<TypeNode>, s: Bindings, scope: Scope,
                                            names: SpellingSubstitution.Bindings)
    requires WritesNames(names, s, scope) && Subst(AppliedNode(base, args), s, scope).Some?
    ensures Writes(AppliedNode(base, args), Subst(AppliedNode(base, args), s, scope).value, names)
    decreases AppliedNode(base, args), 0
  {
    InstancesAreWritten(args, s, scope, names);
  }

  lemma {:induction false} FuncInstanceIsWritten(params: seq<TypeNode>, ret: Option<TypeNode>, s: Bindings,
                                                 scope: Scope, names: SpellingSubstitution.Bindings)
    requires WritesNames(names, s, scope) && Subst(FuncPtrNode(params, ret), s, scope).Some?
    ensures Writes(FuncPtrNode(params, ret), Subst(FuncPtrNode(params, ret), s, scope).value, names)
    decreases FuncPtrNode(params, ret), 0
  {
    ParamsAreWritten(params, s, scope, names);
    if ret.Some? {
      InstanceIsWritten(ret.value, s, scope, names);
    }
    FuncIsWritten(params, SubstAll(params, s, scope).value, ret,
                  if ret.Some? then Subst(ret.value, s, scope) else None, names);
  }

  lemma {:induction false} InstancesAreWritten(ps: seq<TypeNode>, s: Bindings, scope: Scope,
                                               names: SpellingSubstitution.Bindings)
    requires WritesNames(names, s, scope) && SubstAll(ps, s, scope).Some?
    ensures var ts := SubstAll(ps, s, scope).value;
      AreValueTypes(ts) && WrittenAll(ts) == NormalAll(SpellingSubstitution.SubstTrees(ps, names))
    decreases ps, 0
  {
    if ps != [] {
      InstanceIsWritten(ps[0], s, scope, names);
      InstancesAreWritten(ps[1..], s, scope, names);
      assert SubstAll(ps, s, scope).value[1..] == SubstAll(ps[1..], s, scope).value;
      assert SpellingSubstitution.SubstTrees(ps, names)[1..] == SpellingSubstitution.SubstTrees(ps[1..], names);
    }
  }

  lemma {:induction false} ParamsAreWritten(ps: seq<TypeNode>, s: Bindings, scope: Scope,
                                            names: SpellingSubstitution.Bindings)
    requires WritesNames(names, s, scope) && SubstAll(ps, s, scope).Some?
    ensures var ts := SubstAll(ps, s, scope).value;
      && AreValueTypes(ts)
      && WrittenParams(ts, RefKinds(ps)) == NormalParams(SpellingSubstitution.SubstTrees(ps, names))
    decreases ps, 0
  {
    if ps != [] {
      InstanceIsWritten(ps[0], s, scope, names);
      ParamsAreWritten(ps[1..], s, scope, names);
      assert SubstAll(ps, s, scope).value[1..] == SubstAll(ps[1..], s, scope).value;
      assert SpellingSubstitution.SubstTrees(ps, names)[1..] == SpellingSubstitution.SubstTrees(ps[1..], names);
      assert RefKinds(ps)[1..] == RefKinds(ps[1..]);
    }
  }
}
