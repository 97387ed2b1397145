/** Type expressions as written in a program. */
module TypeSyntax {
  import opened Wrappers

  /** A dimension of an array type: a literal, or an expression that is not a literal. Bare commas and
      empty brackets give dimensions without any expression, kept as `None`. */
  datatype Extent = Literal(n: nat) | Expression

  datatype TypeNode =
    | AnyNode
    | BaseNode(name: string)
    | AppliedNode(base: TypeNode, args: seq<TypeNode>)
    | ConstNode(base: TypeNode)
    | DynNode(base: TypeNode)
    | PointerNode(base: TypeNode, dim: nat)
    | IndexableNode(base: TypeNode)
    | ArrayNode(base: TypeNode, dims: seq<Option<Extent>>)
    | TupleNode(items: seq<TypeNode>)
    | FuncPtrNode(params: seq<TypeNode>, ret: Option<TypeNode>)
    | FuncParamNode(isRef: bool, base: TypeNode)
}
