/** Brace initialisers for arrays: inferring an array type from nested groups, and checking the groups
    against an array type. */
module ArrayInit {
  import opened Wrappers
  import opened TypeSyntax

  datatype Type =
    | PlainType(name: string)
    | FunctionPointer(signature: string)
    | ConstType(base: Type)
    | ArrayType(element: Type, dims: seq<Option<Extent>>)

  /** An element of a brace group: an expression, with its type if it has a run-time value, or a group. */
  datatype Item = Expr(id: nat, ty: Option<Type>) | Group(items: seq<Item>)

  datatype Init = Value(id: nat, expected: Type) | Initialised(items: seq<Init>, ty: Type)

  datatype Shape = Shape(element: Type, extents: seq<nat>)

  function Unqualified(t: Type): Type {
    if t.ConstType? then t.base else t
  }

  // ---------------------------------------------------------------------------------------------
  // Dimension vectors
  // ---------------------------------------------------------------------------------------------

  /** The dimensions that are written out; an empty place only shapes the spelling of the type. */
  function Written(dims: seq<Option<Extent>>): seq<Option<Extent>> {
    if dims == [] then []
    else Written(dims[..|dims| - 1]) + (if dims[|dims| - 1].Some? then [dims[|dims| - 1]] else [])
  }

  predicate LegacyPrefix(dims: seq<Option<Extent>>) {
    dims != [] && dims[0].None?
  }

  predicate IsStatic(d: Option<Extent>) {
    d.Some? && d.value.Literal? && d.value.n > 0
  }

  /** The fixed extents, or nothing as soon as one dimension is not a positive literal. */
  function StaticExtents(dims: seq<Option<Extent>>): Option<seq<nat>> {
    if dims == [] then Some([])
    else
      var before, last := StaticExtents(dims[..|dims| - 1]), dims[|dims| - 1];
      if before.None? || last.None? then before
      else if IsStatic(last) then Some(before.value + [last.value.n])
      else None
  }

  /** There are fixed extents exactly when every written dimension is a positive literal, and they are the
      literals. */
  lemma {:induction false} StaticExtentsExactly(dims: seq<Option<Extent>>)
    ensures StaticExtents(dims).Some?
       <==> forall d <- dims :: d.Some? ==> d.value.Literal? && d.value.n >= 1
    ensures var v := StaticExtents(dims);
      v.Some? ==> |v.value| == |Written(dims)|
                  && forall i :: 0 <= i < |v.value| ==> Written(dims)[i] == Some(Literal(v.value[i]))
  {
    if dims != [] {
      var n := |dims| - 1;
      StaticExtentsExactly(dims[..n]);
      assert forall d :: d in dims <==> d in dims[..n] || d == dims[n];
    }
  }

  lemma {:induction false} WrittenIsWritten(dims: seq<Option<Extent>>)
    ensures forall d <- Written(dims) :: d.Some? && d in dims
    ensures |Written(dims)| <= |dims|
  {
    if dims != [] {
      WrittenIsWritten(dims[..|dims| - 1]);
    }
  }

  /** A vector that already consists of written dimensions only. */
  lemma {:induction false} WrittenOfWritten(dims: seq<Option<Extent>>)
    requires forall d <- dims :: d.Some?
    ensures Written(dims) == dims
  {
    if dims != [] {
      assert dims == dims[..|dims| - 1] + [dims[|dims| - 1]];
      WrittenOfWritten(dims[..|dims| - 1]);
    }
  }

  lemma {:induction false} WrittenAppend(a: seq<Option<Extent>>, b: seq<Option<Extent>>)
    ensures Written(a + b) == Written(a) + Written(b)
  {
    if b == [] {
      assert a + b == a;
    } else {
      var n := |b| - 1;
      assert (a + b)[..|a + b| - 1] == a + b[..n];
      WrittenAppend(a, b[..n]);
    }
  }

  function Join(x: Option<seq<nat>>, y: Option<seq<nat>>): Option<seq<nat>> {
    if x.Some? && y.Some? then Some(x.value + y.value) else None
  }

  lemma {:induction false} StaticAppend(a: seq<Option<Extent>>, b: seq<Option<Extent>>)
    ensures StaticExtents(a + b) == Join(StaticExtents(a), StaticExtents(b))
  {
    var x := StaticExtents(a);
    if b == [] {
      assert a + b == a;
      assert x.Some? ==> x.value + [] == x.value;
    } else {
      var n := |b| - 1;
      assert (a + b)[..|a + b| - 1] == a + b[..n];
      StaticAppend(a, b[..n]);
      var y := StaticExtents(b[..n]);
      if x.Some? && y.Some? && IsStatic(b[n]) {
        assert (x.value + y.value) + [b[n].value.n] == x.value + (y.value + [b[n].value.n]);
      }
    }
  }

  /** Places without a dimension do not change the extents. */
  lemma {:induction false} StaticOfWritten(dims: seq<Option<Extent>>)
    ensures StaticExtents(Written(dims)) == StaticExtents(dims)
    ensures StaticExtents(dims).Some? ==> |StaticExtents(dims).value| == |Written(dims)|
  {
    if dims != [] {
      var n := |dims| - 1;
      StaticOfWritten(dims[..n]);
      assert Written(dims[..n]) + [] == Written(dims[..n]);
      if dims[n].Some? {
        StaticAppend(Written(dims[..n]), [dims[n]]);
        StaticOne(dims[n]);
      }
    }
  }

  lemma StaticOne(d: Option<Extent>)
    requires d.Some?
    ensures StaticExtents([d]) == if IsStatic(d) then Some([d.value.n]) else None
  {
    assert [d][..0] == [];
    assert IsStatic(d) ==> [] + [d.value.n] == [d.value.n];
  }

  method StaticDimensions(dims: seq<Option<Extent>>) returns (r: Option<seq<nat>>)
    ensures r == StaticExtents(dims)
  {
    var values: seq<nat> := [];
    for i := 0 to |dims|
      invariant StaticExtents(dims[..i]) == Some(values)
    {
      assert dims[..i + 1][..i] == dims[..i];
      if dims[i].Some? {
        if !IsStatic(dims[i]) {
          StaticAppend(dims[..i + 1], dims[i + 1..]);
          assert dims == dims[..i + 1] + dims[i + 1..];
          return None;
        }
        values := values + [dims[i].value.n];
      }
    }
    assert dims[..|dims|] == dims;
    r := Some(values);
  }

  method ArrayIndexArity(dims: seq<Option<Extent>>) returns (count: nat)
    ensures count == |Written(dims)|
  {
    count := 0;
    for i := 0 to |dims|
      invariant count == |Written(dims[..i])|
    {
      assert dims[..i + 1][..i] == dims[..i];
      if dims[i].Some? {
        count := count + 1;
      }
    }
    assert dims[..|dims|] == dims;
  }

  /** The dimensions of the elements: the written ones without the first. */
  function Peeled(dims: seq<Option<Extent>>): seq<Option<Extent>> {
    var w := Written(dims);
    if w == [] then [] else if LegacyPrefix(dims) && |w| > 2 then [None] + w[1..] else w[1..]
  }

  method ConsumeArrayOuterDimension(dims: seq<Option<Extent>>) returns (remaining: seq<Option<Extent>>)
    ensures remaining == Peeled(dims)
  {
    remaining := [];
    var consumed := false;
    for i := 0 to |dims|
      invariant consumed <==> Written(dims[..i]) != []
      invariant remaining == if consumed then Written(dims[..i])[1..] else []
    {
      assert dims[..i + 1][..i] == dims[..i];
      if dims[i].Some? {
        if !consumed {
          consumed := true;
        } else {
          remaining := remaining + [dims[i]];
        }
      }
    }
    assert dims[..|dims|] == dims;
    if LegacyPrefix(dims) && |remaining| > 1 {
      remaining := [None] + remaining;
    }
  }

  /** Peeling drops exactly the first written dimension, in the legacy spelling as in the plain one, and
      the elements of a legacy spelling are spelled that way for as long as there is a choice. */
  lemma PeelingDropsTheFirst(dims: seq<Option<Extent>>)
    requires Written(dims) != []
    ensures Written(Peeled(dims)) == Written(dims)[1..]
    ensures StaticExtents(dims).Some? ==> StaticExtents(dims).value != []
    ensures StaticExtents(dims).Some? ==> StaticExtents(Peeled(dims)) == Some(StaticExtents(dims).value[1..])
    ensures LegacyPrefix(Peeled(dims)) <==> LegacyPrefix(dims) && |Written(dims)| > 2
  {
    WrittenIsWritten(dims);
    PeelWritten(dims);
    StaticOfWritten(dims);
    StaticOfWritten(Peeled(dims));
    var w := Written(dims);
    StaticAppend([w[0]], w[1..]);
    StaticOne(w[0]);
    assert w == [w[0]] + w[1..];
  }

  lemma PeelWritten(dims: seq<Option<Extent>>)
    requires Written(dims) != []
    ensures Written(Peeled(dims)) == Written(dims)[1..]
    ensures LegacyPrefix(Peeled(dims)) <==> LegacyPrefix(dims) && |Written(dims)| > 2
  {
    var rest := Written(dims)[1..];
    WrittenIsWritten(dims);
    forall d <- rest ensures d.Some? {
      assert d in Written(dims);
    }
    WrittenOfWritten(rest);
    WrittenAppend([None], rest);
    assert Written([None]) == [] by {
      var gap: seq<Option<Extent>> := [None];
      assert gap[..0] == [];
    }
  }

  /** The type of the elements of an array, with one dimension less while there are several. */
  function ChildType(ty: Type): Option<Type>
    requires ty.ArrayType?
  {
    var extents := StaticExtents(ty.dims);
    if extents.None? || extents.value == [] then None
    else if |extents.value| == 1 then Some(ty.element)
    else Some(ArrayType(ty.element, Peeled(ty.dims)))
  }

  predicate HoldsFunctionPointers(t: Type) {
    var u := Unqualified(t);
    u.ArrayType? && (Unqualified(u.element).FunctionPointer? || HoldsFunctionPointers(u.element))
  }

  // ---------------------------------------------------------------------------------------------
  // Checking a group against an array type
  // ---------------------------------------------------------------------------------------------

  /** `compatible(t, e)`: expression e can be converted to a t. Function pointer arrays leave no element
      out; other arrays may. */
  predicate Fits(items: seq<Item>, ty: Type, compatible: (Type, nat) -> bool)
    requires ty.ArrayType?
    decreases items
  {
    var extents := StaticExtents(ty.dims);
    && extents.Some? && extents.value != []
    && |items| <= extents.value[0]
    && (HoldsFunctionPointers(ty) ==> |items| == extents.value[0])
    && forall i :: 0 <= i < |items| ==> FitsItem(items[i], ChildType(ty).value, compatible)
  }

  predicate FitsItem(item: Item, child: Type, compatible: (Type, nat) -> bool)
    decreases item
  {
    var c := Unqualified(child);
    match item
    case Group(items) => c.ArrayType? && Fits(items, c, compatible)
    case Expr(id, _) => !c.ArrayType? && compatible(child, id)
  }

  /** The expressions of a group in reading order. */
  function Leaves(items: seq<Item>): seq<nat>
    decreases items
  {
    if items == [] then [] else Leaves(items[..|items| - 1]) + LeavesOf(items[|items| - 1])
  }

  function LeavesOf(item: Item): seq<nat>
    decreases item
  {
    match item
    case Expr(id, _) => [id]
    case Group(items) => Leaves(items)
  }

  function InitLeaves(items: seq<Init>): seq<nat>
    decreases items
  {
    if items == [] then [] else InitLeaves(items[..|items| - 1]) + InitLeavesOf(items[|items| - 1])
  }

  function InitLeavesOf(init: Init): seq<nat>
    decreases init
  {
    match init
    case Value(id, _) => [id]
    case Initialised(items, _) => InitLeaves(items)
  }

  /** The initialiser has the tree of the item: every group has the array type of its level and as many
      elements, and every expression is in its place, to be converted to the type of that place. */
  predicate Mirrors(init: Init, item: Item, child: Type)
    decreases item
  {
    match item
    case Expr(id, _) => init == Value(id, child)
    case Group(items) =>
      && init.Initialised? && init.ty == Unqualified(child) && init.ty.ArrayType? && ChildType(init.ty).Some?
      && |init.items| == |items|
      && forall i :: 0 <= i < |items| ==> Mirrors(init.items[i], items[i], ChildType(init.ty).value)
  }

  lemma {:induction false} MirrorIsUnique(a: Init, b: Init, item: Item, child: Type)
    requires Mirrors(a, item, child) && Mirrors(b, item, child)
    ensures a == b
    decreases item
  {
    if item.Group? {
      forall i | 0 <= i < |item.items| ensures a.items[i] == b.items[i] {
        MirrorIsUnique(a.items[i], b.items[i], item.items[i], ChildType(a.ty).value);
      }
      assert a.items == b.items;
    }
  }

  lemma {:induction false} MirrorReadsInOrder(init: Init, item: Item, child: Type)
    requires Mirrors(init, item, child)
    ensures InitLeavesOf(init) == LeavesOf(item)
    decreases item, 1
  {
    if item.Group? {
      MirrorsReadInOrder(init.items, item.items, ChildType(init.ty).value);
    }
  }

  lemma {:induction false} MirrorsReadInOrder(inits: seq<Init>, items: seq<Item>, child: Type)
    requires |inits| == |items| && forall i :: 0 <= i < |items| ==> Mirrors(inits[i], items[i], child)
    ensures InitLeaves(inits) == Leaves(items)
    decreases items, 0
  {
    if items != [] {
      var k := |items| - 1;
      MirrorsReadInOrder(inits[..k], items[..k], child);
      MirrorReadsInOrder(inits[k], items[k], child);
    }
  }

  method MaterializeArrayInit(items: seq<Item>, ty: Type, compatible: (Type, nat) -> bool) returns (r: Option<Init>)
    requires ty.ArrayType?
    ensures r.Some? <==> Fits(items, ty, compatible)
    ensures r.Some? ==> Mirrors(r.value, Group(items), ty)
    ensures r.Some? ==> r.value.Initialised? && r.value.ty == ty && InitLeavesOf(r.value) == Leaves(items)
    decreases items
  {
    var extents := StaticDimensions(ty.dims);
    if extents.None? || extents.value == [] {
      return None;
    }
    var childType := ChildType(ty).value;
    if |items| > extents.value[0] {
      return None;
    }
    if HoldsFunctionPointers(ty) && |items| != extents.value[0] {
      return None;
    }
    var inits: seq<Init> := [];
    for i := 0 to |items|
      invariant |inits| == i && forall j :: 0 <= j < i ==> Mirrors(inits[j], items[j], childType)
      invariant forall j :: 0 <= j < i ==> FitsItem(items[j], childType, compatible)
    {
      var init := MaterializeItem(items[i], childType, compatible);
      if init.None? {
        return None;
      }
      inits := inits + [init.value];
    }
    r := Some(Initialised(inits, ty));
    MirrorReadsInOrder(r.value, Group(items), ty);
  }

  method MaterializeItem(item: Item, childType: Type, compatible: (Type, nat) -> bool) returns (r: Option<Init>)
    ensures r.Some? <==> FitsItem(item, childType, compatible)
    ensures r.Some? ==> Mirrors(r.value, item, childType)
    decreases item
  {
    var child := Unqualified(childType);
    match item
    case Group(nested) =>
      if !child.ArrayType? {
        return None;
      }
      r := MaterializeArrayInit(nested, child, compatible);
    case Expr(id, _) =>
      if child.ArrayType? || !compatible(childType, id) {
        return None;
      }
      r := Some(Value(id, childType));
  }

  // ---------------------------------------------------------------------------------------------
  // Only the flattened extents matter
  // ---------------------------------------------------------------------------------------------

  predicate HasExtents(ty: Type)
    requires ty.ArrayType?
  {
    StaticExtents(ty.dims).Some? && StaticExtents(ty.dims).value != []
  }

  /** The extents of an array of arrays, outermost first, however they are spread over its types, down to the
      first type whose dimensions are not fixed. */
  function Extents(ty: Type): seq<nat>
    requires ty.ArrayType?
    decreases ty, 1
  {
    if !HasExtents(ty) then [] else StaticExtents(ty.dims).value + InnerExtents(ty)
  }

  function InnerExtents(ty: Type): seq<nat>
    requires ty.ArrayType?
    decreases ty, 0
  {
    var inner := Unqualified(ty.element);
    if inner.ArrayType? then Extents(inner) else []
  }

  /** Some type on the way to the elements has dimensions that are not fixed. */
  predicate IsOpen(ty: Type)
    requires ty.ArrayType?
  {
    var inner := Unqualified(ty.element);
    !HasExtents(ty) || (inner.ArrayType? && IsOpen(inner))
  }

  function LeafType(ty: Type): Type
    requires ty.ArrayType?
  {
    if Unqualified(ty.element).ArrayType? then LeafType(Unqualified(ty.element)) else ty.element
  }

  /** Nothing fits below the extents of an open type. */
  predicate FitsShape(items: seq<Item>, extents: seq<nat>, open: bool, leaf: Type, compatible: (Type, nat) -> bool)
    decreases items
  {
    && extents != [] && |items| <= extents[0]
    && (Unqualified(leaf).FunctionPointer? ==> |items| == extents[0])
    && forall i :: 0 <= i < |items| ==> FitsShapeItem(items[i], extents[1..], open, leaf, compatible)
  }

  predicate FitsShapeItem(item: Item, extents: seq<nat>, open: bool, leaf: Type, compatible: (Type, nat) -> bool)
    decreases item
  {
    match item
    case Group(items) => FitsShape(items, extents, open, leaf, compatible)
    case Expr(id, _) => extents == [] && !open && compatible(leaf, id)
  }

  lemma {:induction false} FunctionPointersAreLeaves(ty: Type)
    requires ty.ArrayType?
    ensures HoldsFunctionPointers(ty) <==> Unqualified(LeafType(ty)).FunctionPointer?
  {
    var inner := Unqualified(ty.element);
    if inner.ArrayType? {
      FunctionPointersAreLeaves(inner);
    }
  }

  lemma ChildExtents(ty: Type)
    requires ty.ArrayType? && HasExtents(ty)
    ensures ChildType(ty).Some? && Extents(ty) != []
    ensures var c := Unqualified(ChildType(ty).value);
      if c.ArrayType? then Extents(c) == Extents(ty)[1..] && IsOpen(c) == IsOpen(ty) && LeafType(c) == LeafType(ty)
      else Extents(ty)[1..] == [] && !IsOpen(ty) && ChildType(ty).value == LeafType(ty)
  {
    var own := StaticExtents(ty.dims).value;
    DropFirst(own, InnerExtents(ty));
    if |own| > 1 {
      StaticOfWritten(ty.dims);
      PeelingDropsTheFirst(ty.dims);
      PeeledExtents(ty, Peeled(ty.dims));
    }
  }

  lemma DropFirst(own: seq<nat>, tail: seq<nat>)
    requires own != []
    ensures (own + tail)[1..] == own[1..] + tail
    ensures |own| == 1 ==> (own + tail)[1..] == tail
  {
  }

  lemma PeeledExtents(ty: Type, dims: seq<Option<Extent>>)
    requires ty.ArrayType? && HasExtents(ty) && |StaticExtents(ty.dims).value| > 1
    requires StaticExtents(dims) == Some(StaticExtents(ty.dims).value[1..])
    ensures var c := ArrayType(ty.element, dims);
      Extents(c) == Extents(ty)[1..] && IsOpen(c) == IsOpen(ty) && LeafType(c) == LeafType(ty)
  {
    DropFirst(StaticExtents(ty.dims).value, InnerExtents(ty));
    assert HasExtents(ArrayType(ty.element, dims));
  }

  /** Whether `T[2][3]`, `T[2, 3]` or `T[, 2, 3]` is meant makes no difference to what fits. */
  lemma {:induction false} FitsIsFitsShape(items: seq<Item>, ty: Type, compatible: (Type, nat) -> bool)
    requires ty.ArrayType?
    ensures Fits(items, ty, compatible) <==> FitsShape(items, Extents(ty), IsOpen(ty), LeafType(ty), compatible)
    decreases items
  {
    if HasExtents(ty) {
      ChildExtents(ty);
      FunctionPointersAreLeaves(ty);
      var child, rest, leaf := ChildType(ty).value, Extents(ty)[1..], LeafType(ty);
      forall i | 0 <= i < |items|
        ensures FitsItem(items[i], child, compatible) <==> FitsShapeItem(items[i], rest, IsOpen(ty), leaf, compatible)
      {
        if items[i].Group? && Unqualified(child).ArrayType? {
          FitsIsFitsShape(items[i].items, Unqualified(child), compatible);
        }
      }
    }
  }

  // ---------------------------------------------------------------------------------------------
  // Inferring an array type
  // ---------------------------------------------------------------------------------------------

  /** Groups nested to the same depth everywhere, all groups of a level equally long, none empty. */
  predicate FullTree(items: seq<Item>, extents: seq<nat>)
    decreases |extents|, 0
  {
    extents != [] && |items| == extents[0] > 0 && forall i :: 0 <= i < |items| ==> FullItem(items[i], extents[1..])
  }

  predicate FullItem(item: Item, rest: seq<nat>)
    decreases |rest|, 1
  {
    match item
    case Expr(_, _) => rest == []
    case Group(items) => rest != [] && FullTree(items, rest)
  }

  lemma {:induction false} FullTreeUnique(items: seq<Item>, e: seq<nat>, f: seq<nat>)
    requires FullTree(items, e) && FullTree(items, f)
    ensures e == f
    decreases |e|
  {
    assert FullItem(items[0], e[1..]) && FullItem(items[0], f[1..]);
    if items[0].Group? {
      FullTreeUnique(items[0].items, e[1..], f[1..]);
    }
    assert e == [e[0]] + e[1..] && f == [f[0]] + f[1..];
  }

  function Product(extents: seq<nat>): nat {
    if extents == [] then 1 else extents[0] * Product(extents[1..])
  }

  /** A full tree has as many expressions as its array has elements. */
  lemma {:induction false} LeafCount(items: seq<Item>, extents: seq<nat>)
    requires FullTree(items, extents)
    ensures |Leaves(items)| == Product(extents)
    decreases |extents|, |items|
  {
    LeafCountPrefix(items, |items|, extents);
    assert items[..|items|] == items;
  }

  lemma {:induction false} LeafCountPrefix(items: seq<Item>, n: nat, extents: seq<nat>)
    requires n <= |items| && FullTree(items, extents)
    ensures |Leaves(items[..n])| == n * Product(extents[1..])
    decreases |extents|, 0, n
  {
    if n > 0 {
      LeafCountPrefix(items, n - 1, extents);
      assert items[..n][..n - 1] == items[..n - 1];
      assert FullItem(items[n - 1], extents[1..]);
      if items[n - 1].Group? {
        LeafCount(items[n - 1].items, extents[1..]);
      }
      assert |LeavesOf(items[n - 1])| == Product(extents[1..]);
      Distribute(n, Product(extents[1..]));
    }
  }

  lemma Distribute(n: nat, k: nat)
    requires n > 0
    ensures n * k == (n - 1) * k + k
  {
  }

  /** The element type found so far; `Clash` once there is none. */
  datatype Merged = NoType | Element(ty: Type) | Clash

  /** `merge` is the common type of two different types, if they have one. */
  function MergeStep(current: Merged, next: Merged, merge: (Type, Type) -> Option<Type>): Merged {
    if current.Clash? || !next.Element? then Clash
    else if current.NoType? || current == next then next
    else match merge(current.ty, next.ty)
      case Some(common) => Element(common)
      case None => Clash
  }

  function ElementOf(items: seq<Item>, merge: (Type, Type) -> Option<Type>): Merged
    decreases items
  {
    if items == [] then NoType
    else MergeStep(ElementOf(items[..|items| - 1], merge), ElementOfItem(items[|items| - 1], merge), merge)
  }

  function ElementOfItem(item: Item, merge: (Type, Type) -> Option<Type>): Merged
    decreases item
  {
    match item
    case Expr(_, ty) => if ty.Some? then Element(ty.value) else Clash
    case Group(items) => ElementOf(items, merge)
  }

  lemma {:induction false} ClashStays(items: seq<Item>, i: nat, merge: (Type, Type) -> Option<Type>)
    requires i <= |items| && ElementOf(items[..i], merge).Clash?
    ensures ElementOf(items, merge).Clash?
    decreases |items| - i
  {
    if i == |items| {
      assert items[..i] == items;
    } else {
      assert items[..i + 1][..i] == items[..i];
      ClashStays(items, i + 1, merge);
    }
  }

  lemma NoElementClashes(items: seq<Item>, i: nat, merge: (Type, Type) -> Option<Type>)
    requires i < |items| && !ElementOfItem(items[i], merge).Element?
    ensures ElementOf(items, merge).Clash?
  {
    assert items[..i + 1][..i] == items[..i];
    ClashStays(items, i + 1, merge);
  }

  /** The types of the expressions in reading order; nothing for one without a run-time value. */
  function LeafTypes(items: seq<Item>): seq<Option<Type>>
    decreases items
  {
    if items == [] then [] else LeafTypes(items[..|items| - 1]) + LeafTypesOf(items[|items| - 1])
  }

  function LeafTypesOf(item: Item): seq<Option<Type>>
    decreases item
  {
    match item
    case Expr(_, ty) => [ty]
    case Group(items) => LeafTypes(items)
  }

  /** Some group, at any depth, holds nothing. */
  predicate HasEmptyGroup(item: Item)
    decreases item
  {
    match item
    case Expr(_, _) => false
    case Group(items) => items == [] || exists i :: 0 <= i < |items| && HasEmptyGroup(items[i])
  }

  /** An order in which a common type is above both of the types it was found for. */
  ghost predicate OrdersMerges(below: (Type, Type) -> bool, merge: (Type, Type) -> Option<Type>) {
    && (forall a :: below(a, a))
    && (forall a, b, c :: below(a, b) && below(b, c) ==> below(a, c))
    && (forall a, b :: merge(a, b).Some? ==> below(a, merge(a, b).value) && below(b, merge(a, b).value))
  }

  /** Every expression of the group has a type, and e is above all of them in every such order. */
  ghost predicate IsCommonType(items: seq<Item>, merge: (Type, Type) -> Option<Type>, e: Type) {
    && (forall l <- LeafTypes(items) :: l.Some?)
    && forall below | OrdersMerges(below, merge) :: AllBelow(LeafTypes(items), below, e)
  }

  ghost predicate AllBelow(leaves: seq<Option<Type>>, below: (Type, Type) -> bool, e: Type) {
    forall l <- leaves :: l.Some? ==> below(l.value, e)
  }

  /** The element type is a common type of all the expressions. */
  lemma ElementIsCommonType(items: seq<Item>, merge: (Type, Type) -> Option<Type>)
    ensures ElementOf(items, merge).Element? ==> IsCommonType(items, merge, ElementOf(items, merge).ty)
  {
    if ElementOf(items, merge).Element? {
      var all: (Type, Type) -> bool := (a, b) => true;
      ElementIsAbove(items, merge, all);
      forall below | OrdersMerges(below, merge) ensures AllBelow(LeafTypes(items), below, ElementOf(items, merge).ty) {
        ElementIsAbove(items, merge, below);
      }
    }
  }

  lemma {:induction false} ElementIsAbove(items: seq<Item>, merge: (Type, Type) -> Option<Type>,
                                          below: (Type, Type) -> bool)
    requires ElementOf(items, merge).Element? && OrdersMerges(below, merge)
    ensures forall l <- LeafTypes(items) :: l.Some?
    ensures AllBelow(LeafTypes(items), below, ElementOf(items, merge).ty)
    decreases items
  {
    var n := |items| - 1;
    var before, last := ElementOf(items[..n], merge), items[n];
    if before.Element? {
      ElementIsAbove(items[..n], merge, below);
    } else {
      NoElementIsEmpty(items[..n], merge);
    }
    if last.Group? {
      ElementIsAbove(last.items, merge, below);
    }
    assert below(ElementOfItem(last, merge).ty, ElementOf(items, merge).ty);
  }

  lemma NoElementIsEmpty(items: seq<Item>, merge: (Type, Type) -> Option<Type>)
    requires ElementOf(items, merge).NoType?
    ensures items == [] && LeafTypes(items) == []
  {
  }

  /** A set of types that finding common types does not leave. */
  ghost predicate ClosedUnder(merge: (Type, Type) -> Option<Type>, met: Type -> bool) {
    forall a, b :: met(a) && met(b) && merge(a, b).Some? ==> met(merge(a, b).value)
  }

  /** The element type is one of those that arise from the types of the expressions by finding common types.
      There is none only where an expression has no type, a group is empty, or two types that arise like that
      have no common one. */
  lemma {:induction false} ElementArises(items: seq<Item>, merge: (Type, Type) -> Option<Type>, met: Type -> bool)
    requires ClosedUnder(merge, met) && forall l <- LeafTypes(items) :: l.Some? ==> met(l.value)
    ensures match ElementOf(items, merge)
            case NoType => items == []
            case Element(ty) => met(ty)
            case Clash =>
              || None in LeafTypes(items) || HasEmptyGroup(Group(items))
              || exists a, b :: met(a) && met(b) && a != b && merge(a, b).None?
    decreases items
  {
    if items != [] {
      var n := |items| - 1;
      assert LeafTypes(items) == LeafTypes(items[..n]) + LeafTypesOf(items[n]);
      assert forall l <- LeafTypes(items[..n]) + LeafTypesOf(items[n]) :: l in LeafTypes(items);
      assert items[n].Expr? ==> items[n].ty in LeafTypes(items);
      ElementArises(items[..n], merge, met);
      if items[n].Group? {
        ElementArises(items[n].items, merge, met);
      }
      if n > 0 && HasEmptyGroup(Group(items[..n])) {
        var i :| 0 <= i < n && HasEmptyGroup(items[..n][i]);
        assert HasEmptyGroup(items[i]);
      }
      assert HasEmptyGroup(items[n]) ==> HasEmptyGroup(Group(items));
      var before, last := ElementOf(items[..n], merge), ElementOfItem(items[n], merge);
      if before.Element? && last.Element? && before != last {
        assert met(before.ty) && met(last.ty);
      }
    }
  }

  /** Two expressions of different types have the common type of the two, in that order. */
  lemma PairIsMerged(a: nat, b: nat, s: Type, t: Type, merge: (Type, Type) -> Option<Type>)
    ensures ElementOf([Expr(a, Some(s)), Expr(b, Some(t))], merge)
         == if s == t then Element(s)
            else if merge(s, t).Some? then Element(merge(s, t).value)
            else Clash
  {
    var items := [Expr(a, Some(s)), Expr(b, Some(t))];
    assert items[..1] == [items[0]] && [items[0]][..0] == [];
    assert ElementOf([items[0]], merge) == Element(s);
  }

  ghost predicate Rectangular(items: seq<Item>) {
    exists e :: FullTree(items, e)
  }

  method InferArrayShape(items: seq<Item>, merge: (Type, Type) -> Option<Type>) returns (r: Option<Shape>)
    ensures r.Some? <==> Rectangular(items) && ElementOf(items, merge).Element?
    ensures r.Some? ==> FullTree(items, r.value.extents) && ElementOf(items, merge) == Element(r.value.element)
    ensures r.Some? ==> IsCommonType(items, merge, r.value.element)
    decreases items
  {
    if items == [] {
      return None;
    }
    ElementIsCommonType(items, merge);
    var hasNested := false;
    for i := 0 to |items|
      invariant hasNested <==> exists j :: 0 <= j < i && items[j].Group?
    {
      if items[i].Group? {
        hasNested := true;
      }
    }
    if !hasNested {
      assert FullTree(items, [|items|]);
      var element := MergeFlat(items, merge);
      if element.None? {
        return None;
      }
      return Some(Shape(element.value, [|items|]));
    }
    r := InferNested(items, merge);
  }

  method MergeFlat(items: seq<Item>, merge: (Type, Type) -> Option<Type>) returns (r: Option<Type>)
    requires items != [] && forall i :: 0 <= i < |items| ==> items[i].Expr?
    ensures r.Some? <==> ElementOf(items, merge).Element?
    ensures r.Some? ==> ElementOf(items, merge) == Element(r.value)
  {
    var element := NoType;
    for i := 0 to |items|
      invariant element == ElementOf(items[..i], merge)
      invariant i > 0 ==> element.Element?
    {
      assert items[..i + 1][..i] == items[..i];
      element := MergeStep(element, ElementOfItem(items[i], merge), merge);
      if element.Clash? {
        ClashStays(items, i + 1, merge);
        return None;
      }
    }
    assert items[..|items|] == items;
    r := Some(element.ty);
  }

  method InferNested(items: seq<Item>, merge: (Type, Type) -> Option<Type>) returns (r: Option<Shape>)
    requires exists i :: 0 <= i < |items| && items[i].Group?
    ensures r.Some? <==> Rectangular(items) && ElementOf(items, merge).Element?
    ensures r.Some? ==> FullTree(items, r.value.extents) && ElementOf(items, merge) == Element(r.value.element)
    decreases items, 0
  {
    var childExtents: seq<nat> := [];
    var element := NoType;
    for i := 0 to |items|
      invariant element == ElementOf(items[..i], merge)
      invariant i > 0 ==> element.Element?
      invariant i > 0 ==> childExtents != []
      invariant forall j :: 0 <= j < i ==> FullItem(items[j], childExtents) && items[j].Group?
    {
      assert items[..i + 1][..i] == items[..i];
      if items[i].Expr? {
        MixedIsNotRectangular(items, i);
        return None;
      }
      var child := InferArrayShape(items[i].items, merge);
      if child.None? {
        BadRow(items, i, merge);
        return None;
      }
      if i == 0 {
        childExtents := child.value.extents;
      } else if childExtents != child.value.extents {
        RowsDiffer(items, i, childExtents, child.value.extents);
        return None;
      }
      element := MergeStep(element, Element(child.value.element), merge);
      if element.Clash? {
        ClashStays(items, i + 1, merge);
        return None;
      }
    }
    assert items[..|items|] == items;
    var extents := [|items|] + childExtents;
    assert extents[1..] == childExtents;
    assert FullTree(items, extents);
    r := Some(Shape(element.ty, extents));
  }

  lemma MixedIsNotRectangular(items: seq<Item>, i: nat)
    requires i < |items| && items[i].Expr? && exists j :: 0 <= j < |items| && items[j].Group?
    ensures !Rectangular(items)
  {
    var j :| 0 <= j < |items| && items[j].Group?;
    forall e | FullTree(items, e) ensures false {
      ItemOfFullTree(items, e, i);
      ItemOfFullTree(items, e, j);
    }
  }

  lemma ItemOfFullTree(items: seq<Item>, e: seq<nat>, i: nat)
    requires FullTree(items, e) && i < |items|
    ensures FullItem(items[i], e[1..])
    ensures items[i].Group? ==> e[1..] != [] && FullTree(items[i].items, e[1..])
    ensures items[i].Expr? ==> e[1..] == []
  {
  }

  lemma BadRow(items: seq<Item>, i: nat, merge: (Type, Type) -> Option<Type>)
    requires i < |items| && items[i].Group?
    requires !(Rectangular(items[i].items) && ElementOf(items[i].items, merge).Element?)
    ensures !Rectangular(items) || ElementOf(items, merge).Clash?
  {
    if !ElementOf(items[i].items, merge).Element? {
      NoElementClashes(items, i, merge);
    } else {
      forall e | FullTree(items, e) ensures false {
        ItemOfFullTree(items, e, i);
      }
    }
  }

  lemma RowsDiffer(items: seq<Item>, i: nat, e: seq<nat>, f: seq<nat>)
    requires 0 < i < |items| && items[0].Group? && items[i].Group? && e != f
    requires FullItem(items[0], e) && FullTree(items[i].items, f)
    ensures !Rectangular(items)
  {
    forall g | FullTree(items, g) ensures false {
      ItemOfFullTree(items, g, 0);
      ItemOfFullTree(items, g, i);
      FullTreeUnique(items[0].items, e, g[1..]);
      FullTreeUnique(items[i].items, f, g[1..]);
    }
  }

  // ---------------------------------------------------------------------------------------------
  // Inference and checking agree
  // ---------------------------------------------------------------------------------------------

  /** One array type per level, each with one dimension. */
  function NestedArray(element: Type, extents: seq<nat>): Type {
    if extents == [] then element else ArrayType(NestedArray(element, extents[1..]), [Some(Literal(extents[0]))])
  }

  method BuildArrayTypeFromShape(shape: Shape) returns (ty: Type)
    ensures ty == NestedArray(shape.element, shape.extents)
  {
    ty := shape.element;
    for i := |shape.extents| downto 0
      invariant ty == NestedArray(shape.element, shape.extents[i..])
    {
      assert shape.extents[i..][1..] == shape.extents[i + 1..];
      ty := ArrayType(ty, [Some(Literal(shape.extents[i]))]);
    }
  }

  predicate AllPositive(extents: seq<nat>) {
    forall i :: 0 <= i < |extents| ==> extents[i] > 0
  }

  lemma {:induction false} NestedArrayExtents(element: Type, extents: seq<nat>)
    requires extents != [] && AllPositive(extents) && !Unqualified(element).ArrayType?
    ensures var ty := NestedArray(element, extents);
      ty.ArrayType? && Extents(ty) == extents && !IsOpen(ty) && LeafType(ty) == element
    decreases |extents|
  {
    StaticOne(Some(Literal(extents[0])));
    var ty := NestedArray(element, extents);
    assert extents == [extents[0]] + extents[1..];
    assert StaticExtents(ty.dims) == Some([extents[0]]);
    if |extents| > 1 {
      NestedArrayExtents(element, extents[1..]);
    } else {
      assert extents[1..] == [] && [extents[0]] == extents;
    }
  }

  lemma {:induction false} ExtentsArePositive(items: seq<Item>, extents: seq<nat>)
    requires FullTree(items, extents)
    ensures AllPositive(extents)
    decreases |extents|
  {
    ItemOfFullTree(items, extents, 0);
    assert extents == [extents[0]] + extents[1..];
    if items[0].Group? {
      ExtentsArePositive(items[0].items, extents[1..]);
    }
  }

  predicate AllCompatible(items: seq<Item>, element: Type, compatible: (Type, nat) -> bool) {
    forall id <- Leaves(items) :: compatible(element, id)
  }

  predicate ItemCompatible(item: Item, element: Type, compatible: (Type, nat) -> bool) {
    forall id <- LeavesOf(item) :: compatible(element, id)
  }

  lemma {:induction false} CompatibleItems(items: seq<Item>, element: Type, compatible: (Type, nat) -> bool)
    ensures AllCompatible(items, element, compatible)
       <==> forall i :: 0 <= i < |items| ==> ItemCompatible(items[i], element, compatible)
    decreases |items|
  {
    if items != [] {
      var n := |items| - 1;
      CompatibleItems(items[..n], element, compatible);
      assert items == items[..n] + [items[n]];
    }
  }

  /** A full tree has the shape of its array; only the expressions themselves can be refused. */
  lemma {:induction false} FullTreeFitsShape(items: seq<Item>, extents: seq<nat>, element: Type,
      compatible: (Type, nat) -> bool)
    requires FullTree(items, extents)
    ensures FitsShape(items, extents, false, element, compatible) <==> AllCompatible(items, element, compatible)
    decreases |extents|
  {
    CompatibleItems(items, element, compatible);
    forall i: nat | i < |items|
      ensures FitsShapeItem(items[i], extents[1..], false, element, compatible)
         <==> ItemCompatible(items[i], element, compatible)
    {
      ItemOfFullTree(items, extents, i);
      if items[i].Group? {
        FullTreeFitsShape(items[i].items, extents[1..], element, compatible);
      }
    }
  }

  /** With arrays as expressions the inferred type is one level deeper than the braces. */
  lemma {:induction false} ArrayElementsNeverFit(items: seq<Item>, extents: seq<nat>, element: Type,
      compatible: (Type, nat) -> bool)
    requires FullTree(items, extents) && Unqualified(element).ArrayType?
    ensures NestedArray(element, extents).ArrayType? && !Fits(items, NestedArray(element, extents), compatible)
    decreases |extents|
  {
    var ty := NestedArray(element, extents);
    StaticOne(Some(Literal(extents[0])));
    ItemOfFullTree(items, extents, 0);
    assert ChildType(ty) == Some(NestedArray(element, extents[1..]));
    if items[0].Group? {
      ArrayElementsNeverFit(items[0].items, extents[1..], element, compatible);
    }
    assert !FitsItem(items[0], ChildType(ty).value, compatible);
  }

  /** The array type inferred for a brace group accepts that group exactly when its elements are not
      arrays themselves and each of them converts to the common element type. */
  lemma InferredTypeFits(items: seq<Item>, extents: seq<nat>, element: Type, compatible: (Type, nat) -> bool)
    requires FullTree(items, extents)
    ensures var ty := NestedArray(element, extents);
      && ty.ArrayType?
      && (Fits(items, ty, compatible)
          <==> !Unqualified(element).ArrayType? && AllCompatible(items, element, compatible))
  {
    if Unqualified(element).ArrayType? {
      ArrayElementsNeverFit(items, extents, element, compatible);
    } else {
      ExtentsArePositive(items, extents);
      NestedArrayExtents(element, extents);
      FitsIsFitsShape(items, NestedArray(element, extents), compatible);
      FullTreeFitsShape(items, extents, element, compatible);
    }
  }

  /** `{a, b}` where a and b are arrays of two: a type is inferred, and then it refuses the initialiser. */
  lemma ArraysCannotBeListed(a: nat, b: nat, merge: (Type, Type) -> Option<Type>, compatible: (Type, nat) -> bool)
    ensures var pair := ArrayType(PlainType("i32"), [Some(Literal(2))]);
      var items := [Expr(a, Some(pair)), Expr(b, Some(pair))];
      && FullTree(items, [2]) && ElementOf(items, merge) == Element(pair)
      && NestedArray(pair, [2]).ArrayType? && !Fits(items, NestedArray(pair, [2]), compatible)
  {
    var pair := ArrayType(PlainType("i32"), [Some(Literal(2))]);
    var items := [Expr(a, Some(pair)), Expr(b, Some(pair))];
    assert items[..1] == [items[0]] && [items[0]][..0] == [];
    assert ElementOf([items[0]], merge) == Element(pair);
    assert FullTree(items, [2]);
    ArrayElementsNeverFit(items, [2], pair, compatible);
  }

  /** A brace initialiser, with the type it is expected to have when there is one. */
  method MaterializeInitList(items: seq<Item>, expected: Option<Type>, merge: (Type, Type) -> Option<Type>,
      compatible: (Type, nat) -> bool) returns (r: Option<Init>)
    ensures expected.Some? ==>
      var t := if expected.value.ConstType? then expected.value.base else expected.value;
      (r.Some? <==> t.ArrayType? && Fits(items, t, compatible)) && (r.Some? ==> Mirrors(r.value, Group(items), t))
    ensures expected.None? ==> var m := ElementOf(items, merge);
      r.Some? <==> Rectangular(items) && m.Element? && !Unqualified(m.ty).ArrayType?
                   && AllCompatible(items, m.ty, compatible)
    ensures expected.None? && r.Some? ==>
      exists extents :: FullTree(items, extents) && IsCommonType(items, merge, ElementOf(items, merge).ty)
                        && Mirrors(r.value, Group(items), NestedArray(ElementOf(items, merge).ty, extents))
    ensures r.Some? ==> InitLeavesOf(r.value) == Leaves(items)
  {
    var target: Type;
    if expected.None? {
      var shape := InferArrayShape(items, merge);
      if shape.None? {
        return None;
      }
      InferredTypeFits(items, shape.value.extents, shape.value.element, compatible);
      target := BuildArrayTypeFromShape(shape.value);
    } else {
      target := Unqualified(expected.value);
    }
    if !target.ArrayType? {
      return None;
    }
    r := MaterializeArrayInit(items, target, compatible);
  }
}
