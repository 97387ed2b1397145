/** The integer types of the constant folder against those of the literals, whose limits are written out. */
module FoldLiterals {
  import opened FixedWidth
  import opened InlineFold
  import NumericLiterals

  function LiteralOf(k: Kind): NumericLiterals.LiteralType
    requires IsInteger(k)
  {
    match k
    case I8 => NumericLiterals.I8
    case I16 => NumericLiterals.I16
    case I32 => NumericLiterals.I32
    case I64 => NumericLiterals.I64
    case U8 => NumericLiterals.U8
    case U16 => NumericLiterals.U16
    case U32 => NumericLiterals.U32
    case U64 => NumericLiterals.U64
    case USize => NumericLiterals.USIZE
  }

  /** v is a value that a literal of the type can have, alone or under a minus. */
  predicate IsLiteralValue(t: nat, k: Kind, v: int)
    requires IsInteger(k)
  {
    NumericLiterals.InRange(LiteralOf(k), v, Pow2(t))
  }

  /** How many values the type has. */
  function Count(t: nat, k: Kind): int
    requires IsInteger(k)
  {
    if k.USize? then Pow2(t) else 2 * NumericLiterals.Half(LiteralOf(k))
  }

  lemma CountIsWidth(t: nat, k: Kind)
    requires Target(t) && IsInteger(k)
    ensures Pow2(Width(t, k)) == Count(t, k)
    ensures NumericLiterals.IsSigned(LiteralOf(k)) == IsSigned(k)
    ensures !k.USize? ==> Pow2(NumericLiterals.Width(LiteralOf(k))) == Count(t, k)
  {
    if !k.USize? {
      NumericLiterals.HalfOfWidth(LiteralOf(k));
    }
  }

  /** The values of a type by their number alone. */
  predicate AmongValues(signed: bool, count: int, v: int) {
    if signed then -count <= 2 * v < count else 0 <= v < count
  }

  lemma RangeByCount(signed: bool, w: nat, v: int)
    requires w >= 1
    ensures InRange(signed, w, v) <==> AmongValues(signed, Pow2(w), v)
  {
    assert Pow2(w) == 2 * Pow2(w - 1);
  }

  /** The constants of a type are the values that its literals have. */
  lemma TypesAgree(t: nat, k: Kind, isConst: bool, v: int)
    requires Target(t) && IsInteger(k)
    ensures HasType(t, VInt(v), Scalar(k, isConst)) <==> IsLiteralValue(t, k, v)
    ensures IsLiteralValue(t, k, v) <==> AmongValues(IsSigned(k), Count(t, k), v)
  {
    CountIsWidth(t, k);
    RangeByCount(IsSigned(k), Width(t, k), v);
    if !k.USize? {
      RangeByCount(IsSigned(k), NumericLiterals.Width(LiteralOf(k)), v);
    }
  }

  /** Casting a constant leaves its value alone exactly when the type has that value; into a narrow `usize`
      also when it is too large. */
  lemma CastLeavesValue(t: nat, source: Kind, v: int, target: Kind)
    requires Target(t) && IsInteger(source) && IsInteger(target) && IsLiteralValue(t, source, v)
    ensures var ty := Scalar(target, false);
      var e := NumericCast(Const(Scalar(source, false), VInt(v)), ty);
      && WellTyped(t, e)
      && (Fold(t, e) == Folded(Const(ty, VInt(v)))
          <==> IsLiteralValue(t, target, v) || (target.USize? && t < 64 && Pow2(t) <= v))
  {
    TypesAgree(t, source, false, v);
    TypesAgree(t, target, false, v);
    CastOfConstant(t, source, v, Scalar(target, false));
    var h := 64;
    if target.USize? && t < h {
      NarrowCast(t, source, v, h);
      TypesAgree(t, USize, false, v);
    } else {
      WideCast(t, source, v, Scalar(target, false));
    }
  }

  lemma CastOfConstant(t: nat, source: Kind, v: int, ty: Type)
    requires Target(t) && IsInteger(source) && IntegerType(ty) && InRange(IsSigned(source), Width(t, source), v)
    ensures var e := NumericCast(Const(Scalar(source, false), VInt(v)), ty);
      WellTyped(t, e) && Fold(t, e) == FoldCast(t, source, v, ty)
  {
  }

  lemma WideCast(t: nat, source: Kind, v: int, ty: Type)
    requires Target(t) && IsInteger(source) && IntegerType(ty) && InRange(IsSigned(source), Width(t, source), v)
    requires Reaches(t, ty, v)
    ensures FoldCast(t, source, v, ty) == Folded(Const(ty, VInt(v))) <==> HasType(t, VInt(v), ty)
  {
    FoldCastCorrect(t, source, v, ty);
    WrapInRange(IsSigned(ty.kind), Width(t, ty.kind), v);
  }

  lemma NarrowCast(t: nat, source: Kind, v: int, h: nat)
    requires Target(t) && h == 64 && t < h && IsInteger(source)
    requires InRange(IsSigned(source), Width(t, source), v)
    ensures FoldCast(t, source, v, Scalar(USize, false)) == Folded(Const(Scalar(USize, false), VInt(v))) <==> 0 <= v
  {
    SourceInHost(t, source, v, h);
    UsizeCastStores(t, source, v, false, h);
    WrapInRange(false, h, v);
    HostUnsigned(h, v);
  }

  function Ideal(op: BinaryOp, x: int, y: int): int {
    if op.AddOp? then x + y else if op.SubOp? then x - y else x * y
  }

  /** Sums, differences and products of constants fold to the value of the type that is congruent to the ideal
      one, so to the ideal one itself wherever the type has it. */
  lemma ArithmeticFolds(t: nat, op: BinaryOp, k: Kind, x: int, y: int)
    requires Target(t) && IsInteger(k) && (op.AddOp? || op.SubOp? || op.MulOp?)
    requires IsLiteralValue(t, k, x) && IsLiteralValue(t, k, y)
    ensures var ty := Scalar(k, false);
      var e := Binary(op, Const(ty, VInt(x)), Const(ty, VInt(y)), ty, false);
      && WellTyped(t, e)
      && exists r :: Fold(t, e) == Folded(Const(ty, VInt(r))) && IsLiteralValue(t, k, r)
                     && r % Count(t, k) == Ideal(op, x, y) % Count(t, k)
                     && (IsLiteralValue(t, k, Ideal(op, x, y)) ==> r == Ideal(op, x, y))
  {
    var ideal := Ideal(op, x, y);
    var r := Wrap(IsSigned(k), Width(t, k), ideal);
    TypesAgree(t, k, false, x);
    TypesAgree(t, k, false, y);
    OneOperation(t, op, Scalar(k, false), x, y);
    WrapIsCongruent(IsSigned(k), Width(t, k), ideal);
    CountIsWidth(t, k);
    TypesAgree(t, k, false, r);
    TypesAgree(t, k, false, ideal);
  }

  lemma OneOperation(t: nat, op: BinaryOp, ty: Type, x: int, y: int)
    requires Target(t) && IntegerType(ty) && !ty.isConst && (op.AddOp? || op.SubOp? || op.MulOp?)
    requires HasType(t, VInt(x), ty) && HasType(t, VInt(y), ty)
    ensures var e := Binary(op, Const(ty, VInt(x)), Const(ty, VInt(y)), ty, false);
      && WellTyped(t, e)
      && Fold(t, e) == Folded(Const(ty, VInt(Wrap(IsSigned(ty.kind), Width(t, ty.kind), Ideal(op, x, y)))))
  {
    var l, r := Const(ty, VInt(x)), Const(ty, VInt(y));
    var e := Binary(op, l, r, ty, false);
    var env: Env := _ => 0;
    ConstantIsClosed(t, ty, x);
    ConstantIsClosed(t, ty, y);
    EvalOfConstants(t, op, ty, x, y, env);
    FoldExactOnClosed(t, e, env);
    FoldAgrees(t, e, env);
    assert StandsFor(t, Fold(t, e).expr, Eval(t, e, env).v, ty);
  }

  lemma ConstantIsClosed(t: nat, ty: Type, x: int)
    requires Target(t) && IntegerType(ty) && HasType(t, VInt(x), ty)
    ensures var e := Const(ty, VInt(x)); WellTyped(t, e) && CastsFit(t, e) && Closed(e)
  {
  }

  lemma EvalOfConstants(t: nat, op: BinaryOp, ty: Type, x: int, y: int, env: Env)
    requires Target(t) && IntegerType(ty) && (op.AddOp? || op.SubOp? || op.MulOp?)
    ensures Eval(t, Binary(op, Const(ty, VInt(x)), Const(ty, VInt(y)), ty, false), env)
         == Ok(VInt(Wrap(IsSigned(ty.kind), Width(t, ty.kind), Ideal(op, x, y))))
  {
    var l, r := Const(ty, VInt(x)), Const(ty, VInt(y));
    assert Eval(t, l, env) == Ok(VInt(x)) && Eval(t, r, env) == Ok(VInt(y));
  }

  lemma WrapIsCongruent(signed: bool, w: nat, v: int)
    requires w >= 1
    ensures InRange(signed, w, Wrap(signed, w, v)) && Wrap(signed, w, v) % Pow2(w) == v % Pow2(w)
    ensures InRange(signed, w, v) ==> Wrap(signed, w, v) == v
  {
    WrapInRange(signed, w, v);
  }

  function ResultType(op: BinaryOp, ty: Type): Type {
    if YieldsBool(op) then Scalar(Boolean, false) else StripConst(ty)
  }

  /** On constants of one type an operator is typed exactly where folding it yields a value or a fault. */
  lemma TypedWhereFolded(t: nat, op: BinaryOp, k: Kind, x: Value, y: Value)
    requires Target(t) && !Logical(op) && HasType(t, x, Scalar(k, false)) && HasType(t, y, Scalar(k, false))
    ensures var ty := Scalar(k, false);
      var f := Fold(t, Binary(op, Const(ty, x), Const(ty, y), ResultType(op, ty), false));
      ResolvesBinary(op, ty, ty, ResultType(op, ty)) <==> f.Folded? || f.Error?
  {
    if k.Boolean? {
      FoldOfBooleans(t, op, x.b, y.b);
      BooleansAreTyped(op, x.b, y.b);
    } else {
      IntegersResolve(op, k);
      TypedFolds(t, op, Const(Scalar(k, false), x), Const(Scalar(k, false), y), ResultType(op, Scalar(k, false)));
    }
  }

  lemma FoldOfBooleans(t: nat, op: BinaryOp, x: bool, y: bool)
    requires Target(t) && !Logical(op)
    ensures var ty := Scalar(Boolean, false);
      Fold(t, Binary(op, Const(ty, VBool(x)), Const(ty, VBool(y)), ResultType(op, ty), false)) == FoldBools(op, x, y)
  {
    var l, r := Const(Scalar(Boolean, false), VBool(x)), Const(Scalar(Boolean, false), VBool(y));
    assert Fold(t, l) == Folded(l) && Fold(t, r) == Folded(r);
    assert ComparePointers(Folded(l), Folded(r)).Unknown?;
  }

  lemma IntegersResolve(op: BinaryOp, k: Kind)
    requires !Logical(op) && IsInteger(k)
    ensures var ty := Scalar(k, false); ResolvesBinary(op, ty, ty, ResultType(op, ty))
  {
  }

  lemma TypedFolds(t: nat, op: BinaryOp, l: Expr, r: Expr, ty: Type)
    requires Target(t) && l.Const? && r.Const? && WellTyped(t, l) && WellTyped(t, r)
    requires !Logical(op) && ResolvesBinary(op, l.ty, r.ty, ty)
    ensures var f := Fold(t, Binary(op, l, r, ty, false)); f.Folded? || f.Error?
  {
    var e := Binary(op, l, r, ty, false);
    assert CastsFit(t, l) && CastsFit(t, r) && Closed(l) && Closed(r);
    var env: Env := _ => 0;
    FoldAgrees(t, e, env);
  }

  lemma BooleansAreTyped(op: BinaryOp, x: bool, y: bool)
    requires !Logical(op)
    ensures var ty := Scalar(Boolean, false);
      var f := FoldBools(op, x, y);
      ResolvesBinary(op, ty, ty, ResultType(op, ty)) <==> f.Folded? || f.Error?
  {
  }

  /** Operators yield values: their type is never const. */
  lemma ResultsAreNotConst(op: BinaryOp, uop: UnaryOp, l: Type, r: Type, result: Type)
    requires ResolvesBinary(op, l, r, result)
             || (ResolvesUnary(uop, l, result) && !uop.AddressOf? && !uop.Dereference?)
    ensures !result.isConst
  {
  }

  function IdealUnary(op: UnaryOp, x: int): int {
    if op.Identity? then x else if op.Negate? then -x else -1 - x
  }

  /** Identity, negation and complement of a constant fold to the value of the type that is congruent to the ideal
      one. */
  lemma UnaryFolds(t: nat, op: UnaryOp, k: Kind, x: int)
    requires Target(t) && IsInteger(k) && (op.Identity? || op.Negate? || op.BitwiseNot?) && IsLiteralValue(t, k, x)
    ensures var ty := Scalar(k, false);
      var e := Unary(op, Const(ty, VInt(x)), ty);
      && WellTyped(t, e)
      && exists r :: Fold(t, e) == Folded(Const(ty, VInt(r))) && IsLiteralValue(t, k, r)
                     && r % Count(t, k) == IdealUnary(op, x) % Count(t, k)
                     && (IsLiteralValue(t, k, IdealUnary(op, x)) ==> r == IdealUnary(op, x))
  {
    var ideal := IdealUnary(op, x);
    var r := Wrap(IsSigned(k), Width(t, k), ideal);
    TypesAgree(t, k, false, x);
    OneUnary(t, op, Scalar(k, false), x);
    WrapIsCongruent(IsSigned(k), Width(t, k), ideal);
    CountIsWidth(t, k);
    TypesAgree(t, k, false, r);
    TypesAgree(t, k, false, ideal);
  }

  lemma OneUnary(t: nat, op: UnaryOp, ty: Type, x: int)
    requires Target(t) && IntegerType(ty) && !ty.isConst && (op.Identity? || op.Negate? || op.BitwiseNot?)
    requires HasType(t, VInt(x), ty)
    ensures var e := Unary(op, Const(ty, VInt(x)), ty);
      && WellTyped(t, e)
      && Fold(t, e) == Folded(Const(ty, VInt(Wrap(IsSigned(ty.kind), Width(t, ty.kind), IdealUnary(op, x)))))
  {
    var s := Const(ty, VInt(x));
    var e := Unary(op, s, ty);
    var env: Env := _ => 0;
    ConstantIsClosed(t, ty, x);
    WrapInRange(IsSigned(ty.kind), Width(t, ty.kind), x);
    assert Eval(t, s, env) == Ok(VInt(x));
    FoldExactOnClosed(t, e, env);
    FoldAgrees(t, e, env);
    assert StandsFor(t, Fold(t, e).expr, Eval(t, e, env).v, ty);
  }

  function Bit(b: bool): int {
    if b then 1 else 0
  }

  function BitOpOf(op: BinaryOp): BitOp
    requires BitLogic(op)
  {
    if op.BitAnd? then And else if op.BitXor? then Xor else Or
  }

  /** Bit logic on booleans is bit logic on one bit. */
  lemma BooleansAreBits(op: BinaryOp, x: bool, y: bool)
    requires BitLogic(op)
    ensures exists b :: EvalOthers(op, VBool(x), VBool(y)) == Ok(VBool(b))
                        && Bit(b) == IdealBits(BitOpOf(op), Bit(x), Bit(y))
  {
    BitsByArithmetic(Bit(x), Bit(y));
    IdealBitsUnfold(BitOpOf(op), Bit(x), Bit(y));
    assert IdealBits(BitOpOf(op), 0, 0) == 0;
    var b := IdealBits(BitOpOf(op), Bit(x), Bit(y)) == 1;
    assert EvalOthers(op, VBool(x), VBool(y)) == Ok(VBool(b));
  }
}
