/** The constant folder for inline bindings, and the meaning it has to preserve.

    `Fold` follows the folder of the analyzer case by case: fixed-width integers go through `APInt`
    residues, casts through a 64-bit host integer, pointer constants through any chain of bit-casts.
    `Eval` is an independent evaluator over ideal integers that reduces each result once to the width
    of its type, and knows nothing of residues. The target only matters for the width of `usize`.
 */
module InlineFold {
  import opened FixedWidth

  // ---------------------------------------------------------------------------------------------
  // Types, values and expressions
  // ---------------------------------------------------------------------------------------------

  datatype Kind = I8 | I16 | I32 | I64 | U8 | U16 | U32 | U64 | USize | Boolean

  datatype Type = Scalar(kind: Kind, isConst: bool) | Pointer(pointee: nat, isConst: bool)

  datatype Value = VInt(n: int) | VBool(b: bool) | VNull | VAddr(node: nat)

  datatype UnaryOp = Identity | Negate | LogicalNot | BitwiseNot | AddressOf | Dereference

  datatype BinaryOp =
    | AddOp | SubOp | MulOp | DivOp | ModOp | ShiftLeft | ShiftRight
    | BitAnd | BitXor | BitOr
    | Less | Greater | LessEqual | GreaterEqual | Equal | NotEqual
    | LogicalAnd | LogicalOr

  /** Typed expressions. A byte string is identified by its node, as its address is. `Opaque` is any
      expression the folder does not look into: a variable, a call, a selector. */
  datatype Expr =
    | Const(ty: Type, value: Value)
    | ByteString(node: nat, ty: Type)
    | Null(ty: Type)
    | BitCast(expr: Expr, ty: Type)
    | NumericCast(expr: Expr, ty: Type)
    | Unary(uop: UnaryOp, expr: Expr, ty: Type)
    | Binary(bop: BinaryOp, left: Expr, right: Expr, ty: Type, shortCircuit: bool)
    | Opaque(id: nat, ty: Type)

  datatype Fault = DivideByZero | RemainderByZero | DivideOverflow | RemainderOverflow | ShiftOutOfRange

  predicate Target(usizeBits: nat) {
    8 <= usizeBits <= 64
  }

  predicate IsSigned(k: Kind) {
    k.I8? || k.I16? || k.I32? || k.I64?
  }

  predicate IsUnsigned(k: Kind) {
    k.U8? || k.U16? || k.U32? || k.U64? || k.USize?
  }

  predicate IsInteger(k: Kind) {
    IsSigned(k) || IsUnsigned(k)
  }

  function Width(t: nat, k: Kind): (w: nat)
    requires Target(t)
    ensures 1 <= w <= 64
  {
    match k
    case I8 | U8 => 8
    case I16 | U16 => 16
    case I32 | U32 => 32
    case I64 | U64 => 64
    case USize => t
    case Boolean => 8
  }

  /** Bits of the host integer that stores a constant of an unsigned type. */
  function HostBits(k: Kind): (w: nat)
    ensures 1 <= w <= 64
  {
    match k
    case I8 | U8 | Boolean => 8
    case I16 | U16 => 16
    case I32 | U32 => 32
    case I64 | U64 | USize => 64
  }

  function StripConst(ty: Type): Type {
    ty.(isConst := false)
  }

  predicate IntegerType(ty: Type) {
    ty.Scalar? && IsInteger(ty.kind)
  }

  predicate BooleanType(ty: Type) {
    ty.Scalar? && ty.kind.Boolean?
  }

  predicate HasType(t: nat, v: Value, ty: Type)
    requires Target(t)
  {
    match v
    case VInt(n) => IntegerType(ty) && InRange(IsSigned(ty.kind), Width(t, ty.kind), n)
    case VBool(_) => BooleanType(ty)
    case VNull => ty.Pointer?
    case VAddr(_) => ty.Pointer?
  }

  // ---------------------------------------------------------------------------------------------
  // Typing: what the operator tables and the cast rules accept
  // ---------------------------------------------------------------------------------------------

  predicate Comparison(op: BinaryOp) {
    op.Less? || op.Greater? || op.LessEqual? || op.GreaterEqual?
  }

  predicate Equality(op: BinaryOp) {
    op.Equal? || op.NotEqual?
  }

  predicate YieldsBool(op: BinaryOp) {
    Comparison(op) || Equality(op)
  }

  predicate Logical(op: BinaryOp) {
    op.LogicalAnd? || op.LogicalOr?
  }

  predicate BitLogic(op: BinaryOp) {
    op.BitAnd? || op.BitXor? || op.BitOr?
  }

  /** `resolveBinary`: the result is `bool` for comparisons and logic, else the left type by value. */
  predicate ResolvesBinary(op: BinaryOp, l: Type, r: Type, result: Type) {
    if Logical(op) then
      result == Scalar(Boolean, false)
    else if l.Pointer? || r.Pointer? then
      Equality(op) && l.Pointer? && r.Pointer? && result == Scalar(Boolean, false)
    else
      && l.kind == r.kind
      && (if Comparison(op) || Equality(op) then
            result == Scalar(Boolean, false) && (Comparison(op) ==> IsInteger(l.kind))
          else
            result == StripConst(l) && (l.kind.Boolean? ==> BitLogic(op)))
  }

  predicate ResolvesUnary(op: UnaryOp, e: Type, result: Type) {
    match op
    case Identity | Negate | BitwiseNot => IntegerType(e) && result == StripConst(e)
    case LogicalNot => result == Scalar(Boolean, false)
    case AddressOf => result.Pointer?
    case Dereference => e.Pointer?
  }

  predicate WellTyped(t: nat, e: Expr)
    requires Target(t)
  {
    match e
    case Const(ty, v) => ty.Scalar? && HasType(t, v, ty)
    case ByteString(_, ty) => ty.Pointer?
    case Null(ty) => ty.Pointer?
    case BitCast(s, ty) =>
      && WellTyped(t, s)
      && ((s.ty.Pointer? && (ty.Pointer? || IntegerType(ty))) || (IntegerType(s.ty) && ty.Pointer?))
    case NumericCast(s, ty) => WellTyped(t, s) && IntegerType(s.ty) && IntegerType(ty)
    case Unary(op, s, ty) => WellTyped(t, s) && ResolvesUnary(op, s.ty, ty)
    case Binary(op, l, r, ty, sc) =>
      WellTyped(t, l) && WellTyped(t, r) && ResolvesBinary(op, l.ty, r.ty, ty) && (sc <==> Logical(op))
    case Opaque(_, _) => true
  }

  /** Built from constants by operators that have a compile-time meaning. */
  predicate Closed(e: Expr) {
    match e
    case Const(_, _) | ByteString(_, _) | Null(_) => true
    case BitCast(s, ty) => Closed(s) && s.ty.Pointer? && ty.Pointer?
    case NumericCast(s, _) => Closed(s)
    case Unary(op, s, _) => Closed(s) && !op.AddressOf? && !op.Dereference?
    case Binary(_, l, r, _, _) => Closed(l) && Closed(r)
    case Opaque(_, _) => false
  }

  // ---------------------------------------------------------------------------------------------
  // The folder
  // ---------------------------------------------------------------------------------------------

  datatype FoldResult = Folded(expr: Expr) | NotConstant | Error(fault: Fault) | Crash

  datatype PointerConstant = NotPointer | NullPointer | Address(node: nat)

  function InlinePointerConstant(e: Expr): PointerConstant {
    match e
    case ByteString(n, _) => Address(n)
    case Null(_) => NullPointer
    case BitCast(s, ty) => if ty.Pointer? then InlinePointerConstant(s) else NotPointer
    case _ => NotPointer
  }

  datatype Truth = Unknown | Known(b: bool)

  function InlineTruth(r: FoldResult): Truth {
    if !r.Folded? then Unknown
    else match r.expr
      case Const(_, VInt(n)) => Known(n != 0)
      case Const(_, VBool(b)) => Known(b)
      case e =>
        match InlinePointerConstant(e)
        case NotPointer => Unknown
        case NullPointer => Known(false)
        case Address(_) => Known(true)
  }

  function ComparePointers(l: FoldResult, r: FoldResult): Truth {
    if !l.Folded? || !r.Folded? then Unknown
    else
      match (InlinePointerConstant(l.expr), InlinePointerConstant(r.expr))
      case (NotPointer, _) => Unknown
      case (_, NotPointer) => Unknown
      case (Address(m), Address(n)) => Known(m == n)
      case (a, b) => Known(a.NullPointer? == b.NullPointer?)
  }

  function BoolConst(b: bool): FoldResult {
    Folded(Const(Scalar(Boolean, false), VBool(b)))
  }

  function SignedConst(t: nat, ty: Type, host: int): FoldResult
    requires Target(t)
  {
    if ty.Scalar? && IsSigned(ty.kind) then
      Folded(Const(ty, VInt(Wrap(true, Width(t, ty.kind), host))))
    else
      Crash
  }

  /** Stores into the host type of the constant; for `usize` that is always 64 bits. */
  function UnsignedConst(ty: Type, host: int): FoldResult {
    if ty.Scalar? && IsUnsigned(ty.kind) then
      Folded(Const(ty, VInt(Wrap(false, HostBits(ty.kind), host))))
    else
      Crash
  }

  function SignedFromAPInt(t: nat, ty: Type, a: APInt): FoldResult
    requires Target(t) && a.width >= 1
  {
    if IntegerType(ty) then SignedConst(t, ty, SExt(OfInt(Width(t, ty.kind), SExt(a)))) else Crash
  }

  function UnsignedFromAPInt(t: nat, ty: Type, a: APInt): FoldResult
    requires Target(t)
  {
    if IntegerType(ty) then UnsignedConst(ty, OfInt(Width(t, ty.kind), a.bits).bits) else Crash
  }

  function FoldCast(t: nat, source: Kind, n: int, ty: Type): FoldResult
    requires Target(t)
  {
    if !ty.Scalar? then NotConstant
    else if IsSigned(ty.kind) then
      SignedConst(t, ty, if IsSigned(source) then n else Wrap(true, 64, n))
    else if IsUnsigned(ty.kind) then
      UnsignedConst(ty, if IsSigned(source) then Wrap(false, 64, n) else n)
    else NotConstant
  }

  /** What one integer operator of the folder computes, before it is stored into a typed constant. */
  datatype ApResult = ApInt(a: APInt) | ApBool(b: bool) | ApFault(fault: Fault) | ApNone

  function SignedOp(op: BinaryOp, a: APInt, b: APInt): (r: ApResult)
    requires Valid(a) && Valid(b) && a.width == b.width
    ensures r.ApInt? ==> r.a.width == a.width && !YieldsBool(op)
    ensures r.ApBool? ==> YieldsBool(op)
  {
    var minByMinusOne := a.bits == Pow2(a.width - 1) && b.bits == Pow2(b.width) - 1;
    match op
    case AddOp => ApInt(Add(a, b))
    case SubOp => ApInt(Sub(a, b))
    case MulOp => ApInt(Mul(a, b))
    case DivOp =>
      if b.bits == 0 then ApFault(DivideByZero)
      else if minByMinusOne then ApFault(DivideOverflow)
      else ApInt(SDiv(a, b))
    case ModOp =>
      if b.bits == 0 then ApFault(RemainderByZero)
      else if minByMinusOne then ApFault(RemainderOverflow)
      else ApInt(SRem(a, b))
    case ShiftLeft =>
      if IsNegative(b) || b.bits >= a.width then ApFault(ShiftOutOfRange) else ApInt(Shl(a, b.bits))
    case ShiftRight =>
      if IsNegative(b) || b.bits >= a.width then ApFault(ShiftOutOfRange) else ApInt(AShr(a, b.bits))
    case BitAnd => ApInt(Bitwise(And, a, b))
    case BitXor => ApInt(Bitwise(Xor, a, b))
    case BitOr => ApInt(Bitwise(Or, a, b))
    case Less => ApBool(SLess(a, b))
    case Greater => ApBool(SLess(b, a))
    case LessEqual => ApBool(!SLess(b, a))
    case GreaterEqual => ApBool(!SLess(a, b))
    case Equal => ApBool(a == b)
    case NotEqual => ApBool(a != b)
    case LogicalAnd | LogicalOr => ApNone
  }

  function UnsignedOp(op: BinaryOp, a: APInt, b: APInt): (r: ApResult)
    requires Valid(a) && Valid(b) && a.width == b.width
    ensures r.ApInt? ==> r.a.width == a.width && !YieldsBool(op)
    ensures r.ApBool? ==> YieldsBool(op)
  {
    match op
    case AddOp => ApInt(Add(a, b))
    case SubOp => ApInt(Sub(a, b))
    case MulOp => ApInt(Mul(a, b))
    case DivOp => if b.bits == 0 then ApFault(DivideByZero) else ApInt(UDiv(a, b))
    case ModOp => if b.bits == 0 then ApFault(RemainderByZero) else ApInt(URem(a, b))
    case ShiftLeft => if b.bits >= a.width then ApFault(ShiftOutOfRange) else ApInt(Shl(a, b.bits))
    case ShiftRight => if b.bits >= a.width then ApFault(ShiftOutOfRange) else ApInt(LShr(a, b.bits))
    case BitAnd => ApInt(Bitwise(And, a, b))
    case BitXor => ApInt(Bitwise(Xor, a, b))
    case BitOr => ApInt(Bitwise(Or, a, b))
    case Less => ApBool(ULess(a, b))
    case Greater => ApBool(ULess(b, a))
    case LessEqual => ApBool(!ULess(b, a))
    case GreaterEqual => ApBool(!ULess(a, b))
    case Equal => ApBool(a == b)
    case NotEqual => ApBool(a != b)
    case LogicalAnd | LogicalOr => ApNone
  }

  /** Stores the result of an integer operator into a constant of the expression's type. */
  function FinishInts(t: nat, signed: bool, r: ApResult, ty: Type): FoldResult
    requires Target(t)
    requires r.ApInt? ==> r.a.width >= 1
  {
    match r
    case ApInt(a) => if signed then SignedFromAPInt(t, ty, a) else UnsignedFromAPInt(t, ty, a)
    case ApBool(b) => BoolConst(b)
    case ApFault(f) => Error(f)
    case ApNone => NotConstant
  }

  function FoldInts(t: nat, op: BinaryOp, k: Kind, l: int, r: int, ty: Type): FoldResult
    requires Target(t) && IsInteger(k)
  {
    var a, b := ConstAPInt(Width(t, k), l), ConstAPInt(Width(t, k), r);
    if IsSigned(k) then FinishInts(t, true, SignedOp(op, a, b), ty)
    else FinishInts(t, false, UnsignedOp(op, a, b), ty)
  }

  /** A constant read into an `APInt` keeps its low bits. */
  function ConstAPInt(w: nat, v: int): (a: APInt)
    requires w >= 1
    ensures Valid(a) && a.width == w
    ensures a == OfInt(w, v)
  {
    OfInt(w, v)
  }

  function FoldBools(op: BinaryOp, l: bool, r: bool): FoldResult {
    match op
    case BitAnd => BoolConst(l && r)
    case BitXor => BoolConst(l != r)
    case BitOr => BoolConst(l || r)
    case Equal => BoolConst(l == r)
    case NotEqual => BoolConst(l != r)
    case _ => NotConstant
  }

  function FoldIntUnary(t: nat, op: UnaryOp, k: Kind, n: int, ty: Type): FoldResult
    requires Target(t) && IsInteger(k)
  {
    var a := OfInt(Width(t, k), n);
    var result := if op.Negate? then Neg(a) else Not(a);
    if IsSigned(k) then SignedFromAPInt(t, ty, result) else UnsignedFromAPInt(t, ty, result)
  }

  function FoldUnary(t: nat, op: UnaryOp, operand: FoldResult, ty: Type): FoldResult
    requires Target(t) && !operand.Error? && !operand.Crash?
  {
    if op.AddressOf? || op.Dereference? then NotConstant
    else if op.LogicalNot? then
      var truth := InlineTruth(operand);
      if truth.Unknown? then NotConstant else BoolConst(!truth.b)
    else if !operand.Folded? || !operand.expr.Const? then NotConstant
    else if op.Identity? then operand
    else
      match operand.expr
      case Const(Scalar(k, _), VInt(n)) =>
        if IsInteger(k) then FoldIntUnary(t, op, k, n, ty) else Crash
      case Const(_, VBool(b)) => if op.BitwiseNot? then BoolConst(!b) else NotConstant
      case _ => Crash
  }

  function FoldBinary(t: nat, op: BinaryOp, left: FoldResult, right: FoldResult, ty: Type): FoldResult
    requires Target(t)
    requires !left.Error? && !left.Crash? && !right.Error? && !right.Crash?
  {
    var pointers := if Equality(op) then ComparePointers(left, right) else Unknown;
    if pointers.Known? then
      BoolConst(if op.Equal? then pointers.b else !pointers.b)
    else if !left.Folded? || !right.Folded? || !left.expr.Const? || !right.expr.Const? then
      NotConstant
    else
      match (left.expr, right.expr)
      case (Const(Scalar(k, _), VInt(l)), Const(Scalar(k2, _), VInt(r))) =>
        if IsInteger(k) && IsInteger(k2) && IsSigned(k) == IsSigned(k2) && Width(t, k) == Width(t, k2) then
          FoldInts(t, op, k, l, r, ty)
        else Crash
      case (Const(_, VBool(l)), Const(_, VBool(r))) => FoldBools(op, l, r)
      case _ => Crash
  }

  function Fold(t: nat, e: Expr): FoldResult
    requires Target(t)
  {
    match e
    case Const(_, _) | ByteString(_, _) | Null(_) => Folded(e)
    case BitCast(s, ty) =>
      if !ty.Pointer? then NotConstant
      else
        var source := Fold(t, s);
        if !source.Folded? then source
        else if InlinePointerConstant(source.expr).NotPointer? then NotConstant
        else Folded(BitCast(source.expr, ty))
    case NumericCast(s, ty) =>
      var source := Fold(t, s);
      if !source.Folded? then source
      else (
        match source.expr
        case Const(Scalar(k, _), VInt(n)) => FoldCast(t, k, n, ty)
        case Const(_, _) => Crash
        case _ => NotConstant)
    case Unary(op, s, ty) =>
      var operand := Fold(t, s);
      if operand.Error? || operand.Crash? then operand else FoldUnary(t, op, operand, ty)
    case Binary(op, l, r, ty, sc) =>
      var left := Fold(t, l);
      if left.Error? || left.Crash? then left
      else if sc then
        var lt := InlineTruth(left);
        if lt.Unknown? || !Logical(op) then NotConstant
        else if op.LogicalAnd? && !lt.b then BoolConst(false)
        else if op.LogicalOr? && lt.b then BoolConst(true)
        else
          var right := Fold(t, r);
          if right.Error? || right.Crash? then right
          else
            var rt := InlineTruth(right);
            if rt.Unknown? then NotConstant else BoolConst(rt.b)
      else
        var right := Fold(t, r);
        if right.Error? || right.Crash? then right else FoldBinary(t, op, left, right, ty)
    case Opaque(_, _) => NotConstant
  }

  // ---------------------------------------------------------------------------------------------
  // The evaluator
  // ---------------------------------------------------------------------------------------------

  datatype Outcome = Ok(v: Value) | Faulted(fault: Fault)

  /** Run-time knowledge: a number for every expression whose value is not known at compile time,
      read as a value of its type. */
  type Env = Expr -> int

  function AtRunTime(t: nat, ty: Type, n: int): (v: Value)
    requires Target(t)
  {
    if ty.Pointer? then (if n <= 0 then VNull else VAddr(n))
    else if ty.kind.Boolean? then VBool(n % 2 == 1)
    else VInt(Wrap(IsSigned(ty.kind), Width(t, ty.kind), n))
  }

  predicate Truthy(v: Value) {
    match v
    case VInt(n) => n != 0
    case VBool(b) => b
    case VNull => false
    case VAddr(_) => true
  }

  /** One operation of a w-bit integer type, on ideal integers. Division is undefined when the ideal
      quotient does not exist or does not fit; so is the remainder. */
  function EvalInts(op: BinaryOp, signed: bool, w: nat, x: int, y: int): Outcome
    requires w >= 1
  {
    match op
    case AddOp => Ok(VInt(Wrap(signed, w, x + y)))
    case SubOp => Ok(VInt(Wrap(signed, w, x - y)))
    case MulOp => Ok(VInt(Wrap(signed, w, x * y)))
    case DivOp =>
      if y == 0 then Faulted(DivideByZero)
      else if !InRange(signed, w, Quot(x, y)) then Faulted(DivideOverflow)
      else Ok(VInt(Quot(x, y)))
    case ModOp =>
      if y == 0 then Faulted(RemainderByZero)
      else if !InRange(signed, w, Quot(x, y)) then Faulted(RemainderOverflow)
      else Ok(VInt(Rem(x, y)))
    case ShiftLeft =>
      if !(0 <= y < w) then Faulted(ShiftOutOfRange) else Ok(VInt(Wrap(signed, w, x * Pow2(y))))
    case ShiftRight =>
      if !(0 <= y < w) then Faulted(ShiftOutOfRange) else Ok(VInt(Wrap(signed, w, x / Pow2(y))))
    case BitAnd => Ok(VInt(Wrap(signed, w, IdealBits(And, x, y))))
    case BitXor => Ok(VInt(Wrap(signed, w, IdealBits(Xor, x, y))))
    case BitOr => Ok(VInt(Wrap(signed, w, IdealBits(Or, x, y))))
    case Less => Ok(VBool(x < y))
    case Greater => Ok(VBool(x > y))
    case LessEqual => Ok(VBool(x <= y))
    case GreaterEqual => Ok(VBool(x >= y))
    case Equal => Ok(VBool(x == y))
    case NotEqual => Ok(VBool(x != y))
    case LogicalAnd => Ok(VBool(x != 0 && y != 0))
    case LogicalOr => Ok(VBool(x != 0 || y != 0))
  }

  /** Booleans and pointers: equality, and bit logic for booleans. */
  function EvalOthers(op: BinaryOp, l: Value, r: Value): Outcome {
    match op
    case Equal => Ok(VBool(l == r))
    case NotEqual => Ok(VBool(l != r))
    case BitAnd => Ok(VBool(Truthy(l) && Truthy(r)))
    case BitXor => Ok(VBool(Truthy(l) != Truthy(r)))
    case _ => Ok(VBool(Truthy(l) || Truthy(r)))
  }

  function EvalUnary(t: nat, op: UnaryOp, v: Value, ty: Type): Outcome
    requires Target(t)
  {
    if op.LogicalNot? then Ok(VBool(!Truthy(v)))
    else if !op.Identity? && v.VInt? && ty.Scalar? then
      Ok(VInt(Wrap(IsSigned(ty.kind), Width(t, ty.kind), if op.Negate? then -v.n else -1 - v.n)))
    else Ok(v)
  }

  function EvalBinary(t: nat, op: BinaryOp, operands: Type, l: Value, r: Value): Outcome
    requires Target(t)
  {
    if l.VInt? && r.VInt? && operands.Scalar? then
      EvalInts(op, IsSigned(operands.kind), Width(t, operands.kind), l.n, r.n)
    else EvalOthers(op, l, r)
  }

  function Eval(t: nat, e: Expr, env: Env): Outcome
    requires Target(t)
  {
    match e
    case Const(_, v) => Ok(v)
    case ByteString(n, _) => Ok(VAddr(n))
    case Null(_) => Ok(VNull)
    case Opaque(_, ty) => Ok(AtRunTime(t, ty, env(e)))
    case BitCast(s, ty) =>
      var source := Eval(t, s, env);
      if source.Faulted? || (ty.Pointer? && s.ty.Pointer?) then source
      else Ok(AtRunTime(t, ty, env(e)))
    case NumericCast(s, ty) =>
      var source := Eval(t, s, env);
      if source.Faulted? then source
      else if source.v.VInt? && ty.Scalar? then
        Ok(VInt(Wrap(IsSigned(ty.kind), Width(t, ty.kind), source.v.n)))
      else source
    case Unary(op, s, ty) =>
      var operand := Eval(t, s, env);
      if operand.Faulted? then operand
      else if op.AddressOf? || op.Dereference? then Ok(AtRunTime(t, ty, env(e)))
      else EvalUnary(t, op, operand.v, ty)
    case Binary(op, l, r, ty, _) =>
      var left := Eval(t, l, env);
      if left.Faulted? then left
      else if op.LogicalAnd? && !Truthy(left.v) then Ok(VBool(false))
      else if op.LogicalOr? && Truthy(left.v) then Ok(VBool(true))
      else
        var right := Eval(t, r, env);
        if right.Faulted? then right
        else if Logical(op) then Ok(VBool(Truthy(right.v)))
        else EvalBinary(t, op, l.ty, left.v, right.v)
  }

  // ---------------------------------------------------------------------------------------------
  // The integer operations of the folder are the ideal ones
  // ---------------------------------------------------------------------------------------------

  /** The folder's bits hold the ideal result, which is a value of the type. */
  predicate Matches(r: ApResult, o: Outcome, signed: bool, w: nat)
    requires w >= 1
  {
    match r
    case ApInt(a) => o.Ok? && o.v.VInt? && a.width == w && Represents(a, o.v.n) && InRange(signed, w, o.v.n)
    case ApBool(b) => o == Ok(VBool(b))
    case ApFault(f) => o == Faulted(f)
    case ApNone => false
  }

  lemma RepresentsWrapped(signed: bool, a: APInt, v: int)
    requires Represents(a, v)
    ensures Represents(a, Wrap(signed, a.width, v)) && InRange(signed, a.width, Wrap(signed, a.width, v))
  {
    WrapInRange(signed, a.width, v);
  }

  lemma SignedFromAPIntCorrect(t: nat, ty: Type, a: APInt, v: int)
    requires Target(t) && ty.Scalar? && IsSigned(ty.kind)
    requires a.width == Width(t, ty.kind) && Represents(a, v) && InSigned(a.width, v)
    ensures SignedFromAPInt(t, ty, a) == Folded(Const(ty, VInt(v)))
  {
    var w := a.width;
    ReadBack(a, v);
    WrapInRange(true, w, v);
    ReadBack(OfInt(w, v), v);
  }

  lemma UnsignedFromAPIntCorrect(t: nat, ty: Type, a: APInt, v: int)
    requires Target(t) && ty.Scalar? && IsUnsigned(ty.kind)
    requires a.width == Width(t, ty.kind) && Represents(a, v) && InUnsigned(a.width, v)
    ensures UnsignedFromAPInt(t, ty, a) == Folded(Const(ty, VInt(v)))
  {
    RepresentsUnsigned(a, v);
    RepresentsUnsigned(OfInt(a.width, v), v);
    FitsHost(t, ty.kind, v);
  }

  /** A value of an unsigned type is unchanged by the host integer that stores it. */
  lemma FitsHost(t: nat, k: Kind, u: int)
    requires Target(t) && IsUnsigned(k) && InUnsigned(Width(t, k), u)
    ensures Wrap(false, HostBits(k), u) == u
  {
    var w, h := Width(t, k), HostBits(k);
    Widen(w, h);
    WrapInRange(false, h, u);
  }

  lemma {:induction false} Widen(w: nat, h: nat)
    requires w <= h
    ensures Pow2(w) <= Pow2(h)
  {
    if w < h {
      Widen(w, h - 1);
    }
  }

  /** A signed quotient fails to fit only for the minimum divided by -1. */
  lemma QuotOverflow(w: nat, x: int, y: int)
    requires w >= 1 && InSigned(w, x) && InSigned(w, y) && y != 0
    ensures InSigned(w, Quot(x, y)) <==> !(x == -(Pow2(w - 1) as int) && y == -1)
  {
    QuotBound(x, y);
    if x == -(Pow2(w - 1) as int) && y != -1 && y < 0 {
      Division(Abs(x), Abs(y), Abs(x) / Abs(y), Abs(x) % Abs(y));
      var q := Abs(x) / Abs(y);
      NonNegProduct(Abs(y) - 2, q);
      assert Abs(y) * q == (Abs(y) - 2) * q + 2 * q;
    }
  }

  lemma QuotFitsUnsigned(w: nat, x: int, y: int)
    requires w >= 1 && InUnsigned(w, x) && InUnsigned(w, y) && y != 0
    ensures InUnsigned(w, Quot(x, y)) && InUnsigned(w, Rem(x, y))
  {
    QuotBound(x, y);
    RemSign(x, y);
  }

  lemma RemFitsSigned(w: nat, x: int, y: int)
    requires w >= 1 && InSigned(w, x) && InSigned(w, y) && y != 0
    ensures InSigned(w, Rem(x, y))
  {
    RemSign(x, y);
  }

  lemma SignedDivision(op: BinaryOp, w: nat, x: int, y: int)
    requires w >= 1 && (op.DivOp? || op.ModOp?) && InSigned(w, x) && InSigned(w, y)
    ensures Valid(OfInt(w, x)) && Valid(OfInt(w, y))
    ensures Matches(SignedOp(op, OfInt(w, x), OfInt(w, y)), EvalInts(op, true, w, x, y), true, w)
  {
    var a, b := OfInt(w, x), OfInt(w, y);
    RepresentsIsNegative(a, x);
    RepresentsIsNegative(b, y);
    if y != 0 {
      QuotOverflow(w, x, y);
      RemFitsSigned(w, x, y);
      SDivCorrect(a, b, x, y);
      SRemCorrect(a, b, x, y);
    }
  }

  lemma UnsignedDivision(op: BinaryOp, w: nat, x: int, y: int)
    requires w >= 1 && (op.DivOp? || op.ModOp?) && InUnsigned(w, x) && InUnsigned(w, y)
    ensures Valid(OfInt(w, x)) && Valid(OfInt(w, y))
    ensures Matches(UnsignedOp(op, OfInt(w, x), OfInt(w, y)), EvalInts(op, false, w, x, y), false, w)
  {
    var a, b := OfInt(w, x), OfInt(w, y);
    RepresentsUnsigned(a, x);
    RepresentsUnsigned(b, y);
    if y != 0 {
      UDivCorrect(a, b, x, y);
      QuotFitsUnsigned(w, x, y);
    }
  }

  lemma SignedShift(op: BinaryOp, w: nat, x: int, y: int)
    requires w >= 1 && (op.ShiftLeft? || op.ShiftRight?) && InSigned(w, x) && InSigned(w, y)
    ensures Valid(OfInt(w, x)) && Valid(OfInt(w, y))
    ensures Matches(SignedOp(op, OfInt(w, x), OfInt(w, y)), EvalInts(op, true, w, x, y), true, w)
  {
    var a, b := OfInt(w, x), OfInt(w, y);
    RepresentsIsNegative(b, y);
    if 0 <= y < w {
      ShlCorrect(a, y, x);
      RepresentsWrapped(true, Shl(a, y), x * Pow2(y));
      AShrCorrect(a, y, x);
      RepresentsWrapped(true, AShr(a, y), x / Pow2(y));
    }
  }

  lemma UnsignedShift(op: BinaryOp, w: nat, x: int, y: int)
    requires w >= 1 && (op.ShiftLeft? || op.ShiftRight?) && InUnsigned(w, x) && InUnsigned(w, y)
    ensures Valid(OfInt(w, x)) && Valid(OfInt(w, y))
    ensures Matches(UnsignedOp(op, OfInt(w, x), OfInt(w, y)), EvalInts(op, false, w, x, y), false, w)
  {
    var a, b := OfInt(w, x), OfInt(w, y);
    RepresentsUnsigned(b, y);
    if y < w {
      ShlCorrect(a, y, x);
      RepresentsWrapped(false, Shl(a, y), x * Pow2(y));
      LShrCorrect(a, y, x);
      RepresentsWrapped(false, LShr(a, y), x / Pow2(y));
    }
  }

  /** The operators that share one residue computation between signed and unsigned types. */
  predicate RingOp(op: BinaryOp) {
    op.AddOp? || op.SubOp? || op.MulOp? || BitLogic(op)
  }

  function RingResult(op: BinaryOp, a: APInt, b: APInt): APInt
    requires RingOp(op)
  {
    match op
    case AddOp => Add(a, b)
    case SubOp => Sub(a, b)
    case MulOp => Mul(a, b)
    case BitAnd => Bitwise(And, a, b)
    case BitXor => Bitwise(Xor, a, b)
    case BitOr => Bitwise(Or, a, b)
  }

  function RingIdeal(op: BinaryOp, x: int, y: int): int
    requires RingOp(op)
  {
    match op
    case AddOp => x + y
    case SubOp => x - y
    case MulOp => x * y
    case BitAnd => IdealBits(And, x, y)
    case BitXor => IdealBits(Xor, x, y)
    case BitOr => IdealBits(Or, x, y)
  }

  lemma RingCorrect(op: BinaryOp, a: APInt, b: APInt, x: int, y: int)
    requires RingOp(op) && Represents(a, x) && Represents(b, y) && a.width == b.width
    ensures RingResult(op, a, b).width == a.width
    ensures Represents(RingResult(op, a, b), RingIdeal(op, x, y))
  {
    match op
    case AddOp => AddCorrect(a, b, x, y);
    case SubOp => SubCorrect(a, b, x, y);
    case MulOp => MulCorrect(a, b, x, y);
    case BitAnd => BitwiseCorrect(And, a, b, x, y);
    case BitXor => BitwiseCorrect(Xor, a, b, x, y);
    case BitOr => BitwiseCorrect(Or, a, b, x, y);
  }

  lemma SignedOpCorrect(op: BinaryOp, w: nat, x: int, y: int)
    requires w >= 1 && !Logical(op) && InSigned(w, x) && InSigned(w, y)
    ensures Valid(OfInt(w, x)) && Valid(OfInt(w, y))
    ensures Matches(SignedOp(op, OfInt(w, x), OfInt(w, y)), EvalInts(op, true, w, x, y), true, w)
  {
    var a, b := OfInt(w, x), OfInt(w, y);
    if RingOp(op) {
      RingCorrect(op, a, b, x, y);
      RepresentsWrapped(true, RingResult(op, a, b), RingIdeal(op, x, y));
    } else if op.DivOp? || op.ModOp? {
      SignedDivision(op, w, x, y);
    } else if op.ShiftLeft? || op.ShiftRight? {
      SignedShift(op, w, x, y);
    } else {
      CompareCorrect(true, a, b, x, y);
      CompareCorrect(true, b, a, y, x);
    }
  }

  lemma UnsignedOpCorrect(op: BinaryOp, w: nat, x: int, y: int)
    requires w >= 1 && !Logical(op) && InUnsigned(w, x) && InUnsigned(w, y)
    ensures Valid(OfInt(w, x)) && Valid(OfInt(w, y))
    ensures Matches(UnsignedOp(op, OfInt(w, x), OfInt(w, y)), EvalInts(op, false, w, x, y), false, w)
  {
    var a, b := OfInt(w, x), OfInt(w, y);
    if RingOp(op) {
      RingCorrect(op, a, b, x, y);
      RepresentsWrapped(false, RingResult(op, a, b), RingIdeal(op, x, y));
    } else if op.DivOp? || op.ModOp? {
      UnsignedDivision(op, w, x, y);
    } else if op.ShiftLeft? || op.ShiftRight? {
      UnsignedShift(op, w, x, y);
    } else {
      CompareCorrect(false, a, b, x, y);
      CompareCorrect(false, b, a, y, x);
    }
  }

  /** The constant that a value of evaluation is stored as. */
  function AsFold(o: Outcome, ty: Type): FoldResult {
    match o
    case Faulted(f) => Error(f)
    case Ok(v) => if v.VBool? then BoolConst(v.b) else Folded(Const(ty, v))
  }

  lemma FinishCorrect(t: nat, k: Kind, r: ApResult, o: Outcome, ty: Type)
    requires Target(t) && IsInteger(k) && Matches(r, o, IsSigned(k), Width(t, k))
    requires r.ApInt? ==> ty == Scalar(k, false)
    ensures FinishInts(t, IsSigned(k), r, ty) == AsFold(o, ty)
  {
    if r.ApInt? {
      if IsSigned(k) {
        SignedFromAPIntCorrect(t, ty, r.a, o.v.n);
      } else {
        UnsignedFromAPIntCorrect(t, ty, r.a, o.v.n);
      }
    }
  }

  lemma FoldIntsCorrect(t: nat, op: BinaryOp, k: Kind, x: int, y: int, ty: Type)
    requires Target(t) && IsInteger(k) && !Logical(op)
    requires InRange(IsSigned(k), Width(t, k), x) && InRange(IsSigned(k), Width(t, k), y)
    requires YieldsBool(op) || ty == Scalar(k, false)
    ensures FoldInts(t, op, k, x, y, ty) == AsFold(EvalInts(op, IsSigned(k), Width(t, k), x, y), ty)
    ensures IntsTyped(t, op, k, EvalInts(op, IsSigned(k), Width(t, k), x, y))
  {
    var w := Width(t, k);
    var a, b := ConstAPInt(w, x), ConstAPInt(w, y);
    var o := EvalInts(op, IsSigned(k), w, x, y);
    if IsSigned(k) {
      SignedOpCorrect(op, w, x, y);
      FinishCorrect(t, k, SignedOp(op, a, b), o, ty);
    } else {
      UnsignedOpCorrect(op, w, x, y);
      FinishCorrect(t, k, UnsignedOp(op, a, b), o, ty);
    }
  }

  predicate IntsTyped(t: nat, op: BinaryOp, k: Kind, o: Outcome)
    requires Target(t)
  {
    o.Ok? ==>
      if YieldsBool(op) then o.v.VBool?
      else o.v.VInt? && InRange(IsSigned(k), Width(t, k), o.v.n)
  }

  lemma FoldIntUnaryCorrect(t: nat, op: UnaryOp, k: Kind, n: int, ty: Type)
    requires Target(t) && IsInteger(k) && (op.Negate? || op.BitwiseNot?) && ty == Scalar(k, false)
    ensures FoldIntUnary(t, op, k, n, ty)
         == Folded(Const(ty, VInt(Wrap(IsSigned(k), Width(t, k), if op.Negate? then -n else -1 - n))))
    ensures InRange(IsSigned(k), Width(t, k), Wrap(IsSigned(k), Width(t, k), if op.Negate? then -n else -1 - n))
  {
    var w := Width(t, k);
    var a := OfInt(w, n);
    NegCorrect(a, n);
    NotCorrect(a, n);
    var result := if op.Negate? then Neg(a) else Not(a);
    var v := if op.Negate? then -n else -1 - n;
    RepresentsWrapped(IsSigned(k), result, v);
    if IsSigned(k) {
      SignedFromAPIntCorrect(t, ty, result, Wrap(true, w, v));
    } else {
      UnsignedFromAPIntCorrect(t, ty, result, Wrap(false, w, v));
    }
  }

  // ---------------------------------------------------------------------------------------------
  // Casts
  // ---------------------------------------------------------------------------------------------

  lemma HostUnsigned(h: nat, n: int)
    requires h >= 1 && -(Pow2(h - 1) as int) <= n < Pow2(h)
    ensures Wrap(false, h, n) == if n < 0 then n + Pow2(h) else n
    ensures n < 0 ==> Wrap(false, h, n) >= Pow2(h - 1)
  {
    if n < 0 {
      WrapUnique(false, h, n, n + Pow2(h), -1);
    } else {
      WrapUnique(false, h, n, n, 0);
    }
  }

  lemma SourceInHost(t: nat, source: Kind, n: int, h: nat)
    requires Target(t) && IsInteger(source) && InRange(IsSigned(source), Width(t, source), n) && h == 64
    ensures -(Pow2(h - 1) as int) <= n < Pow2(h)
  {
    Widen(Width(t, source), h);
    Widen(Width(t, source) - 1, h - 1);
    Widen(h - 1, h);
  }

  /** What ends up in a `usize` constant: the source value as a 64-bit host integer. */
  lemma UsizeCastStores(t: nat, source: Kind, n: int, isConst: bool, h: nat)
    requires Target(t) && IsInteger(source) && h == 64
    requires InRange(IsSigned(source), Width(t, source), n)
    ensures FoldCast(t, source, n, Scalar(USize, isConst))
         == Folded(Const(Scalar(USize, isConst), VInt(Wrap(false, h, n))))
  {
    if IsSigned(source) {
      WrapInRange(false, h, n);
      WrapInRange(false, h, Wrap(false, h, n));
    }
  }

  /** Into a narrow `usize`: the cast keeps its meaning exactly when the source value fits. */
  lemma UsizeCastExact(t: nat, source: Kind, n: int, isConst: bool)
    requires Target(t) && t < 64 && IsInteger(source)
    requires InRange(IsSigned(source), Width(t, source), n)
    ensures FoldCast(t, source, n, Scalar(USize, isConst))
         == Folded(Const(Scalar(USize, isConst), VInt(Wrap(false, t, n))))
       <==> 0 <= n < Pow2(t)
  {
    var h := 64;
    SourceInHost(t, source, n, h);
    UsizeCastStores(t, source, n, isConst, h);
    HostUnsigned(h, n);
    Widen(t, h - 1);
    WrapInRange(false, t, n);
  }

  /** The value reaches the type unharmed by the 64-bit host of a narrow `usize`. */
  predicate Reaches(t: nat, ty: Type, n: int)
    requires Target(t)
  {
    ty.Scalar? && ty.kind.USize? && t < 64 ==> 0 <= n < Pow2(t)
  }

  lemma SignedCastCorrect(t: nat, source: Kind, n: int, ty: Type, h: nat)
    requires Target(t) && h == 64 && IntegerType(ty) && IsSigned(ty.kind)
    requires IsInteger(source) && InRange(IsSigned(source), Width(t, source), n)
    ensures FoldCast(t, source, n, ty) == Folded(Const(ty, VInt(Wrap(true, Width(t, ty.kind), n))))
  {
    WrapThroughHost(true, h, true, Width(t, ty.kind), n);
  }

  lemma UnsignedCastCorrect(t: nat, source: Kind, n: int, ty: Type, h: nat)
    requires Target(t) && h == 64 && IntegerType(ty) && IsUnsigned(ty.kind) && !(ty.kind.USize? && t < 64)
    requires IsInteger(source) && InRange(IsSigned(source), Width(t, source), n)
    ensures FoldCast(t, source, n, ty) == Folded(Const(ty, VInt(Wrap(false, Width(t, ty.kind), n))))
  {
    assert HostBits(ty.kind) == Width(t, ty.kind);
    WrapThroughHost(false, h, false, Width(t, ty.kind), n);
  }

  /** The two-step cast is one reduction, if and only if the value reaches the type. */
  lemma FoldCastCorrect(t: nat, source: Kind, n: int, ty: Type)
    requires Target(t) && IsInteger(source) && IntegerType(ty)
    requires InRange(IsSigned(source), Width(t, source), n)
    ensures FoldCast(t, source, n, ty)
         == Folded(Const(ty, VInt(Wrap(IsSigned(ty.kind), Width(t, ty.kind), n))))
       <==> Reaches(t, ty, n)
  {
    var h := 64;
    if IsSigned(ty.kind) {
      SignedCastCorrect(t, source, n, ty, h);
    } else if ty.kind.USize? && t < h {
      UsizeCastExact(t, source, n, ty.isConst);
    } else {
      UnsignedCastCorrect(t, source, n, ty, h);
    }
  }

  // ---------------------------------------------------------------------------------------------
  // Meaning preservation
  // ---------------------------------------------------------------------------------------------

  /** The shapes the folder returns. */
  predicate IsConstant(e: Expr) {
    match e
    case Const(_, _) => true
    case _ => !InlinePointerConstant(e).NotPointer?
  }

  function ConstantValue(e: Expr): Value
    requires IsConstant(e)
  {
    if e.Const? then e.value
    else
      match InlinePointerConstant(e)
      case NullPointer => VNull
      case Address(n) => VAddr(n)
  }

  /** The constant f is a faithful, fully folded stand-in for the value v of type ty. */
  predicate StandsFor(t: nat, f: Expr, v: Value, ty: Type)
    requires Target(t)
  {
    && IsConstant(f) && ConstantValue(f) == v
    && WellTyped(t, f) && StripConst(f.ty) == StripConst(ty)
    && Fold(t, f) == Folded(f)
  }

  /** The meaning of a folding result: what evaluation must do in every run-time environment. */
  predicate Agrees(t: nat, e: Expr, r: FoldResult, env: Env)
    requires Target(t)
  {
    match r
    case Folded(f) => Eval(t, e, env).Ok? && StandsFor(t, f, Eval(t, e, env).v, e.ty)
    case Error(fault) => Eval(t, e, env).Faulted? && (Closed(e) ==> Eval(t, e, env) == Faulted(fault))
    case NotConstant => !Closed(e)
    case Crash => false
  }

  /** The same for one operator applied to constants. */
  predicate Yields(t: nat, r: FoldResult, o: Outcome, ty: Type)
    requires Target(t)
  {
    match r
    case Folded(f) => o.Ok? && StandsFor(t, f, o.v, ty)
    case Error(fault) => o == Faulted(fault)
    case _ => false
  }

  lemma {:induction false} EvalTyped(t: nat, e: Expr, env: Env)
    requires Target(t) && WellTyped(t, e)
    ensures Eval(t, e, env).Ok? ==> HasType(t, Eval(t, e, env).v, e.ty)
  {
    match e
    case Const(_, _) | ByteString(_, _) | Null(_) =>
    case Opaque(_, ty) => AtRunTimeTyped(t, ty, env(e));
    case BitCast(s, ty) =>
      EvalTyped(t, s, env);
      AtRunTimeTyped(t, ty, env(e));
    case NumericCast(s, ty) =>
      EvalTyped(t, s, env);
      if Eval(t, s, env).Ok? {
        WrapInRange(IsSigned(ty.kind), Width(t, ty.kind), Eval(t, s, env).v.n);
      }
    case Unary(op, s, ty) =>
      EvalTyped(t, s, env);
      AtRunTimeTyped(t, ty, env(e));
      if Eval(t, s, env).Ok? && !op.AddressOf? && !op.Dereference? {
        EvalUnaryTyped(t, op, Eval(t, s, env).v, s.ty, ty);
      }
    case Binary(op, l, r, ty, _) =>
      EvalTyped(t, l, env);
      EvalTyped(t, r, env);
      var left, right := Eval(t, l, env), Eval(t, r, env);
      if left.Ok? && right.Ok? && !Logical(op) {
        EvalBinaryTyped(t, op, left.v, right.v, l.ty, r.ty, ty);
      }
  }

  lemma EvalUnaryTyped(t: nat, op: UnaryOp, v: Value, sty: Type, ty: Type)
    requires Target(t) && HasType(t, v, sty)
    requires ResolvesUnary(op, sty, ty) && !op.AddressOf? && !op.Dereference?
    ensures EvalUnary(t, op, v, ty).Ok? && HasType(t, EvalUnary(t, op, v, ty).v, ty)
  {
    if !op.LogicalNot? {
      WrapInRange(IsSigned(ty.kind), Width(t, ty.kind), if op.Negate? then -v.n else -1 - v.n);
    }
  }

  lemma EvalBinaryTyped(t: nat, op: BinaryOp, l: Value, r: Value, lty: Type, rty: Type, ty: Type)
    requires Target(t) && HasType(t, l, lty) && HasType(t, r, rty)
    requires ResolvesBinary(op, lty, rty, ty) && !Logical(op)
    ensures var o := EvalBinary(t, op, lty, l, r); o.Ok? ==> HasType(t, o.v, ty)
  {
    if IntegerType(lty) {
      FoldIntsCorrect(t, op, lty.kind, l.n, r.n, Scalar(lty.kind, false));
    }
  }

  lemma AtRunTimeTyped(t: nat, ty: Type, n: int)
    requires Target(t)
    ensures HasType(t, AtRunTime(t, ty, n), ty)
  {
    if IntegerType(ty) {
      WrapInRange(IsSigned(ty.kind), Width(t, ty.kind), n);
    }
  }

  lemma TruthCorrect(t: nat, f: Expr, v: Value, ty: Type)
    requires Target(t) && StandsFor(t, f, v, ty)
    ensures InlineTruth(Folded(f)) == Known(Truthy(v))
  {
  }

  lemma YieldsAsFold(t: nat, o: Outcome, ty: Type)
    requires Target(t) && !ty.isConst && ty.Scalar?
    requires o.Ok? ==> HasType(t, o.v, ty)
    ensures Yields(t, AsFold(o, ty), o, ty)
  {
  }

  lemma FoldUnaryCorrect(t: nat, op: UnaryOp, f: Expr, v: Value, sty: Type, ty: Type)
    requires Target(t) && StandsFor(t, f, v, sty)
    requires ResolvesUnary(op, sty, ty) && !op.AddressOf? && !op.Dereference?
    ensures Yields(t, FoldUnary(t, op, Folded(f), ty), EvalUnary(t, op, v, ty), ty)
  {
    if op.LogicalNot? {
      TruthCorrect(t, f, v, sty);
      YieldsAsFold(t, EvalUnary(t, op, v, ty), ty);
    } else if !op.Identity? {
      FoldIntUnaryCorrect(t, op, f.ty.kind, v.n, ty);
      YieldsAsFold(t, EvalUnary(t, op, v, ty), ty);
    }
  }

  lemma FoldBinaryInts(t: nat, op: BinaryOp, f: Expr, g: Expr, l: Value, r: Value, lty: Type, rty: Type, ty: Type)
    requires Target(t) && StandsFor(t, f, l, lty) && StandsFor(t, g, r, rty) && IntegerType(lty)
    requires ResolvesBinary(op, lty, rty, ty) && !Logical(op)
    ensures FoldBinary(t, op, Folded(f), Folded(g), ty) == AsFold(EvalBinary(t, op, lty, l, r), ty)
  {
    FoldIntsCorrect(t, op, lty.kind, l.n, r.n, ty);
  }

  lemma FoldBinaryOthers(t: nat, op: BinaryOp, f: Expr, g: Expr, l: Value, r: Value, lty: Type, rty: Type, ty: Type)
    requires Target(t) && StandsFor(t, f, l, lty) && StandsFor(t, g, r, rty) && !IntegerType(lty)
    requires ResolvesBinary(op, lty, rty, ty) && !Logical(op)
    ensures FoldBinary(t, op, Folded(f), Folded(g), ty) == AsFold(EvalBinary(t, op, lty, l, r), ty)
  {
    if lty.Scalar? {
      assert f.Const? && g.Const?;
    }
  }

  lemma FoldBinaryCorrect(t: nat, op: BinaryOp, f: Expr, g: Expr, l: Value, r: Value, lty: Type, rty: Type, ty: Type)
    requires Target(t) && StandsFor(t, f, l, lty) && StandsFor(t, g, r, rty)
    requires ResolvesBinary(op, lty, rty, ty) && !Logical(op)
    ensures Yields(t, FoldBinary(t, op, Folded(f), Folded(g), ty), EvalBinary(t, op, lty, l, r), ty)
  {
    if IntegerType(lty) {
      FoldBinaryInts(t, op, f, g, l, r, lty, rty, ty);
    } else {
      FoldBinaryOthers(t, op, f, g, l, r, lty, rty, ty);
    }
    EvalBinaryTyped(t, op, l, r, lty, rty, ty);
    YieldsAsFold(t, EvalBinary(t, op, lty, l, r), ty);
  }

  lemma FoldCastYields(t: nat, f: Expr, v: Value, sty: Type, ty: Type)
    requires Target(t) && StandsFor(t, f, v, sty) && IntegerType(sty) && IntegerType(ty)
    requires v.VInt? ==> Reaches(t, ty, v.n)
    ensures v.VInt? && f.Const?
    ensures Yields(t, FoldCast(t, f.ty.kind, v.n, ty),
                   Ok(VInt(Wrap(IsSigned(ty.kind), Width(t, ty.kind), v.n))), ty)
  {
    FoldCastCorrect(t, f.ty.kind, v.n, ty);
    WrapInRange(IsSigned(ty.kind), Width(t, ty.kind), v.n);
  }

  /** The folder goes on to the right operand: not after an error, and for a short-circuit operator only
      when the left operand has a known value that does not decide. */
  predicate LooksRight(op: BinaryOp, left: FoldResult, sc: bool) {
    && !left.Error? && !left.Crash?
    && (sc ==> var lt := InlineTruth(left); lt.Known? && lt.b == op.LogicalAnd?)
  }

  /** A short-circuit operator folds as it evaluates. */
  lemma FoldShortCircuitAgrees(t: nat, op: BinaryOp, l: Expr, r: Expr, env: Env)
    requires Target(t) && Logical(op) && Agrees(t, l, Fold(t, l), env)
    requires LooksRight(op, Fold(t, l), true) ==> Agrees(t, r, Fold(t, r), env)
    ensures var e := Binary(op, l, r, Scalar(Boolean, false), true); Agrees(t, e, Fold(t, e), env)
  {
    if Fold(t, l).Folded? {
      TruthCorrect(t, Fold(t, l).expr, Eval(t, l, env).v, l.ty);
      if LooksRight(op, Fold(t, l), true) {
        ShortCircuitLooks(t, op, l, r, env);
      } else {
        assert Eval(t, Binary(op, l, r, Scalar(Boolean, false), true), env) == Ok(VBool(op.LogicalOr?));
      }
    }
  }

  lemma ShortCircuitLooks(t: nat, op: BinaryOp, l: Expr, r: Expr, env: Env)
    requires Target(t) && Logical(op) && Agrees(t, l, Fold(t, l), env)
    requires LooksRight(op, Fold(t, l), true) && Agrees(t, r, Fold(t, r), env)
    ensures var e := Binary(op, l, r, Scalar(Boolean, false), true); Agrees(t, e, Fold(t, e), env)
  {
    TruthCorrect(t, Fold(t, l).expr, Eval(t, l, env).v, l.ty);
    if Fold(t, r).Folded? {
      TruthCorrect(t, Fold(t, r).expr, Eval(t, r, env).v, r.ty);
    }
  }

  /** What a short-circuit operator folds to when the left operand alone settles it. */
  function SkipRight(op: BinaryOp, left: FoldResult): FoldResult {
    if left.Error? || left.Crash? then left
    else if InlineTruth(left).Unknown? then NotConstant
    else BoolConst(op.LogicalOr?)
  }

  lemma FoldSkips(t: nat, op: BinaryOp, l: Expr, r: Expr, ty: Type)
    requires Target(t) && Logical(op) && !LooksRight(op, Fold(t, l), true)
    ensures Fold(t, Binary(op, l, r, ty, true)) == SkipRight(op, Fold(t, l))
  {
  }

  /** The folder looks at the right operand of a short-circuit operator only when evaluation does: exactly
      then when the left operand folds, and otherwise the result is the same for every right operand. */
  lemma FoldShortCircuitLooks(t: nat, op: BinaryOp, l: Expr, r: Expr, ty: Type, env: Env)
    requires Target(t) && Logical(op) && Agrees(t, l, Fold(t, l), env)
    ensures Fold(t, l).Folded? ==> Eval(t, l, env).Ok?
    ensures Fold(t, l).Folded? ==> (LooksRight(op, Fold(t, l), true) <==> Truthy(Eval(t, l, env).v) == op.LogicalAnd?)
    ensures !LooksRight(op, Fold(t, l), true) ==> Fold(t, Binary(op, l, r, ty, true)) == SkipRight(op, Fold(t, l))
  {
    if Fold(t, l).Folded? {
      TruthCorrect(t, Fold(t, l).expr, Eval(t, l, env).v, l.ty);
    }
    if !LooksRight(op, Fold(t, l), true) {
      FoldSkips(t, op, l, r, ty);
    }
  }

  lemma FoldUnaryAgrees(t: nat, op: UnaryOp, s: Expr, ty: Type, env: Env)
    requires Target(t) && ResolvesUnary(op, s.ty, ty) && Agrees(t, s, Fold(t, s), env)
    ensures var e := Unary(op, s, ty); Agrees(t, e, Fold(t, e), env)
  {
    if Fold(t, s).Folded? && !op.AddressOf? && !op.Dereference? {
      FoldUnaryCorrect(t, op, Fold(t, s).expr, Eval(t, s, env).v, s.ty, ty);
    }
  }

  /** Two constant operands: the expression folds and evaluates like the operator on their values. */
  lemma FoldBinaryOnConstants(t: nat, op: BinaryOp, l: Expr, r: Expr, ty: Type, env: Env)
    requires Target(t) && ResolvesBinary(op, l.ty, r.ty, ty) && !Logical(op)
    requires Agrees(t, l, Fold(t, l), env) && Agrees(t, r, Fold(t, r), env)
    requires Fold(t, l).Folded? && Fold(t, r).Folded?
    ensures var e := Binary(op, l, r, ty, false); Yields(t, Fold(t, e), Eval(t, e, env), ty)
  {
    var x, y := Eval(t, l, env).v, Eval(t, r, env).v;
    FoldBinaryCorrect(t, op, Fold(t, l).expr, Fold(t, r).expr, x, y, l.ty, r.ty, ty);
    assert Eval(t, Binary(op, l, r, ty, false), env) == EvalBinary(t, op, l.ty, x, y);
  }

  lemma RightErrorAgrees(t: nat, op: BinaryOp, l: Expr, r: Expr, ty: Type, env: Env)
    requires Target(t) && !Logical(op) && !Fold(t, l).Error? && Fold(t, r).Error?
    requires Agrees(t, l, Fold(t, l), env) && Agrees(t, r, Fold(t, r), env)
    ensures var e := Binary(op, l, r, ty, false); Agrees(t, e, Fold(t, e), env)
  {
  }

  /** An operand that is not constant: the operator is not either. */
  lemma OpenOperandAgrees(t: nat, op: BinaryOp, l: Expr, r: Expr, ty: Type, env: Env)
    requires Target(t) && !Logical(op) && !Fold(t, l).Error? && !Fold(t, r).Error?
    requires !Fold(t, l).Folded? || !Fold(t, r).Folded?
    requires Agrees(t, l, Fold(t, l), env) && Agrees(t, r, Fold(t, r), env)
    ensures var e := Binary(op, l, r, ty, false); Agrees(t, e, Fold(t, e), env)
  {
  }

  lemma FoldBinaryAgrees(t: nat, op: BinaryOp, l: Expr, r: Expr, ty: Type, env: Env)
    requires Target(t) && ResolvesBinary(op, l.ty, r.ty, ty) && !Logical(op) && !Fold(t, l).Error?
    requires Agrees(t, l, Fold(t, l), env) && Agrees(t, r, Fold(t, r), env)
    ensures var e := Binary(op, l, r, ty, false); Agrees(t, e, Fold(t, e), env)
  {
    if Fold(t, r).Error? {
      RightErrorAgrees(t, op, l, r, ty, env);
    } else if Fold(t, l).Folded? && Fold(t, r).Folded? {
      FoldBinaryOnConstants(t, op, l, r, ty, env);
    } else {
      OpenOperandAgrees(t, op, l, r, ty, env);
    }
  }

  predicate FoldedReaches(t: nat, source: FoldResult, ty: Type)
    requires Target(t)
  {
    match source
    case Folded(Const(_, VInt(n))) => Reaches(t, ty, n)
    case _ => true
  }

  /** Every cast the folder performs into a narrow `usize` is of a value that fits; trivially so where
      pointers have 64 bits. Casts of operands that do not fold, or that the folder does not look at, are
      free. */
  predicate CastsFit(t: nat, e: Expr)
    requires Target(t)
  {
    match e
    case BitCast(s, _) => CastsFit(t, s)
    case NumericCast(s, ty) =>
      CastsFit(t, s) && FoldedReaches(t, Fold(t, s), ty)
    case Unary(_, s, _) => CastsFit(t, s)
    case Binary(op, l, r, _, sc) => CastsFit(t, l) && (LooksRight(op, Fold(t, l), sc) ==> CastsFit(t, r))
    case _ => true
  }

  lemma FoldNumericCastAgrees(t: nat, s: Expr, ty: Type, env: Env)
    requires Target(t) && IntegerType(s.ty) && IntegerType(ty) && Agrees(t, s, Fold(t, s), env)
    requires FoldedReaches(t, Fold(t, s), ty)
    ensures var e := NumericCast(s, ty); Agrees(t, e, Fold(t, e), env)
  {
    if Fold(t, s).Folded? {
      FoldCastYields(t, Fold(t, s).expr, Eval(t, s, env).v, s.ty, ty);
    }
  }

  lemma LeftErrorAgrees(t: nat, op: BinaryOp, l: Expr, r: Expr, ty: Type, sc: bool, env: Env)
    requires Target(t) && Agrees(t, l, Fold(t, l), env) && Fold(t, l).Error?
    ensures var e := Binary(op, l, r, ty, sc); Agrees(t, e, Fold(t, e), env)
  {
  }

  /** Whatever the folder answers agrees with evaluation, for every well-typed expression whose casts
      fit and in every run-time environment. */
  lemma {:induction false} FoldAgrees(t: nat, e: Expr, env: Env)
    requires Target(t) && WellTyped(t, e) && CastsFit(t, e)
    ensures Agrees(t, e, Fold(t, e), env)
  {
    match e
    case Const(_, _) | ByteString(_, _) | Null(_) | Opaque(_, _) =>
    case BitCast(s, ty) => FoldAgrees(t, s, env);
    case NumericCast(s, ty) =>
      FoldAgrees(t, s, env);
      FoldNumericCastAgrees(t, s, ty, env);
    case Unary(op, s, ty) =>
      FoldAgrees(t, s, env);
      FoldUnaryAgrees(t, op, s, ty, env);
    case Binary(op, l, r, ty, sc) =>
      FoldAgrees(t, l, env);
      if LooksRight(op, Fold(t, l), sc) {
        FoldAgrees(t, r, env);
      }
      if sc {
        FoldShortCircuitAgrees(t, op, l, r, env);
      } else if Fold(t, l).Error? {
        LeftErrorAgrees(t, op, l, r, ty, sc, env);
      } else {
        FoldBinaryAgrees(t, op, l, r, ty, env);
      }
  }

  lemma {:induction false} CastsAlwaysFit(e: Expr)
    ensures CastsFit(64, e)
  {
    match e
    case BitCast(s, _) => CastsAlwaysFit(s);
    case NumericCast(s, _) => CastsAlwaysFit(s);
    case Unary(_, s, _) => CastsAlwaysFit(s);
    case Binary(_, l, r, _, _) => CastsAlwaysFit(l); CastsAlwaysFit(r);
    case _ =>
  }

  /** A folded inline value is what the expression evaluates to, whatever the run-time environment;
      it has the expression's type, mentions nothing unknown, and folds to itself. */
  lemma FoldPreservesMeaning(t: nat, e: Expr, env: Env, anyEnv: Env)
    requires Target(t) && WellTyped(t, e) && CastsFit(t, e)
    ensures Fold(t, e).Folded? ==> var f := Fold(t, e).expr;
      && Eval(t, e, env).Ok? && Eval(t, f, anyEnv) == Eval(t, e, env)
      && HasType(t, Eval(t, e, env).v, e.ty) && StripConst(f.ty) == StripConst(e.ty)
      && Fold(t, f) == Folded(f)
  {
    FoldAgrees(t, e, env);
    EvalTyped(t, e, env);
    if Fold(t, e).Folded? {
      ConstantEval(t, Fold(t, e).expr, anyEnv);
    }
  }

  lemma {:induction false} ConstantEval(t: nat, f: Expr, env: Env)
    requires Target(t) && IsConstant(f) && WellTyped(t, f)
    ensures Eval(t, f, env) == Ok(ConstantValue(f))
  {
    match f
    case BitCast(s, _) =>
      ConstantEval(t, s, env);
    case _ =>
  }

  /** On closed expressions folding is exact: it answers with a value or reports exactly the fault
      that evaluation runs into. */
  lemma FoldExactOnClosed(t: nat, e: Expr, env: Env)
    requires Target(t) && WellTyped(t, e) && CastsFit(t, e) && Closed(e)
    ensures Fold(t, e).Folded? <==> Eval(t, e, env).Ok?
    ensures Fold(t, e).Error? <==> Eval(t, e, env).Faulted?
    ensures Fold(t, e).Error? ==> Eval(t, e, env) == Faulted(Fold(t, e).fault)
  {
    FoldAgrees(t, e, env);
  }

  /** An error is only reported for an expression that faults in every run-time environment, and the
      folder never trips over a constant of an unexpected type. */
  lemma FoldErrorsAreReal(t: nat, e: Expr, env: Env)
    requires Target(t) && WellTyped(t, e) && CastsFit(t, e)
    ensures Fold(t, e).Error? ==> Eval(t, e, env).Faulted?
    ensures !Fold(t, e).Crash?
  {
    FoldAgrees(t, e, env);
  }

  /** Where `usize` is narrow, a cast to it of anything that folds keeps its meaning exactly when the value
      fits; this is the only cast the folder gets wrong. */
  lemma NarrowUsizeCastMeaning(t: nat, s: Expr, ty: Type, env: Env)
    requires Target(t) && t < 64 && WellTyped(t, s) && CastsFit(t, s) && IntegerType(s.ty) && Fold(t, s).Folded?
    requires ty.Scalar? && ty.kind.USize?
    ensures var e := NumericCast(s, ty);
      && Eval(t, s, env).Ok? && Eval(t, s, env).v.VInt? && Eval(t, e, env).Ok?
      && (Fold(t, e) == Folded(Const(ty, Eval(t, e, env).v)) <==> 0 <= Eval(t, s, env).v.n < Pow2(t))
      && (Agrees(t, e, Fold(t, e), env) <==> 0 <= Eval(t, s, env).v.n < Pow2(t))
  {
    FoldAgrees(t, s, env);
    FoldedInteger(t, s, env);
    var n := Eval(t, s, env).v.n;
    FoldCastCorrect(t, Fold(t, s).expr.ty.kind, n, ty);
    if Reaches(t, ty, n) {
      FoldNumericCastAgrees(t, s, ty, env);
    }
  }

  lemma FoldedInteger(t: nat, s: Expr, env: Env)
    requires Target(t) && IntegerType(s.ty) && Fold(t, s).Folded? && Agrees(t, s, Fold(t, s), env)
    ensures Eval(t, s, env).Ok? && Eval(t, s, env).v.VInt?
    ensures var f, v := Fold(t, s).expr, Eval(t, s, env).v;
      && f.Const? && f.value == v && IntegerType(f.ty)
      && InRange(IsSigned(f.ty.kind), Width(t, f.ty.kind), v.n)
  {
  }

  /** The failing cast for every narrow target: 2^t as a `u64`, cast to `usize`. */
  lemma NarrowUsizeCastFails(t: nat, ty: Type, env: Env)
    requires Target(t) && t < 64 && ty.Scalar? && ty.kind.USize?
    ensures var e := NumericCast(Const(Scalar(U64, false), VInt(Pow2(t))), ty);
      && WellTyped(t, e) && Eval(t, e, env).Ok?
      && Fold(t, e) != Folded(Const(ty, Eval(t, e, env).v))
  {
    PowerFitsU64(t);
    var c := Const(Scalar(U64, false), VInt(Pow2(t)));
    assert Eval(t, c, env) == Ok(c.value);
    NarrowUsizeCastMeaning(t, c, ty, env);
  }

  lemma PowerFitsU64(t: nat)
    requires Target(t) && t < 64
    ensures InUnsigned(Width(t, U64), Pow2(t))
  {
    var h := Width(t, U64);
    PowerFits(t, h);
  }

  lemma PowerFits(t: nat, h: nat)
    requires 1 <= t < h
    ensures InUnsigned(h, Pow2(t))
  {
    Widen(t + 1, h);
    assert Pow2(t + 1) == 2 * Pow2(t);
  }
}
