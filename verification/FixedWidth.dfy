/** Two's complement integers of a fixed width, as the constant folder manipulates them, and the
    ideal integers they stand for.

    An `APInt` is a width and the residue of an integer modulo 2^width. `Represents(a, v)` says that
    `a` holds the ideal integer `v`. Each operation below is computed on residues only, and a lemma
    beside it shows that it tracks the operation on ideal integers.
 */
module FixedWidth {

  // ---------------------------------------------------------------------------------------------
  // Powers of two and remainders
  // ---------------------------------------------------------------------------------------------

  function Pow2(n: nat): (p: nat)
    ensures p >= 1
  {
    if n == 0 then 1 else 2 * Pow2(n - 1)
  }

  lemma {:induction false} Pow2Add(m: nat, n: nat)
    ensures Pow2(m + n) == Pow2(m) * Pow2(n)
  {
    if m == 0 {
    } else {
      Pow2Add(m - 1, n);
      assert Pow2(m + n) == 2 * Pow2(m - 1 + n);
    }
  }

  lemma DivModUnique(x: int, p: int, q: int, r: int)
    requires 0 <= r < p && x == q * p + r
    ensures x % p == r && x / p == q
  {
    var d := x / p - q;
    assert d * p == r - x % p;
    if d != 0 {
      MultipleTooBig(d, p);
      assert false;
    }
  }

  lemma MultipleTooBig(d: int, p: int)
    requires d != 0 && p > 0
    ensures d * p >= p || d * p <= -p
  {
    if d > 0 {
      NonNegProduct(d - 1, p);
      assert d * p == (d - 1) * p + p;
    } else {
      NonNegProduct(-d - 1, p);
      assert (-d - 1) * p == -(d * p) - p;
    }
  }

  lemma NonNegProduct(x: nat, y: nat)
    ensures x * y >= 0
  {
  }

  lemma ModShift(x: int, k: int, p: int)
    requires p > 0
    ensures (x + k * p) % p == x % p
  {
    DivModUnique(x + k * p, p, x / p + k, x % p);
  }

  /** Two integers that differ by a multiple of p have the same remainder. */
  lemma ModEq(x: int, y: int, k: int, p: int)
    requires p > 0 && x == y + k * p
    ensures x % p == y % p
  {
    ModShift(y, k, p);
  }

  lemma AddMod(x: int, y: int, p: int)
    requires p > 0
    ensures (x % p + y % p) % p == (x + y) % p
  {
    ModEq(x + y, x % p + y % p, x / p + y / p, p);
  }

  lemma MulMod(x: int, y: int, p: int)
    requires p > 0
    ensures ((x % p) * (y % p)) % p == (x * y) % p
  {
    var a, b, q, s := x % p, y % p, x / p, y / p;
    assert x * y == (q * p + a) * (s * p + b);
    assert (q * p + a) * (s * p + b) == a * b + (q * s * p + q * b + a * s) * p;
    ModEq(x * y, a * b, q * s * p + q * b + a * s, p);
  }

  /** Reducing modulo a multiple of p first changes nothing. */
  lemma ModMod(x: int, p: int, m: int)
    requires p > 0 && m > 0
    ensures p * m > 0
    ensures (x % (p * m)) % p == x % p
  {
    assert p * m > 0;
    var big := p * m;
    var q := x / big;
    assert x == x % big + q * big;
    assert q * big == (q * m) * p;
    ModEq(x, x % big, q * m, p);
  }

  // ---------------------------------------------------------------------------------------------
  // Reading a residue as a signed or unsigned value
  // ---------------------------------------------------------------------------------------------

  datatype APInt = APInt(width: nat, bits: nat)

  predicate Valid(a: APInt) {
    a.width >= 1 && a.bits < Pow2(a.width)
  }

  function OfInt(w: nat, v: int): APInt {
    APInt(w, v % Pow2(w))
  }

  predicate Represents(a: APInt, v: int) {
    a.width >= 1 && a == OfInt(a.width, v)
  }

  predicate IsNegative(a: APInt)
    requires a.width >= 1
  {
    a.bits >= Pow2(a.width - 1)
  }

  function SExt(a: APInt): int
    requires a.width >= 1
  {
    if IsNegative(a) then a.bits - Pow2(a.width) else a.bits
  }

  predicate InSigned(w: nat, v: int)
    requires w >= 1
  {
    -(Pow2(w - 1) as int) <= v < Pow2(w - 1)
  }

  predicate InUnsigned(w: nat, v: int) {
    0 <= v < Pow2(w)
  }

  /** The value of an ideal integer in a w-bit type: the one reduction modulo 2^w. */
  function Wrap(signed: bool, w: nat, v: int): int
    requires w >= 1
  {
    var r := v % Pow2(w);
    if signed && r >= Pow2(w - 1) then r - Pow2(w) else r
  }

  predicate InRange(signed: bool, w: nat, v: int)
    requires w >= 1
  {
    if signed then InSigned(w, v) else InUnsigned(w, v)
  }

  /** `Wrap` is the unique value of the type congruent to v. */
  lemma WrapUnique(signed: bool, w: nat, v: int, u: int, k: int)
    requires w >= 1 && InRange(signed, w, u) && v == u + k * Pow2(w)
    ensures Wrap(signed, w, v) == u
  {
    var p := Pow2(w);
    ModEq(v, u, k, p);
    if u < 0 {
      DivModUnique(u, p, -1, u + p);
    } else {
      DivModUnique(u, p, 0, u);
    }
  }

  lemma WrapInRange(signed: bool, w: nat, v: int)
    requires w >= 1
    ensures InRange(signed, w, Wrap(signed, w, v))
    ensures InRange(signed, w, v) ==> Wrap(signed, w, v) == v
    ensures Represents(OfInt(w, v), Wrap(signed, w, v))
  {
    var p := Pow2(w);
    var u := Wrap(signed, w, v);
    var k := if u < 0 then v / p + 1 else v / p;
    assert v == u + k * p by {
      assert v == v % p + v / p * p;
      assert (v / p + 1) * p == v / p * p + p;
    }
    ModEq(v, u, k, p);
    if InRange(signed, w, v) {
      WrapUnique(signed, w, v, v, 0);
    }
  }

  lemma WrapCongruent(signed: bool, w: nat, x: int, y: int)
    requires w >= 1 && x % Pow2(w) == y % Pow2(w)
    ensures Wrap(signed, w, x) == Wrap(signed, w, y)
  {
  }

  /** Going through a wider host integer of either signedness loses nothing: two casts are one. */
  lemma WrapThroughHost(hostSigned: bool, host: nat, signed: bool, w: nat, v: int)
    requires 1 <= w <= host
    ensures Wrap(signed, w, Wrap(hostSigned, host, v)) == Wrap(signed, w, v)
  {
    var p, m := Pow2(w), Pow2(host - w);
    Pow2Add(w, host - w);
    ModMod(v, p, m);
    var r := v % Pow2(host);
    assert r % p == v % p;
    if Wrap(hostSigned, host, v) != r {
      ModEq(r - Pow2(host), r, -m, p) by {
        assert r - Pow2(host) == r + (-m) * p;
      }
    }
    WrapCongruent(signed, w, Wrap(hostSigned, host, v), v);
  }

  /** Reading a representation back gives the value of the type. */
  lemma ReadBack(a: APInt, v: int)
    requires Represents(a, v)
    ensures Valid(a)
    ensures SExt(a) == Wrap(true, a.width, v)
    ensures a.bits == Wrap(false, a.width, v)
  {
  }

  lemma RepresentsIsNegative(a: APInt, v: int)
    requires Represents(a, v) && InSigned(a.width, v)
    ensures Valid(a)
    ensures IsNegative(a) <==> v < 0
    ensures a.bits == if v < 0 then v + Pow2(a.width) else v
  {
    WrapInRange(true, a.width, v);
    ReadBack(a, v);
  }

  lemma RepresentsUnsigned(a: APInt, v: int)
    requires Represents(a, v) && InUnsigned(a.width, v)
    ensures Valid(a) && a.bits == v
  {
    WrapInRange(false, a.width, v);
    ReadBack(a, v);
  }

  // ---------------------------------------------------------------------------------------------
  // Ring operations
  // ---------------------------------------------------------------------------------------------

  function Add(a: APInt, b: APInt): APInt {
    APInt(a.width, (a.bits + b.bits) % Pow2(a.width))
  }

  function Neg(a: APInt): APInt {
    APInt(a.width, (Pow2(a.width) - a.bits) % Pow2(a.width))
  }

  function Sub(a: APInt, b: APInt): APInt {
    Add(a, Neg(b))
  }

  function Mul(a: APInt, b: APInt): APInt {
    APInt(a.width, (a.bits * b.bits) % Pow2(a.width))
  }

  function Not(a: APInt): APInt {
    APInt(a.width, (Pow2(a.width) - 1 - a.bits) % Pow2(a.width))
  }

  lemma AddCorrect(a: APInt, b: APInt, x: int, y: int)
    requires Represents(a, x) && Represents(b, y) && a.width == b.width
    ensures Represents(Add(a, b), x + y)
  {
    AddMod(x, y, Pow2(a.width));
  }

  lemma NegCorrect(a: APInt, x: int)
    requires Represents(a, x)
    ensures Represents(Neg(a), -x)
  {
    var p := Pow2(a.width);
    assert p - a.bits == -x + (x / p + 1) * p;
    ModEq(p - a.bits, -x, x / p + 1, p);
  }

  lemma SubCorrect(a: APInt, b: APInt, x: int, y: int)
    requires Represents(a, x) && Represents(b, y) && a.width == b.width
    ensures Represents(Sub(a, b), x - y)
  {
    NegCorrect(b, y);
    AddCorrect(a, Neg(b), x, -y);
  }

  lemma MulCorrect(a: APInt, b: APInt, x: int, y: int)
    requires Represents(a, x) && Represents(b, y) && a.width == b.width
    ensures Represents(Mul(a, b), x * y)
  {
    MulMod(x, y, Pow2(a.width));
  }

  lemma NotCorrect(a: APInt, x: int)
    requires Represents(a, x)
    ensures Represents(Not(a), -1 - x)
  {
    var p := Pow2(a.width);
    assert p - 1 - a.bits == (-1 - x) + (x / p + 1) * p;
    ModEq(p - 1 - a.bits, -1 - x, x / p + 1, p);
  }

  // ---------------------------------------------------------------------------------------------
  // Division: unsigned division on magnitudes, with the signs fixed up afterwards
  // ---------------------------------------------------------------------------------------------

  function UDiv(a: APInt, b: APInt): APInt
    requires b.bits != 0
  {
    APInt(a.width, a.bits / b.bits)
  }

  function URem(a: APInt, b: APInt): APInt
    requires b.bits != 0
  {
    APInt(a.width, a.bits % b.bits)
  }

  function SDiv(a: APInt, b: APInt): APInt
    requires Valid(a) && Valid(b) && a.width == b.width && b.bits != 0
  {
    NegNonZero(b);
    if IsNegative(a) then
      if IsNegative(b) then UDiv(Neg(a), Neg(b)) else Neg(UDiv(Neg(a), b))
    else if IsNegative(b) then Neg(UDiv(a, Neg(b)))
    else UDiv(a, b)
  }

  function SRem(a: APInt, b: APInt): APInt
    requires Valid(a) && Valid(b) && a.width == b.width && b.bits != 0
  {
    NegNonZero(b);
    if IsNegative(a) then
      if IsNegative(b) then Neg(URem(Neg(a), Neg(b))) else Neg(URem(Neg(a), b))
    else if IsNegative(b) then URem(a, Neg(b))
    else URem(a, b)
  }

  lemma NegNonZero(b: APInt)
    requires Valid(b) && b.bits != 0
    ensures Neg(b).bits == Pow2(b.width) - b.bits
    ensures Neg(b).bits != 0
  {
    DivModUnique(Pow2(b.width) - b.bits, Pow2(b.width), 0, Pow2(b.width) - b.bits);
  }

  function Abs(x: int): nat {
    if x < 0 then -x else x
  }

  /** Division that truncates toward zero, on ideal integers. */
  function Quot(x: int, y: int): int
    requires y != 0
  {
    if (x < 0) == (y < 0) then Abs(x) / Abs(y) else -(Abs(x) / Abs(y))
  }

  /** The remainder that takes the sign of the dividend. */
  function Rem(x: int, y: int): int
    requires y != 0
  {
    x - y * Quot(x, y)
  }

  /** The defining equation of division, as one fact about named values. */
  lemma Division(x: nat, d: nat, q: int, r: int)
    requires d >= 1 && q == x / d && r == x % d
    ensures x == d * q + r && 0 <= r < d && 0 <= q <= x
  {
    if q < 0 {
      MultipleTooBig(q, d);
      assert false;
    }
    assert d * q == q + (d - 1) * q;
    assert (d - 1) * q >= 0;
  }

  lemma RemSign(x: int, y: int)
    requires y != 0
    ensures Rem(x, y) == if x < 0 then 0 - Abs(x) % Abs(y) else Abs(x) % Abs(y)
    ensures Abs(Rem(x, y)) < Abs(y)
  {
    var q, r := Abs(x) / Abs(y), Abs(x) % Abs(y);
    Division(Abs(x), Abs(y), q, r);
    MulSigns(y, q);
  }

  lemma MulSigns(y: int, q: int)
    ensures y * q == if y < 0 then 0 - Abs(y) * q else Abs(y) * q
    ensures y * -q == 0 - y * q
  {
  }

  lemma QuotBound(x: int, y: int)
    requires y != 0
    ensures Abs(Quot(x, y)) <= Abs(x)
  {
    Division(Abs(x), Abs(y), Abs(x) / Abs(y), Abs(x) % Abs(y));
  }

  /** The magnitude of a residue read as signed. */
  function Magnitude(a: APInt): APInt
    requires a.width >= 1
  {
    if IsNegative(a) then Neg(a) else a
  }

  lemma MagnitudeBits(a: APInt, x: int)
    requires Represents(a, x) && InSigned(a.width, x)
    ensures Magnitude(a).bits == Abs(x)
  {
    RepresentsIsNegative(a, x);
    if x < 0 {
      NegNonZero(a);
    }
  }

  lemma OfSmall(w: nat, v: nat)
    requires w >= 1 && v < Pow2(w)
    ensures Represents(APInt(w, v), v)
  {
    DivModUnique(v, Pow2(w), 0, v);
  }

  lemma SDivByMagnitudes(a: APInt, b: APInt)
    requires Valid(a) && Valid(b) && a.width == b.width && b.bits != 0 && Magnitude(b).bits != 0
    ensures SDiv(a, b) == if IsNegative(a) == IsNegative(b) then UDiv(Magnitude(a), Magnitude(b))
                          else Neg(UDiv(Magnitude(a), Magnitude(b)))
  {
  }

  lemma MagnitudeQuotient(m: APInt, n: APInt, x: nat, y: nat)
    requires m == APInt(m.width, x) && n.bits == y && m.width >= 1 && x < Pow2(m.width) && y != 0
    ensures UDiv(m, n) == APInt(m.width, x / y) && Represents(UDiv(m, n), x / y)
  {
    Division(x, y, x / y, x % y);
    OfSmall(m.width, x / y);
  }

  lemma SDivCorrect(a: APInt, b: APInt, x: int, y: int)
    requires Represents(a, x) && Represents(b, y) && a.width == b.width
    requires InSigned(a.width, x) && InSigned(b.width, y) && y != 0
    ensures Valid(a) && Valid(b) && b.bits != 0
    ensures Represents(SDiv(a, b), Quot(x, y))
  {
    RepresentsIsNegative(a, x);
    RepresentsIsNegative(b, y);
    MagnitudeBits(a, x);
    MagnitudeBits(b, y);
    MagnitudeQuotient(Magnitude(a), Magnitude(b), Abs(x), Abs(y));
    SDivByMagnitudes(a, b);
    SignedQuotient(UDiv(Magnitude(a), Magnitude(b)), Abs(x) / Abs(y), x, y);
  }

  lemma SignedQuotient(n: APInt, q: nat, x: int, y: int)
    requires y != 0 && n.width >= 1 && Represents(n, q) && q == Abs(x) / Abs(y)
    ensures Represents(if (x < 0) == (y < 0) then n else Neg(n), Quot(x, y))
  {
    if (x < 0) != (y < 0) {
      NegCorrect(n, q);
    }
  }

  lemma SRemCorrect(a: APInt, b: APInt, x: int, y: int)
    requires Represents(a, x) && Represents(b, y) && a.width == b.width
    requires InSigned(a.width, x) && InSigned(b.width, y) && y != 0
    ensures Valid(a) && Valid(b) && b.bits != 0
    ensures Represents(SRem(a, b), Rem(x, y))
  {
    var w := a.width;
    RepresentsIsNegative(a, x);
    RepresentsIsNegative(b, y);
    MagnitudeBits(a, x);
    MagnitudeBits(b, y);
    RemSign(x, y);
    var r := Abs(x) % Abs(y);
    OfSmall(w, r);
    if x < 0 {
      NegCorrect(APInt(w, r), r);
    }
  }

  lemma UDivCorrect(a: APInt, b: APInt, x: int, y: int)
    requires Represents(a, x) && Represents(b, y) && a.width == b.width
    requires InUnsigned(a.width, x) && InUnsigned(b.width, y) && y != 0
    ensures b.bits != 0
    ensures Represents(UDiv(a, b), Quot(x, y)) && Represents(URem(a, b), Rem(x, y))
  {
    RepresentsUnsigned(a, x);
    RepresentsUnsigned(b, y);
    QuotBound(x, y);
    RemSign(x, y);
    OfSmall(a.width, x / y);
    OfSmall(a.width, x % y);
  }

  // ---------------------------------------------------------------------------------------------
  // Shifts
  // ---------------------------------------------------------------------------------------------

  function Shl(a: APInt, k: nat): APInt {
    APInt(a.width, (a.bits * Pow2(k)) % Pow2(a.width))
  }

  function LShr(a: APInt, k: nat): APInt {
    Division(a.bits, Pow2(k), a.bits / Pow2(k), a.bits % Pow2(k));
    APInt(a.width, a.bits / Pow2(k))
  }

  /** Vacated bits are filled with the sign: complement, shift, complement. */
  function AShr(a: APInt, k: nat): APInt
    requires a.width >= 1
  {
    if IsNegative(a) then Not(LShr(Not(a), k)) else LShr(a, k)
  }

  lemma ShlCorrect(a: APInt, k: nat, x: int)
    requires Represents(a, x)
    ensures Represents(Shl(a, k), x * Pow2(k))
  {
    var p, c, q := Pow2(a.width), Pow2(k), x / Pow2(a.width);
    assert x == a.bits + q * p;
    ScaledCongruence(x, a.bits, q, p, c);
  }

  lemma ScaledCongruence(x: int, y: int, q: int, p: int, c: int)
    requires p > 0 && x == y + q * p
    ensures (x * c) % p == (y * c) % p
  {
    assert x * c == y * c + (q * c) * p;
    ModEq(x * c, y * c, q * c, p);
  }

  lemma LShrCorrect(a: APInt, k: nat, x: int)
    requires Represents(a, x) && 0 <= x < Pow2(a.width)
    ensures Represents(LShr(a, k), x / Pow2(k))
  {
    RepresentsUnsigned(a, x);
    Division(x, Pow2(k), x / Pow2(k), x % Pow2(k));
    OfSmall(a.width, x / Pow2(k));
  }

  /** Shifting the complement and complementing again is division rounding down. */
  lemma ComplementShift(x: int, d: int)
    requires d >= 1
    ensures -1 - (-1 - x) / d == x / d
  {
    DivModUnique(-1 - x, d, -1 - x / d, d - 1 - x % d) by {
      assert (-1 - x / d) * d == -d - x / d * d;
    }
  }

  lemma AShrCorrect(a: APInt, k: nat, x: int)
    requires Represents(a, x) && InSigned(a.width, x)
    ensures Represents(AShr(a, k), x / Pow2(k))
  {
    RepresentsIsNegative(a, x);
    if x < 0 {
      NotCorrect(a, x);
      LShrCorrect(Not(a), k, -1 - x);
      NotCorrect(LShr(Not(a), k), (-1 - x) / Pow2(k));
      ComplementShift(x, Pow2(k));
    } else {
      LShrCorrect(a, k, x);
    }
  }

  // ---------------------------------------------------------------------------------------------
  // Bitwise operations
  // ---------------------------------------------------------------------------------------------

  datatype BitOp = And | Xor | Or

  function OnBit(op: BitOp, x: bool, y: bool): bool {
    match op
    case And => x && y
    case Xor => x != y
    case Or => x || y
  }

  function BitValue(b: bool): nat {
    if b then 1 else 0
  }

  /** The low n bits of the result, computed bit by bit on residues. */
  function BitsOf(op: BitOp, n: nat, x: nat, y: nat): (r: nat)
    ensures r < Pow2(n)
  {
    if n == 0 then 0
    else BitValue(OnBit(op, x % 2 == 1, y % 2 == 1)) + 2 * BitsOf(op, n - 1, x / 2, y / 2)
  }

  function Bitwise(op: BitOp, a: APInt, b: APInt): APInt {
    APInt(a.width, BitsOf(op, a.width, a.bits, b.bits))
  }

  /** The operation on ideal integers, which have infinitely many sign bits. */
  function IdealBits(op: BitOp, x: int, y: int): int
    decreases Abs(x) + Abs(y)
  {
    if -1 <= x <= 0 && -1 <= y <= 0 then
      0 - BitValue(OnBit(op, x == -1, y == -1))
    else
      BitValue(OnBit(op, x % 2 == 1, y % 2 == 1)) + 2 * IdealBits(op, x / 2, y / 2)
  }

  lemma IdealBitsUnfold(op: BitOp, x: int, y: int)
    ensures IdealBits(op, x, y)
         == BitValue(OnBit(op, x % 2 == 1, y % 2 == 1)) + 2 * IdealBits(op, x / 2, y / 2)
  {
    assert 0 / 2 == 0 && (-1) / 2 == -1 && (-1) % 2 == 1;
  }

  /** The three operations by ordinary arithmetic: what a conjunction loses a disjunction keeps, and exclusive
      disjunction is the difference of the two. */
  lemma {:induction false} BitsByArithmetic(x: int, y: int)
    ensures IdealBits(And, x, y) + IdealBits(Or, x, y) == x + y
    ensures IdealBits(Xor, x, y) == IdealBits(Or, x, y) - IdealBits(And, x, y)
    decreases Abs(x) + Abs(y)
  {
    if !(-1 <= x <= 0 && -1 <= y <= 0) {
      BitsByArithmetic(x / 2, y / 2);
    }
  }

  /** Conjunction with no bits is zero, and with all bits changes nothing. */
  lemma {:induction false} ConjunctionWithConstants(x: int)
    ensures IdealBits(And, x, 0) == 0 && IdealBits(And, x, -1) == x
    decreases Abs(x)
  {
    if !(-1 <= x <= 0) {
      ConjunctionWithConstants(x / 2);
      IdealBitsUnfold(And, x, 0);
      IdealBitsUnfold(And, x, -1);
      assert (-1) / 2 == -1 && (-1) % 2 == 1;
    }
  }

  lemma HalfMod(x: int, n: nat)
    requires n >= 1
    ensures (x % Pow2(n)) % 2 == x % 2
    ensures (x % Pow2(n)) / 2 == (x / 2) % Pow2(n - 1)
  {
    var h := Pow2(n - 1);
    ModMod(x, 2, h);
    var r := x % (2 * h);
    var q := x / (2 * h);
    assert x == q * (2 * h) + r;
    assert x / 2 == q * h + r / 2;
    DivModUnique(x / 2, h, q, r / 2);
  }

  lemma {:induction false} BitsOfCorrect(op: BitOp, n: nat, x: int, y: int)
    ensures BitsOf(op, n, x % Pow2(n), y % Pow2(n)) == IdealBits(op, x, y) % Pow2(n)
  {
    if n == 0 {
    } else {
      HalfMod(x, n);
      HalfMod(y, n);
      BitsOfCorrect(op, n - 1, x / 2, y / 2);
      IdealBitsUnfold(op, x, y);
      ConsBit(BitValue(OnBit(op, x % 2 == 1, y % 2 == 1)), IdealBits(op, x / 2, y / 2), Pow2(n - 1));
    }
  }

  lemma ConsBit(b: nat, rest: int, h: int)
    requires b <= 1 && h > 0
    ensures (b + 2 * rest) % (2 * h) == b + 2 * (rest % h)
  {
    var q := rest / h;
    assert rest == q * h + rest % h;
    assert q * (2 * h) == 2 * (q * h);
    DivModUnique(b + 2 * rest, 2 * h, q, b + 2 * (rest % h));
  }

  lemma BitwiseCorrect(op: BitOp, a: APInt, b: APInt, x: int, y: int)
    requires Represents(a, x) && Represents(b, y) && a.width == b.width
    ensures Represents(Bitwise(op, a, b), IdealBits(op, x, y))
  {
    BitsOfCorrect(op, a.width, x, y);
  }

  // ---------------------------------------------------------------------------------------------
  // Comparisons
  // ---------------------------------------------------------------------------------------------

  predicate ULess(a: APInt, b: APInt) {
    a.bits < b.bits
  }

  predicate SLess(a: APInt, b: APInt)
    requires a.width >= 1 && b.width >= 1
  {
    if IsNegative(a) != IsNegative(b) then IsNegative(a) else a.bits < b.bits
  }

  lemma CompareCorrect(signed: bool, a: APInt, b: APInt, x: int, y: int)
    requires Represents(a, x) && Represents(b, y) && a.width == b.width
    requires InRange(signed, a.width, x) && InRange(signed, b.width, y)
    ensures (if signed then SLess(a, b) else ULess(a, b)) <==> x < y
    ensures a == b <==> x == y
  {
    if signed {
      RepresentsIsNegative(a, x);
      RepresentsIsNegative(b, y);
    } else {
      RepresentsUnsigned(a, x);
      RepresentsUnsigned(b, y);
    }
  }
}
