/** Numeric literals: suffixes, base prefixes, digit separators and the ranges of the integer types. */
module NumericLiterals {
  import opened Wrappers
  import FixedWidth
  import Text

  datatype LiteralType = I8 | U8 | I16 | U16 | I32 | U32 | I64 | U64 | USIZE | F32 | F64

  const SUFFIXES: seq<(string, LiteralType)> :=
    [("uint", U32), ("int", I32), ("usize", USIZE), ("u64", U64), ("i64", I64), ("u32", U32), ("i32", I32),
     ("u16", U16), ("i16", I16), ("u8", U8), ("i8", I8), ("f64", F64), ("f32", F32)]

  const U64_LIMIT: nat := 0x1_0000_0000_0000_0000

  // ---------------------------------------------------------------------------------------------
  // Suffixes
  // ---------------------------------------------------------------------------------------------

  /** The literal ends with an underscore and the name, and something comes before them. */
  predicate HasSuffix(raw: string, name: string) {
    |raw| > |name| + 1 && raw[|raw| - |name| - 1] == '_' && raw[|raw| - |name|..] == name
  }

  lemma SuffixesArePlain(k: nat)
    requires k < |SUFFIXES|
    ensures SUFFIXES[k].0 != "" && '_' !in SUFFIXES[k].0 && SUFFIXES[k].0[0] in "uif"
  {
  }

  lemma LongerSuffixHasUnderscore(raw: string, a: string, b: string)
    requires HasSuffix(raw, a) && HasSuffix(raw, b) && |a| < |b|
    ensures '_' in b
  {
    assert b[|b| - |a| - 1] == raw[|raw| - |a| - 1];
  }

  /** Since no suffix contains an underscore, what follows the last underscore decides: at most one entry
      of the table can match, so the order of the table does not matter. */
  lemma AtMostOneSuffix(raw: string, a: string, b: string)
    requires '_' !in a && '_' !in b && HasSuffix(raw, a) && HasSuffix(raw, b)
    ensures a == b
  {
    if |a| < |b| {
      LongerSuffixHasUnderscore(raw, a, b);
    } else if |b| < |a| {
      LongerSuffixHasUnderscore(raw, b, a);
    }
  }

  datatype Split = Split(ty: Option<LiteralType>, rest: string)

  ghost predicate IsSplit(raw: string, r: Split) {
    match r.ty
    case Some(ty) =>
      r.rest != "" && exists k: nat :: k < |SUFFIXES| && SUFFIXES[k].1 == ty && raw == r.rest + "_" + SUFFIXES[k].0
    case None => r.rest == raw && forall k: nat :: k < |SUFFIXES| ==> !HasSuffix(raw, SUFFIXES[k].0)
  }

  method SplitSuffix(raw: string) returns (r: Split)
    ensures IsSplit(raw, r)
  {
    for k := 0 to |SUFFIXES|
      invariant forall j: nat :: j < k ==> !HasSuffix(raw, SUFFIXES[j].0)
    {
      var name := SUFFIXES[k].0;
      if |raw| > |name| + 1 && raw[|raw| - |name| - 1] == '_' && raw[|raw| - |name|..] == name {
        var rest := raw[..|raw| - |name| - 1];
        SplitAt(raw, name);
        return Split(Some(SUFFIXES[k].1), rest);
      }
    }
    r := Split(None, raw);
  }

  lemma SplitAt(raw: string, name: string)
    requires HasSuffix(raw, name)
    ensures raw == raw[..|raw| - |name| - 1] + "_" + name
  {
    var m := |raw| - |name|;
    assert raw == raw[..m] + raw[m..] && raw[..m] == raw[..m - 1] + [raw[m - 1]];
  }

  lemma JoinHasSuffix(rest: string, name: string)
    requires rest != ""
    ensures HasSuffix(rest + "_" + name, name)
  {
    var raw := rest + "_" + name;
    assert raw[|raw| - |name|..] == name;
  }

  /** A split is determined by the text. */
  lemma SplitIsUnique(raw: string, r: Split, s: Split)
    requires IsSplit(raw, r) && IsSplit(raw, s)
    ensures r == s
  {
    if r.ty.Some? {
      var k: nat :| k < |SUFFIXES| && SUFFIXES[k].1 == r.ty.value && raw == r.rest + "_" + SUFFIXES[k].0;
      JoinHasSuffix(r.rest, SUFFIXES[k].0);
      SplitIsExactly(raw, r.rest, k, s);
    } else if s.ty.Some? {
      var k: nat :| k < |SUFFIXES| && SUFFIXES[k].1 == s.ty.value && raw == s.rest + "_" + SUFFIXES[k].0;
      JoinHasSuffix(s.rest, SUFFIXES[k].0);
      assert false;
    }
  }

  lemma SplitIsExactly(raw: string, rest: string, k: nat, s: Split)
    requires k < |SUFFIXES| && rest != "" && raw == rest + "_" + SUFFIXES[k].0 && IsSplit(raw, s)
    ensures s == Split(Some(SUFFIXES[k].1), rest)
  {
    JoinHasSuffix(rest, SUFFIXES[k].0);
    assert s.ty.Some?;
    var j: nat :| j < |SUFFIXES| && SUFFIXES[j].1 == s.ty.value && raw == s.rest + "_" + SUFFIXES[j].0;
    JoinHasSuffix(s.rest, SUFFIXES[j].0);
    SuffixesArePlain(k);
    SuffixesArePlain(j);
    AtMostOneSuffix(raw, SUFFIXES[j].0, SUFFIXES[k].0);
    NamesAreDistinct(j, k);
    assert rest == raw[..|raw| - |SUFFIXES[k].0| - 1] && s.rest == raw[..|raw| - |SUFFIXES[k].0| - 1];
  }

  lemma NamesAreDistinct(j: nat, k: nat)
    requires j < |SUFFIXES| && k < |SUFFIXES| && SUFFIXES[j].0 == SUFFIXES[k].0
    ensures j == k
  {
    forall i | 0 <= i < |SUFFIXES| ensures NameIndex(SUFFIXES[i].0) == i {
    }
  }

  function NameIndex(name: string): int {
    if name == "uint" then 0 else if name == "int" then 1 else if name == "usize" then 2
    else if name == "u64" then 3 else if name == "i64" then 4 else if name == "u32" then 5 else if name == "i32" then 6
    else if name == "u16" then 7 else if name == "i16" then 8 else if name == "u8" then 9 else if name == "i8" then 10
    else if name == "f64" then 11 else 12
  }

  // ---------------------------------------------------------------------------------------------
  // Digits
  // ---------------------------------------------------------------------------------------------

  function WithoutSeparators(text: string): string {
    if text == "" then ""
    else WithoutSeparators(text[..|text| - 1]) + (if text[|text| - 1] == '_' then "" else [text[|text| - 1]])
  }

  method RemoveDigitSeparators(text: string) returns (cleaned: string)
    ensures cleaned == WithoutSeparators(text)
  {
    cleaned := "";
    for i := 0 to |text|
      invariant cleaned == WithoutSeparators(text[..i])
    {
      assert text[..i + 1][..i] == text[..i];
      if text[i] != '_' {
        cleaned := cleaned + [text[i]];
      }
    }
    assert text[..|text|] == text;
  }

  /** The value of a digit in bases up to 16; 16 for any other character. */
  function DigitValue(c: char): nat {
    if '0' <= c <= '9' then c as int - '0' as int
    else if 'a' <= c <= 'f' then c as int - 'a' as int + 10
    else if 'A' <= c <= 'F' then c as int - 'A' as int + 10
    else 16
  }

  predicate AreDigits(text: string, base: nat) {
    forall i :: 0 <= i < |text| ==> DigitValue(text[i]) < base
  }

  function ValueOf(text: string, base: nat): nat {
    if text == "" then 0 else ValueOf(text[..|text| - 1], base) * base + DigitValue(text[|text| - 1])
  }

  /** The standard library's integer parser on the whole of a text: digits only, and at most 64 bits. */
  function FromChars(text: string, base: nat): Option<nat> {
    if AreDigits(text, base) && ValueOf(text, base) < U64_LIMIT then Some(ValueOf(text, base)) else None
  }

  method ParseUnsignedMagnitude(digits: string, base: nat) returns (r: Option<nat>)
    ensures r == Magnitude(digits, base)
  {
    var cleaned := RemoveDigitSeparators(digits);
    if cleaned == "" {
      return None;
    }
    r := FromChars(cleaned, base);
  }

  function Magnitude(digits: string, base: nat): Option<nat> {
    var cleaned := WithoutSeparators(digits);
    if cleaned == "" then None else FromChars(cleaned, base)
  }

  // ---------------------------------------------------------------------------------------------
  // Literals
  // ---------------------------------------------------------------------------------------------

  /** `Fraction`: a literal with a point, whose digits this model does not read. */
  datatype Parsed =
    | Number(ty: LiteralType, explicit: bool, magnitude: nat)
    | Fraction(ty: LiteralType, explicit: bool, text: string)
    | Invalid

  predicate IsFloat(ty: LiteralType) {
    ty.F32? || ty.F64?
  }

  predicate HasBasePrefix(text: string) {
    |text| >= 2 && text[0] == '0' && (text[1] == 'b' || text[1] == 'o' || text[1] == 'x')
  }

  function BaseOf(text: string): nat {
    if !HasBasePrefix(text) then 10 else if text[1] == 'b' then 2 else if text[1] == 'o' then 8 else 16
  }

  function ParsedSplit(s: Split): Parsed {
    var ty := if s.ty.Some? then s.ty.value else I32;
    if '.' in s.rest then
      if HasBasePrefix(s.rest) || (s.ty.Some? && !IsFloat(ty)) then Invalid
      else Fraction(if s.ty.Some? then ty else F64, s.ty.Some?, WithoutSeparators(s.rest))
    else
      var m := Magnitude(if HasBasePrefix(s.rest) then s.rest[2..] else s.rest, BaseOf(s.rest));
      if m.None? then Invalid else Number(ty, s.ty.Some?, m.value)
  }

  method ParseNumericLiteralToken(raw: string) returns (r: Parsed)
    ensures forall s :: IsSplit(raw, s) ==> r == ParsedSplit(s)
  {
    var split := SplitSuffix(raw);
    forall s | IsSplit(raw, s) ensures s == split {
      SplitIsUnique(raw, s, split);
    }
    var text := split.rest;
    if '.' in text {
      if HasBasePrefix(text) || (split.ty.Some? && !IsFloat(split.ty.value)) {
        return Invalid;
      }
      var cleaned := RemoveDigitSeparators(text);
      return Fraction(if split.ty.Some? then split.ty.value else F64, split.ty.Some?, cleaned);
    }
    var digits := if HasBasePrefix(text) then text[2..] else text;
    var magnitude := ParseUnsignedMagnitude(digits, BaseOf(text));
    if magnitude.None? {
      return Invalid;
    }
    r := Number(if split.ty.Some? then split.ty.value else I32, split.ty.Some?, magnitude.value);
  }

  // ---------------------------------------------------------------------------------------------
  // Ranges
  // ---------------------------------------------------------------------------------------------

  predicate IsSigned(ty: LiteralType) {
    ty.I8? || ty.I16? || ty.I32? || ty.I64?
  }

  predicate IsUnsigned(ty: LiteralType) {
    ty.U8? || ty.U16? || ty.U32? || ty.U64? || ty.USIZE?
  }

  function Width(ty: LiteralType): nat {
    match ty
    case I8 | U8 => 8
    case I16 | U16 => 16
    case I32 | U32 => 32
    case _ => 64
  }

  lemma HalfOfWidth(ty: LiteralType)
    ensures FixedWidth.Pow2(Width(ty) - 1) == Half(ty) && FixedWidth.Pow2(Width(ty)) == 2 * Half(ty)
  {
    PowerOf(Width(ty));
  }

  lemma {:induction false} PowerOf(w: nat)
    ensures w == 8 ==> FixedWidth.Pow2(w) == 0x100
    ensures w == 16 ==> FixedWidth.Pow2(w) == 0x1_0000
    ensures w == 32 ==> FixedWidth.Pow2(w) == 0x1_0000_0000
    ensures w == 64 ==> FixedWidth.Pow2(w) == U64_LIMIT
  {
    if w in {16, 32, 64} {
      PowerOf(w / 2);
      FixedWidth.Pow2Add(w / 2, w / 2);
    }
  }

  /** Half the number of values of an integer type. */
  function Half(ty: LiteralType): int {
    match ty
    case I8 | U8 => 0x80
    case I16 | U16 => 0x8000
    case I32 | U32 => 0x8000_0000
    case _ => 0x8000_0000_0000_0000
  }

  /** `sizes` is the number of usize values of the target. */
  predicate Target(sizes: nat) {
    0 < sizes <= U64_LIMIT
  }

  predicate InRange(ty: LiteralType, v: int, sizes: nat) {
    if ty.USIZE? then 0 <= v < sizes else FixedWidth.InRange(IsSigned(ty), Width(ty), v)
  }

  /** The cast of a 64-bit magnitude to the type. */
  function Cast(ty: LiteralType, m: nat): int {
    FixedWidth.Wrap(IsSigned(ty), Width(ty), m)
  }

  /** `onlyUnderMinus` marks the one magnitude of a signed type that exists only negated. */
  datatype Constant = IntConstant(ty: LiteralType, stored: int, onlyUnderMinus: bool) | FloatConstant(ty: LiteralType)

  predicate FitsSignedMagnitude(ty: LiteralType, m: nat) {
    m <= (Half(ty) - 1) + 1
  }

  predicate FitsUnsigned(ty: LiteralType, m: nat) {
    m <= 2 * Half(ty) - 1
  }

  function MakeConstant(p: Parsed): Option<Constant> {
    match p
    case Invalid => None
    case Fraction(ty, _, _) => Some(FloatConstant(ty))
    case Number(ty, _, m) =>
      if IsFloat(ty) then Some(FloatConstant(ty))
      else if IsSigned(ty) then
        if !FitsSignedMagnitude(ty, m) then None
        else if m == (Half(ty) - 1) + 1 then Some(IntConstant(ty, m, true))
        else Some(IntConstant(ty, Cast(ty, m), false))
      else if ty.U64? || ty.USIZE? then Some(IntConstant(ty, m, false))
      else if !FitsUnsigned(ty, m) then None
      else Some(IntConstant(ty, Cast(ty, m), false))
  }

  /** The value of the literal where it stands, alone or as the operand of unary minus. A magnitude that
      exists only negated is refused alone, and so is a usize the target does not have; an unsigned operand
      of minus is not a literal any more. */
  function Denotes(c: Constant, negated: bool, sizes: nat): Option<int> {
    if c.FloatConstant? then None
    else if c.onlyUnderMinus then if negated then Some(-Half(c.ty)) else None
    else if c.ty.USIZE? && c.stored >= sizes then None
    else if !negated then Some(c.stored)
    else if IsSigned(c.ty) then Some(-c.stored)
    else None
  }

  /** A suffix says what its type is: i, u or f for the kind of number, and the width in decimal or a name for
      it. */
  lemma SuffixNamesType(k: nat)
    requires k < |SUFFIXES|
    ensures var (name, ty) := SUFFIXES[k];
      && (name[0] == 'i' <==> IsSigned(ty)) && (name[0] == 'u' <==> IsUnsigned(ty)) && (name[0] == 'f' <==> IsFloat(ty))
      && (AreDigits(name[1..], 10) ==>
            ValueOf(name[1..], 10) == if ty.F32? then 32 else Width(ty))
      && (name == "int" ==> ty.I32?) && (name == "uint" ==> ty.U32?) && (ty.USIZE? <==> name == "usize")
  {
    ShortNumber(SUFFIXES[k].0[1..]);
  }

  lemma ShortNumber(text: string)
    requires 1 <= |text|
    ensures |text| == 1 ==> ValueOf(text, 10) == DigitValue(text[0])
    ensures |text| == 2 ==> ValueOf(text, 10) == DigitValue(text[0]) * 10 + DigitValue(text[1])
  {
    if |text| == 2 {
      ShortNumber(text[..1]);
    } else if |text| == 1 {
      assert text[..0] == "";
    }
  }

  function Signed(m: nat, negated: bool): int {
    if negated then 0 - m else m
  }

  /** A magnitude denotes itself or its negation, exactly when that is a value of the type. */
  lemma LiteralDenotes(ty: LiteralType, explicit: bool, m: nat, negated: bool, sizes: nat)
    requires Target(sizes) && m < U64_LIMIT && !IsFloat(ty) && (negated ==> IsSigned(ty))
    ensures var c := MakeConstant(Number(ty, explicit, m));
      var v := Signed(m, negated);
      if InRange(ty, v, sizes) then c.Some? && Denotes(c.value, negated, sizes) == Some(v)
      else c.None? || Denotes(c.value, negated, sizes).None?
  {
    HalfOfWidth(ty);
    FixedWidth.WrapInRange(IsSigned(ty), Width(ty), m);
  }

  // ---------------------------------------------------------------------------------------------
  // Writing a number and reading it back
  // ---------------------------------------------------------------------------------------------

  function DigitChar(d: nat): char
    requires d < 16
  {
    if d < 10 then '0' + d as char else 'a' + (d - 10) as char
  }

  function DigitText(m: nat, base: nat): string
    requires 2 <= base <= 16
    decreases m
  {
    if m < base then [DigitChar(m)]
    else
      LessWhenDivided(m, base);
      DigitText(m / base, base) + [DigitChar(m % base)]
  }

  lemma LessWhenDivided(m: nat, base: nat)
    requires base >= 2 && m > 0
    ensures m / base < m
  {
  }

  lemma {:induction false} DigitTextDenotes(m: nat, base: nat)
    requires 2 <= base <= 16
    ensures var t := DigitText(m, base); t != "" && AreDigits(t, base) && ValueOf(t, base) == m
    decreases m
  {
    var t := DigitText(m, base);
    if m < base {
      assert t[..0] == "";
    } else {
      LessWhenDivided(m, base);
      DigitTextDenotes(m / base, base);
      assert t[..|t| - 1] == DigitText(m / base, base);
      Recompose(m, base);
    }
  }

  lemma Recompose(m: nat, base: nat)
    requires base > 0
    ensures m / base * base + m % base == m
  {
  }

  datatype Base = Binary | Octal | Decimal | Hexadecimal

  function Radix(b: Base): nat {
    match b
    case Binary => 2
    case Octal => 8
    case Decimal => 10
    case Hexadecimal => 16
  }

  function Prefix(b: Base): string {
    match b
    case Binary => "0b"
    case Octal => "0o"
    case Decimal => ""
    case Hexadecimal => "0x"
  }

  /** Digits of the base with separators anywhere. */
  predicate IsDigitText(text: string, b: Base) {
    WithoutSeparators(text) != "" && AreDigits(WithoutSeparators(text), Radix(b))
  }

  function LowerCase(c: char): char {
    if 'A' <= c <= 'Z' then 'a' + (c - 'A') else c
  }

  function Lowered(text: string): string {
    seq(|text|, i requires 0 <= i < |text| => LowerCase(text[i]))
  }

  /** Letters count the same in either case. */
  lemma {:induction false} CaseIsIrrelevant(text: string, base: nat)
    requires base <= 16
    ensures AreDigits(Lowered(text), base) <==> AreDigits(text, base)
    ensures ValueOf(Lowered(text), base) == ValueOf(text, base)
  {
    forall i | 0 <= i < |text| ensures DigitValue(Lowered(text)[i]) == DigitValue(text[i]) {
    }
    if text != "" {
      var n := |text| - 1;
      assert Lowered(text)[..n] == Lowered(text[..n]);
      CaseIsIrrelevant(text[..n], base);
    }
  }

  lemma MagnitudeOfDigits(text: string, base: nat, m: nat)
    requires 2 <= base <= 16 && m < U64_LIMIT && Lowered(WithoutSeparators(text)) == DigitText(m, base)
    ensures Magnitude(text, base) == Some(m)
    ensures WithoutSeparators(text) != "" && AreDigits(WithoutSeparators(text), base)
  {
    DigitTextDenotes(m, base);
    CaseIsIrrelevant(WithoutSeparators(text), base);
  }

  /** Numbers printed in decimal, such as the dimensions of a printed array type, are read back. */
  lemma {:induction false} PrintedNumberDenotes(n: nat)
    ensures ValueOf(Text.Decimal(n), 10) == n
  {
    var text := Text.Decimal(n);
    if n < 10 {
      assert text[..0] == "";
    } else {
      PrintedNumberDenotes(n / 10);
      assert text[..|text| - 1] == Text.Decimal(n / 10);
    }
  }

  lemma {:induction false} CharsOfDigitText(text: string, base: nat)
    requires AreDigits(WithoutSeparators(text), base)
    ensures forall i :: 0 <= i < |text| ==> text[i] == '_' || DigitValue(text[i]) < base
  {
    if text != "" {
      var n := |text| - 1;
      var before := WithoutSeparators(text[..n]);
      assert AreDigits(before, base) by {
        assert WithoutSeparators(text)[..|before|] == before;
      }
      CharsOfDigitText(text[..n], base);
      if text[n] != '_' {
        assert WithoutSeparators(text)[|before|] == text[n];
      }
    }
  }

  lemma PrefixedBody(text: string, b: Base)
    requires !b.Decimal?
    ensures var body := Prefix(b) + text; HasBasePrefix(body) && BaseOf(body) == Radix(b) && body[2..] == text
  {
    var prefix := Prefix(b);
    var body := prefix + text;
    assert body[0] == prefix[0] && body[1] == prefix[1];
  }

  lemma DecimalBody(text: string)
    requires forall i :: 0 <= i < |text| ==> text[i] == '_' || DigitValue(text[i]) < 10
    ensures !HasBasePrefix(text)
  {
  }

  lemma NoPoint(text: string, b: Base)
    requires forall i :: 0 <= i < |text| ==> text[i] == '_' || DigitValue(text[i]) < Radix(b)
    ensures '.' !in Prefix(b) + text
  {
  }

  /** The prefixes of the bases are the only ones, in lower case. */
  lemma BasePrefixes(text: string)
    ensures HasBasePrefix(text) <==> |text| >= 2 && exists b: Base :: !b.Decimal? && text[..2] == Prefix(b)
    ensures forall b: Base :: |text| >= 2 && !b.Decimal? && text[..2] == Prefix(b) ==> BaseOf(text) == Radix(b)
  {
    if |text| >= 2 {
      assert text[..2] == [text[0], text[1]];
      assert text[1] == 'b' && text[0] == '0' ==> text[..2] == Prefix(Binary);
      assert text[1] == 'o' && text[0] == '0' ==> text[..2] == Prefix(Octal);
      assert text[1] == 'x' && text[0] == '0' ==> text[..2] == Prefix(Hexadecimal);
    }
  }

  /** A literal body in any base denotes the value of its digits, whatever separators it has. */
  lemma BodyDenotes(text: string, b: Base, ty: Option<LiteralType>, m: nat)
    requires IsDigitText(text, b) && Magnitude(text, Radix(b)) == Some(m)
    ensures ParsedSplit(Split(ty, Prefix(b) + text)) == Number(if ty.Some? then ty.value else I32, ty.Some?, m)
  {
    CharsOfDigitText(text, Radix(b));
    NoPoint(text, b);
    if b.Decimal? {
      DecimalBody(text);
      assert Prefix(b) + text == text;
    } else {
      PrefixedBody(text, b);
    }
    ParsedBody(Split(ty, Prefix(b) + text), text, Radix(b));
  }

  lemma ParsedBody(s: Split, digits: string, base: nat)
    requires '.' !in s.rest && BaseOf(s.rest) == base
    requires digits == if HasBasePrefix(s.rest) then s.rest[2..] else s.rest
    requires Magnitude(digits, base).Some?
    ensures ParsedSplit(s) == Number(if s.ty.Some? then s.ty.value else I32, s.ty.Some?, Magnitude(digits, base).value)
  {
  }

  /** With an explicit suffix the literal is that number of that type, in every base. */
  lemma SuffixedLiteralDenotes(text: string, b: Base, k: nat, s: Split, m: nat)
    requires IsDigitText(text, b) && Magnitude(text, Radix(b)) == Some(m) && k < |SUFFIXES|
    requires IsSplit(Prefix(b) + text + "_" + SUFFIXES[k].0, s)
    ensures ParsedSplit(s) == Number(SUFFIXES[k].1, true, m)
  {
    assert text != "";
    SplitIsExactly(Prefix(b) + text + "_" + SUFFIXES[k].0, Prefix(b) + text, k, s);
    BodyDenotes(text, b, s.ty, m);
  }

  /** Every value of every integer type can be written in any base, with letters in either case, any
      separators and its suffix, and is read back as that value; the least value of a signed type needs its
      minus. */
  lemma ValuesRoundTrip(v: int, b: Base, k: nat, text: string, s: Split, sizes: nat)
    requires Target(sizes) && k < |SUFFIXES| && !IsFloat(SUFFIXES[k].1) && InRange(SUFFIXES[k].1, v, sizes)
    requires Lowered(WithoutSeparators(text)) == DigitText(FixedWidth.Abs(v), Radix(b))
    requires IsSplit(Prefix(b) + text + "_" + SUFFIXES[k].0, s)
    ensures var c := MakeConstant(ParsedSplit(s));
      c.Some? && c.value.IntConstant? && c.value.ty == SUFFIXES[k].1 && Denotes(c.value, v < 0, sizes) == Some(v)
  {
    RangeFits(SUFFIXES[k].1, v, sizes);
    DigitsWithSuffix(text, b, k, s, FixedWidth.Abs(v));
    NumberDenotes(SUFFIXES[k].1, v, sizes);
  }

  lemma DigitsWithSuffix(text: string, b: Base, k: nat, s: Split, m: nat)
    requires m < U64_LIMIT && Lowered(WithoutSeparators(text)) == DigitText(m, Radix(b)) && k < |SUFFIXES|
    requires IsSplit(Prefix(b) + text + "_" + SUFFIXES[k].0, s)
    ensures ParsedSplit(s) == Number(SUFFIXES[k].1, true, m)
  {
    MagnitudeOfDigits(text, Radix(b), m);
    SuffixedLiteralDenotes(text, b, k, s, m);
  }

  lemma NumberDenotes(ty: LiteralType, v: int, sizes: nat)
    requires Target(sizes) && !IsFloat(ty) && InRange(ty, v, sizes)
    ensures var c := MakeConstant(Number(ty, true, FixedWidth.Abs(v)));
      c.Some? && c.value.IntConstant? && c.value.ty == ty && Denotes(c.value, v < 0, sizes) == Some(v)
  {
    RangeFits(ty, v, sizes);
    LiteralDenotes(ty, true, FixedWidth.Abs(v), v < 0, sizes);
  }

  lemma RangeFits(ty: LiteralType, v: int, sizes: nat)
    requires Target(sizes) && !IsFloat(ty) && InRange(ty, v, sizes)
    ensures FixedWidth.Abs(v) < U64_LIMIT && (v < 0 ==> IsSigned(ty)) && Signed(FixedWidth.Abs(v), v < 0) == v
  {
    HalfOfWidth(ty);
  }

  // ---------------------------------------------------------------------------------------------
  // Without a suffix
  // ---------------------------------------------------------------------------------------------

  predicate EndsLikeFloatSuffix(raw: string) {
    HasSuffix(raw, "f32") || HasSuffix(raw, "f64")
  }

  /** Only digits of base 16 can be mistaken for a suffix, and only for a floating-point one. */
  lemma UnsuffixedLiteralDenotes(text: string, b: Base, s: Split, m: nat)
    requires IsDigitText(text, b) && Magnitude(text, Radix(b)) == Some(m)
    requires IsSplit(Prefix(b) + text, s)
    ensures ParsedSplit(s) == Number(I32, false, m) <==> !(b.Hexadecimal? && EndsLikeFloatSuffix(Prefix(b) + text))
  {
    var raw := Prefix(b) + text;
    if s.ty.None? {
      BodyDenotes(text, b, None, m);
      if EndsLikeFloatSuffix(raw) {
        FloatSuffixesListed(raw);
        assert false;
      }
    } else {
      var k: nat :| k < |SUFFIXES| && SUFFIXES[k].1 == s.ty.value && raw == s.rest + "_" + SUFFIXES[k].0;
      JoinHasSuffix(s.rest, SUFFIXES[k].0);
      SuffixOfDigits(text, b, k);
    }
  }

  predicate IsFractionChar(c: char) {
    '0' <= c <= '9' || c == '_' || c == '.'
  }

  lemma FractionText(a: string, b: string)
    requires IsDigitText(a, Decimal) && IsDigitText(b, Decimal)
    ensures var text := a + "." + b;
      && (forall i :: 0 <= i < |text| ==> IsFractionChar(text[i])) && '.' in text && !HasBasePrefix(text)
      && forall k: nat :: k < |SUFFIXES| ==> !HasSuffix(text, SUFFIXES[k].0)
  {
    CharsOfDigitText(a, 10);
    CharsOfDigitText(b, 10);
    var text := a + "." + b;
    assert text[|a|] == '.';
    forall k: nat | k < |SUFFIXES| ensures !HasSuffix(text, SUFFIXES[k].0) {
      SuffixesArePlain(k);
      var name := SUFFIXES[k].0;
      assert !IsFractionChar(name[0]);
      var at := |text| - |name|;
      assert at >= 0 ==> text[at..][0] == text[at] && IsFractionChar(text[at]);
    }
  }

  /** Digits around a point are a fraction of 64 bits, or of the type of their suffix, which must not be that of
      an integer. */
  lemma FractionsAreRead(a: string, b: string, k: nat, plain: Split, suffixed: Split)
    requires IsDigitText(a, Decimal) && IsDigitText(b, Decimal) && k < |SUFFIXES|
    requires IsSplit(a + "." + b, plain) && IsSplit(a + "." + b + "_" + SUFFIXES[k].0, suffixed)
    ensures ParsedSplit(plain) == Fraction(F64, false, WithoutSeparators(a + "." + b))
    ensures ParsedSplit(suffixed)
         == if IsFloat(SUFFIXES[k].1) then Fraction(SUFFIXES[k].1, true, WithoutSeparators(a + "." + b)) else Invalid
  {
    var text := a + "." + b;
    FractionText(a, b);
    if plain.ty.Some? {
      var j: nat :| j < |SUFFIXES| && SUFFIXES[j].1 == plain.ty.value && text == plain.rest + "_" + SUFFIXES[j].0;
      JoinHasSuffix(plain.rest, SUFFIXES[j].0);
    }
    SplitIsExactly(text + "_" + SUFFIXES[k].0, text, k, suffixed);
  }

  lemma FloatSuffixesListed(raw: string)
    requires EndsLikeFloatSuffix(raw)
    ensures exists k: nat :: k < |SUFFIXES| && HasSuffix(raw, SUFFIXES[k].0)
  {
    assert SUFFIXES[11].0 == "f64" && SUFFIXES[12].0 == "f32";
  }

  /** A suffix of a text of digits starts with a digit: f is the only letter a suffix can start with. */
  lemma SuffixOfDigits(text: string, b: Base, k: nat)
    requires k < |SUFFIXES| && HasSuffix(Prefix(b) + text, SUFFIXES[k].0)
    requires AreDigits(WithoutSeparators(text), Radix(b))
    ensures b.Hexadecimal? && EndsLikeFloatSuffix(Prefix(b) + text)
  {
    var raw, name := Prefix(b) + text, SUFFIXES[k].0;
    CharsOfDigitText(text, Radix(b));
    SuffixesArePlain(k);
    var at := |raw| - |name|;
    assert raw[at] == name[0] && raw[at - 1] == '_';
    assert DigitValue(name[0]) < Radix(b);
    assert k >= 11;
  }

  lemma OneDigit(c: char, b: Base)
    requires c != '_' && DigitValue(c) < Radix(b)
    ensures IsDigitText([c], b) && Magnitude([c], Radix(b)) == Some(DigitValue(c))
  {
    var text, base := [c], Radix(b);
    assert text[..0] == "" && WithoutSeparators("") == "";
    assert WithoutSeparators(text) == text;
    assert ValueOf(text[..0], base) == 0;
  }

  /** 0xa_f32 is ten as an f32, not the integer 0xaf32. */
  lemma HexReadAsFloat(s: Split)
    requires IsSplit("0xa_f32", s)
    ensures ParsedSplit(s) == Number(F32, true, 10)
  {
    OneDigit('a', Hexadecimal);
    FloatEntry();
    assert Prefix(Hexadecimal) + "a" + "_" + "f32" == "0xa_f32";
    SuffixedLiteralDenotes("a", Hexadecimal, 12, s, 10);
  }

  lemma FloatEntry()
    ensures |SUFFIXES| == 13 && SUFFIXES[12] == ("f32", F32)
  {
  }
}
