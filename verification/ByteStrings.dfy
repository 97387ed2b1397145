/** Byte strings as the syntax tree prints them in JSON, and the reader of escape sequences. */
module ByteStrings {
  type Byte = b: int | 0 <= b < 256

  const BACKSLASH: Byte := 0x5C

  function Code(c: char): Byte
    requires c as int < 128
  {
    c as int
  }

  // ---------------------------------------------------------------------------------------------
  // Writing
  // ---------------------------------------------------------------------------------------------

  function HexDigit(n: int): Byte
    requires 0 <= n < 16
  {
    if n < 10 then 0x30 + n else 0x41 + (n - 10)
  }

  function EscapeByte(b: Byte): seq<Byte> {
    if b == 0x0A then [BACKSLASH, Code('n')]
    else if b == 0x0D then [BACKSLASH, Code('r')]
    else if b == 0x09 then [BACKSLASH, Code('t')]
    else if b == 0x00 then [BACKSLASH, Code('0')]
    else if b == BACKSLASH then [BACKSLASH, BACKSLASH]
    else if b == 0x22 then [BACKSLASH, 0x22]
    else if 0x20 <= b <= 0x7E then [b]
    else [BACKSLASH, Code('x'), HexDigit(b / 16), HexDigit(b % 16)]
  }

  function Escape(bytes: seq<Byte>): seq<Byte> {
    if bytes == [] then [] else EscapeByte(bytes[0]) + Escape(bytes[1..])
  }

  method EscapeAstByteStringForJson(value: seq<Byte>) returns (escaped: seq<Byte>)
    ensures escaped == Escape(value)
  {
    escaped := [];
    for i := 0 to |value|
      invariant escaped + Escape(value[i..]) == Escape(value)
    {
      assert value[i..][1..] == value[i + 1..];
      escaped := escaped + EscapeByte(value[i]);
    }
  }

  // ---------------------------------------------------------------------------------------------
  // Reading
  // ---------------------------------------------------------------------------------------------

  function HexValue(b: Byte): int {
    if 0x30 <= b <= 0x39 then b - 0x30
    else if 0x41 <= b <= 0x46 then b - 0x41 + 10
    else if 0x61 <= b <= 0x66 then b - 0x61 + 10
    else -1
  }

  /** The bytes a piece of text at the front stands for, and the length of the piece. */
  datatype Piece = Piece(bytes: seq<Byte>, length: nat)

  function FirstPiece(s: seq<Byte>): Piece
    requires s != []
  {
    if s[0] != BACKSLASH || |s| == 1 then Piece([s[0]], 1)
    else if s[1] == Code('n') then Piece([0x0A], 2)
    else if s[1] == Code('t') then Piece([0x09], 2)
    else if s[1] == Code('r') then Piece([0x0D], 2)
    else if s[1] == Code('0') then Piece([0x00], 2)
    else if s[1] == BACKSLASH then Piece([BACKSLASH], 2)
    else if s[1] == 0x27 || s[1] == 0x22 then Piece([s[1]], 2)
    else if s[1] == Code('x') && |s| > 2 && HexValue(s[2]) >= 0 then
      if |s| > 3 && HexValue(s[3]) >= 0 then Piece([HexValue(s[2]) * 16 + HexValue(s[3])], 4)
      else Piece([HexValue(s[2])], 3)
    else Piece([BACKSLASH, s[1]], 2)
  }

  function Unescape(s: seq<Byte>): seq<Byte>
    decreases |s|
  {
    if s == [] then [] else FirstPiece(s).bytes + Unescape(s[FirstPiece(s).length..])
  }

  /** The escape that starts at i, and where it ends. Indexing is checked: nothing past the end is read. */
  method ReadEscape(s: seq<Byte>, i: nat) returns (bytes: seq<Byte>, next: nat)
    requires i + 1 < |s| && s[i] == BACKSLASH
    ensures i < next <= |s| && |bytes| <= next - i
    ensures Piece(bytes, next - i) == FirstPiece(s[i..])
  {
    next := i + 2;
    var c := s[i + 1];
    if c == Code('n') {
      bytes := [0x0A];
    } else if c == Code('t') {
      bytes := [0x09];
    } else if c == Code('r') {
      bytes := [0x0D];
    } else if c == Code('0') {
      bytes := [0x00];
    } else if c == BACKSLASH || c == 0x27 || c == 0x22 {
      bytes := [c];
    } else if c == Code('x') {
      var first := if i + 2 < |s| then HexValue(s[i + 2]) else -1;
      if first >= 0 {
        var second := if i + 3 < |s| then HexValue(s[i + 3]) else -1;
        if second >= 0 {
          return [first * 16 + second], i + 4;
        }
        return [first], i + 3;
      }
      bytes := [BACKSLASH, c];
    } else {
      bytes := [BACKSLASH, c];
    }
  }

  lemma UnescapeFrom(s: seq<Byte>, i: nat, piece: seq<Byte>, next: nat, before: seq<Byte>)
    requires i < next <= |s| && Piece(piece, next - i) == FirstPiece(s[i..])
    ensures before + Unescape(s[i..]) == before + piece + Unescape(s[next..])
  {
    var rest := s[i..];
    assert rest[next - i..] == s[next..];
    assert Unescape(rest) == piece + Unescape(s[next..]);
  }

  method StrEscape(s: seq<Byte>) returns (bytes: seq<Byte>)
    ensures bytes == Unescape(s)
    ensures |bytes| <= |s|
  {
    bytes := [];
    var i := 0;
    while i < |s|
      invariant 0 <= i <= |s| && |bytes| <= i
      invariant bytes + Unescape(s[i..]) == Unescape(s)
    {
      var piece, next := [s[i]], i + 1;
      if s[i] == BACKSLASH && i + 1 < |s| {
        piece, next := ReadEscape(s, i);
      }
      UnescapeFrom(s, i, piece, next, bytes);
      bytes, i := bytes + piece, next;
    }
  }

  // ---------------------------------------------------------------------------------------------
  // Properties
  // ---------------------------------------------------------------------------------------------

  lemma UnescapeStep(b: Byte, rest: seq<Byte>)
    ensures Unescape(EscapeByte(b) + rest) == [b] + Unescape(rest)
  {
    var s := EscapeByte(b) + rest;
    assert FirstPiece(s) == Piece([b], |EscapeByte(b)|);
    assert s[|EscapeByte(b)|..] == rest;
  }

  /** Text without a backslash stands for itself. */
  lemma {:induction false} PlainTextIsItself(s: seq<Byte>)
    requires BACKSLASH !in s
    ensures Unescape(s) == s
  {
    if s != [] {
      PlainTextIsItself(s[1..]);
      assert s == [s[0]] + s[1..];
    }
  }

  /** The digits of base 16 in either case. */
  predicate IsHexDigitOf(b: Byte, n: int) {
    0 <= n < 16 && if n < 10 then b == 0x30 + n else b == 0x41 + n - 10 || b == 0x61 + n - 10
  }

  ghost predicate IsHexDigit(b: Byte) {
    exists n :: IsHexDigitOf(b, n)
  }

  lemma HexValueIsDigit(b: Byte, n: int)
    ensures IsHexDigitOf(b, n) ==> HexValue(b) == n
    ensures HexValue(b) >= 0 <==> IsHexDigit(b)
  {
    assert HexValue(b) >= 0 ==> IsHexDigitOf(b, HexValue(b));
  }

  /** `\x` takes two digits if there are two. */
  lemma HexEscape(a: Byte, m: int, b: Byte, n: int, rest: seq<Byte>)
    requires IsHexDigitOf(a, m) && IsHexDigitOf(b, n)
    ensures Unescape([BACKSLASH, 0x78, a, b] + rest) == [16 * m + n] + Unescape(rest)
  {
    HexValueIsDigit(a, m);
    HexValueIsDigit(b, n);
    TakePiece([BACKSLASH, 0x78, a, b], rest, [16 * m + n]);
  }

  /** And one if there is one. */
  lemma ShortHexEscape(a: Byte, m: int, rest: seq<Byte>)
    requires IsHexDigitOf(a, m) && (rest == [] || !IsHexDigit(rest[0]))
    ensures Unescape([BACKSLASH, 0x78, a] + rest) == [m] + Unescape(rest)
  {
    HexValueIsDigit(a, m);
    if rest != [] {
      HexValueIsDigit(rest[0], 0);
    }
    TakePiece([BACKSLASH, 0x78, a], rest, [m]);
  }

  lemma TakePiece(text: seq<Byte>, rest: seq<Byte>, bytes: seq<Byte>)
    requires text != [] && FirstPiece(text + rest) == Piece(bytes, |text|)
    ensures Unescape(text + rest) == bytes + Unescape(rest)
  {
    assert (text + rest)[|text|..] == rest;
  }

  /** A backslash before any other character: a control character, a quote or a backslash, and everything
      unknown keeps its backslash. A last backslash stands for itself. */
  lemma SimpleEscapes(c: Byte, rest: seq<Byte>)
    requires c == 0x78 ==> rest == [] || !IsHexDigit(rest[0])
    ensures Unescape([BACKSLASH, c] + rest)
         == (match c
             case 0x6E => [0x0A]
             case 0x74 => [0x09]
             case 0x72 => [0x0D]
             case 0x30 => [0x00]
             case 0x5C => [0x5C]
             case 0x27 => [0x27]
             case 0x22 => [0x22]
             case _ => [BACKSLASH, c]) + Unescape(rest)
    ensures Unescape([BACKSLASH]) == [BACKSLASH]
  {
    if rest != [] {
      HexValueIsDigit(rest[0], 0);
    }
    TakePiece([BACKSLASH, c], rest, FirstPiece([BACKSLASH, c] + rest).bytes);
    TakePiece([BACKSLASH], [], [BACKSLASH]);
    assert [BACKSLASH] + [] == [BACKSLASH];
  }

  /** Reading what was written gives the bytes back, whatever they are. */
  lemma {:induction false} UnescapeUndoesEscape(bytes: seq<Byte>)
    ensures Unescape(Escape(bytes)) == bytes
  {
    if bytes == [] {
    } else {
      UnescapeUndoesEscape(bytes[1..]);
      UnescapeStep(bytes[0], Escape(bytes[1..]));
      assert bytes == [bytes[0]] + bytes[1..];
    }
  }

  /** The written form is printable ASCII, at least as long as the bytes and at most four times. */
  lemma {:induction false} EscapeIsPrintable(bytes: seq<Byte>)
    ensures forall b <- Escape(bytes) :: 0x20 <= b <= 0x7E
    ensures |bytes| <= |Escape(bytes)| <= 4 * |bytes|
  {
    if bytes == [] {
    } else {
      EscapeIsPrintable(bytes[1..]);
    }
  }

  /** Different bytes are never written alike. */
  lemma EscapeIsInjective(a: seq<Byte>, b: seq<Byte>)
    requires Escape(a) == Escape(b)
    ensures a == b
  {
    UnescapeUndoesEscape(a);
    UnescapeUndoesEscape(b);
  }

  /** Each byte is written in the shortest form that there is for it: itself, an escape of two characters, or
      two digits of base 16, whose letters are capitals. */
  lemma WrittenForm(b: Byte)
    ensures |EscapeByte(b)| == if b in {0x00, 0x09, 0x0A, 0x0D, 0x22, 0x5C} then 2
                               else if 0x20 <= b <= 0x7E then 1
                               else 4
    ensures |EscapeByte(b)| == 4 ==> forall i :: 2 <= i < 4 ==> !(0x61 <= EscapeByte(b)[i] <= 0x66)
    ensures |EscapeByte(b)| == 1 ==> EscapeByte(b) == [b]
  {
  }

  /** Quotes inside the written form always follow an odd run of backslashes: it can stand between quotes.
      `odd` says whether an open backslash precedes the text. */
  predicate QuotesEscaped(s: seq<Byte>, odd: bool) {
    if s == [] then !odd
    else if odd then QuotesEscaped(s[1..], false)
    else s[0] != 0x22 && QuotesEscaped(s[1..], s[0] == BACKSLASH)
  }

  lemma {:induction false} EscapeHidesQuotes(bytes: seq<Byte>)
    ensures QuotesEscaped(Escape(bytes), false)
  {
    if bytes == [] {
    } else {
      EscapeHidesQuotes(bytes[1..]);
      QuotesStep(bytes[0], Escape(bytes[1..]));
    }
  }

  lemma QuotesStep(b: Byte, rest: seq<Byte>)
    requires QuotesEscaped(rest, false)
    ensures QuotesEscaped(EscapeByte(b) + rest, false)
  {
    var s := EscapeByte(b) + rest;
    if |EscapeByte(b)| == 1 {
      assert s[1..] == rest;
    } else if |EscapeByte(b)| == 2 {
      assert s[1..][1..] == rest;
    } else {
      var t := s[1..];
      var u := t[1..];
      assert u == [HexDigit(b / 16), HexDigit(b % 16)] + rest && u[1..] == [HexDigit(b % 16)] + rest;
      assert u[1..][1..] == rest;
      assert QuotesEscaped(u[1..], false) && QuotesEscaped(u, false);
    }
  }
}
