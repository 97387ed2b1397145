/** Strings: white space, suffixes and decimal numerals. */
module Text {

  /** `isspace` in the default locale. */
  predicate IsSpace(c: char) {
    c == ' ' || c == '\t' || c == '\n' || c == '\r' || c as int == 11 || c as int == 12
  }

  function TrimLeft(s: string): string {
    if s != "" && IsSpace(s[0]) then TrimLeft(s[1..]) else s
  }

  function TrimRight(s: string): string {
    if s != "" && IsSpace(s[|s| - 1]) then TrimRight(s[..|s| - 1]) else s
  }

  function Trim(s: string): string {
    TrimRight(TrimLeft(s))
  }

  lemma {:induction false} TrimLeftLength(s: string)
    ensures |TrimLeft(s)| <= |s|
  {
    if s != "" && IsSpace(s[0]) {
      TrimLeftLength(s[1..]);
    }
  }

  lemma {:induction false} TrimRightLength(s: string)
    ensures |TrimRight(s)| <= |s|
  {
    if s != "" && IsSpace(s[|s| - 1]) {
      TrimRightLength(s[..|s| - 1]);
    }
  }

  lemma TrimLength(s: string)
    ensures |Trim(s)| <= |s|
  {
    TrimLeftLength(s);
    TrimRightLength(TrimLeft(s));
  }

  /** Neither starts nor ends with white space, and is not empty. */
  predicate Solid(s: string) {
    s != "" && !IsSpace(s[0]) && !IsSpace(s[|s| - 1])
  }

  lemma TrimSolid(s: string)
    requires Solid(s)
    ensures Trim(s) == s && Trim("" + s) == s && Trim(" " + s) == s
  {
    assert "" + s == s;
    assert (" " + s)[1..] == s;
  }

  lemma {:induction false} TrimLeftShape(s: string)
    ensures TrimLeft(s) == "" || !IsSpace(TrimLeft(s)[0])
  {
    if s != "" && IsSpace(s[0]) {
      TrimLeftShape(s[1..]);
    }
  }

  lemma {:induction false} TrimRightShape(s: string)
    requires s == "" || !IsSpace(s[0])
    ensures TrimRight(s) == "" || Solid(TrimRight(s))
  {
    if s != "" && IsSpace(s[|s| - 1]) {
      TrimRightShape(s[..|s| - 1]);
    }
  }

  lemma TrimIdempotent(s: string)
    ensures Trim(Trim(s)) == Trim(s)
  {
    TrimLeftShape(s);
    TrimRightShape(TrimLeft(s));
    if Trim(s) != "" {
      TrimSolid(Trim(s));
    }
  }

  predicate EndsWith(s: string, suffix: string) {
    |suffix| <= |s| && s[|s| - |suffix|..] == suffix
  }

  /** One differing character rules a suffix out. */
  lemma NotSuffix(s: string, suffix: string, i: nat)
    requires i < |suffix| && (|s| < |suffix| || s[|s| - |suffix| + i] != suffix[i])
    ensures !EndsWith(s, suffix)
  {
    if |suffix| <= |s| {
      assert s[|s| - |suffix|..][i] == s[|s| - |suffix| + i];
    }
  }

  lemma SuffixOf(s: string, suffix: string)
    ensures EndsWith(s + suffix, suffix) && (s + suffix)[..|s + suffix| - |suffix|] == s
  {
  }

  function Digit(d: nat): char
    requires d < 10
  {
    "0123456789"[d]
  }

  function Decimal(n: nat): (s: string)
    ensures s != ""
  {
    if n < 10 then [Digit(n)] else Decimal(n / 10) + [Digit(n % 10)]
  }
}
