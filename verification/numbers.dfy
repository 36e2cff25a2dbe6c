/** The .NET number and boolean parsing the auto-clicker relies on
    (`int.TryParse`, `int.Parse`, `bool.Parse`, `bool.ToString`) and the
    32-bit wrap-around of unchecked C# `int` arithmetic. */
module Numbers {
  import opened Common
  import opened Text

  const Int32Min: int := -0x8000_0000
  const Int32Max: int := 0x7FFF_FFFF

  predicate InInt32(n: int) {
    Int32Min <= n <= Int32Max
  }

  /** Unchecked C# `int` arithmetic: the int32 value congruent to `n`. */
  function Wrap32(n: int): (r: int)
    ensures InInt32(r)
    ensures (n - r) % 0x1_0000_0000 == 0
    ensures InInt32(n) ==> r == n
  {
    (n + 0x8000_0000) % 0x1_0000_0000 - 0x8000_0000
  }

  predicate IsDigit(c: char) {
    '0' <= c <= '9'
  }

  predicate AllDigits(s: string) {
    forall i :: 0 <= i < |s| ==> IsDigit(s[i])
  }

  function DigitValue(c: char): (d: nat)
    requires IsDigit(c)
    ensures d < 10
  {
    c as int - '0' as int
  }

  function DigitChar(d: nat): (c: char)
    requires d < 10
    ensures IsDigit(c) && DigitValue(c) == d
  {
    ('0' as int + d) as char
  }

  /** The decimal value of a run of digits, most significant first. */
  function DigitsValue(ds: string): nat
    requires AllDigits(ds)
  {
    if |ds| == 0 then 0 else DigitsValue(ds[..|ds| - 1]) * 10 + DigitValue(ds[|ds| - 1])
  }

  /** `int.TryParse(s, out n)` with `NumberStyles.Integer` in a culture whose
      signs are `+` and `-`: optional surrounding white space, an optional
      sign, one or more decimal digits, and a value inside the int32 range.
      Like the .NET parser, it also lets U+0000 characters follow the
      trailing white space at the very end of the text. `None` is the
      `false` return. */
  function TryParseInt32(s: string): (r: Option<int>)
    ensures r.Some? ==> InInt32(r.value)
  {
    ParseSigned(TrimBy(TrimEnd(s, Null), NumberWhite))
  }

  /** The sign-and-digits part of `int.TryParse`, once white space is gone. */
  function ParseSigned(t: string): (r: Option<int>)
    ensures r.Some? ==> InInt32(r.value)
  {
    var negative := |t| > 0 && t[0] == '-';
    var digits := if |t| > 0 && (t[0] == '-' || t[0] == '+') then t[1..] else t;
    if |digits| == 0 || !AllDigits(digits) then None
    else
      var magnitude: int := DigitsValue(digits);
      var n: int := if negative then -magnitude else magnitude;
      if InInt32(n) then Some(n) else None
  }

  /** The decimal digits of `n`, without leading zeros. */
  function NatToString(n: nat): (s: string)
    ensures |s| > 0 && AllDigits(s)
    decreases n
  {
    if n < 10 then [DigitChar(n)] else NatToString(n / 10) + [DigitChar(n % 10)]
  }

  /** `n.ToString()` for an int in the invariant culture. */
  function IntToString(n: int): string {
    if n < 0 then "-" + NatToString(-n) else NatToString(n)
  }

  lemma {:induction false} DigitsOfNat(n: nat)
    ensures DigitsValue(NatToString(n)) == n
    decreases n
  {
    var s := NatToString(n);
    if n >= 10 {
      DigitsOfNat(n / 10);
      assert s[..|s| - 1] == NatToString(n / 10);
    }
  }

  /** `int.TryParse` reads back what `ToString` writes, for every int32. */
  lemma ParseOfIntToString(n: int)
    requires InInt32(n)
    ensures TryParseInt32(IntToString(n)) == Some(n)
  {
    var s := IntToString(n);
    var m := if n < 0 then -n else n;
    DigitsOfNat(m);
    assert TrimEnd(s, Null) == s;
    assert IsTrimmed(s, NumberWhite);
    TrimOfTrimmed(s, NumberWhite);
    if n < 0 {
      assert s[1..] == NatToString(m);
    }
  }

  /** `s` has the shape `int.TryParse` accepts, with its digits at `s[a..b]`
      and U+0000 characters from `e` on: only number white space between
      the digits and `e`, and only number white space before the digits
      except for one sign right in front. */
  predicate IntegerShape(s: string, a: int, b: int, e: int) {
    && 0 <= a < b <= e <= |s|
    && AllDigits(s[a..b])
    && (forall i :: b <= i < e ==> IsNumberWhite(s[i]))
    && (forall i :: e <= i < |s| ==> s[i] == '\0')
    && (forall i :: 0 <= i < a ==> IsNumberWhite(s[i]) || (i == a - 1 && (s[i] == '+' || s[i] == '-')))
  }

  /** The value of the digits `s[a..b]`, negated when a minus sign stands in
      front of them. */
  function ShapeValue(s: string, a: int, b: int): int
    requires 0 <= a < b <= |s| && AllDigits(s[a..b])
  {
    if a > 0 && s[a - 1] == '-' then 0 - DigitsValue(s[a..b]) as int else DigitsValue(s[a..b])
  }

  /** What `int.TryParse` accepts is integer-shaped, and the result is the
      value that shape denotes. */
  lemma ParsedDigits(s: string, n: int)
    requires TryParseInt32(s) == Some(n)
    ensures exists a, b, e :: IntegerShape(s, a, b, e) && n == ShapeValue(s, a, b)
  {
    var u := TrimEnd(s, Null);
    TrimEndCuts(s, Null);
    var a, b := SignedDigits(u, n);
    var e := |u|;
    assert s[a..b] == u[a..b];
    assert forall i :: 0 <= i < e ==> u[i] == s[i];
    assert IntegerShape(s, a, b, e);
  }

  /** `ParsedDigits` once the trailing U+0000 characters are gone: where
      the digits of the accepted text are. */
  lemma SignedDigits(u: string, n: int) returns (a: int, b: int)
    requires ParseSigned(TrimBy(u, NumberWhite)) == Some(n)
    ensures IntegerShape(u, a, b, |u|) && n == ShapeValue(u, a, b)
  {
    var t := TrimBy(u, NumberWhite);
    TrimByInfix(u, NumberWhite);
    var lead := Leading(u, NumberWhite);
    var signed := |t| > 0 && (t[0] == '-' || t[0] == '+');
    a := if signed then lead + 1 else lead;
    b := lead + |t|;
    var digits := if signed then t[1..] else t;
    assert digits == u[a..b];
    if !signed && a > 0 {
      assert Cut(NumberWhite, u[a - 1]);
    }
    if signed {
      assert u[a - 1] == t[0];
    }
  }

  /** The converse: an integer-shaped text parses, to the value it denotes
      when that value is an int32 and to `None` (overflow) otherwise. */
  lemma ShapeParses(s: string, a: int, b: int, e: int)
    requires IntegerShape(s, a, b, e)
    ensures TryParseInt32(s) == if InInt32(ShapeValue(s, a, b)) then Some(ShapeValue(s, a, b)) else None
  {
    assert IsDigit(s[a..b][b - a - 1]);
    assert s[e - 1] != '\0' by {
      if e > b {
        assert IsNumberWhite(s[e - 1]);
      }
    }
    TrimEndExact(s, Null, e);
    var u := s[..e];
    assert u[a..b] == s[a..b];
    assert forall i :: 0 <= i < e ==> u[i] == s[i];
    SignedParses(u, a, b);
  }

  /** `ShapeParses` once the trailing U+0000 characters are gone. */
  lemma SignedParses(u: string, a: int, b: int)
    requires IntegerShape(u, a, b, |u|)
    ensures ParseSigned(TrimBy(u, NumberWhite)) == if InInt32(ShapeValue(u, a, b)) then Some(ShapeValue(u, a, b)) else None
  {
    var signed := a > 0 && (u[a - 1] == '-' || u[a - 1] == '+');
    var c := if signed then a - 1 else a;
    assert IsDigit(u[a..b][0]) && IsDigit(u[a..b][b - a - 1]);
    assert !IsNumberWhite(u[c]);
    TrimByExact(u, NumberWhite, c, b);
    var t := TrimBy(u, NumberWhite);
    assert t == u[c..b];
    if signed {
      assert t[1..] == u[a..b];
    }
  }

  /** A settings value that ends in U+0000 still parses. */
  lemma TrailingNullParses()
    ensures TryParseInt32("70\0") == Some(70)
  {
    var s := "70\0";
    assert AllDigits(s[0..2]) && DigitsValue(s[0..2]) == 70 by {
      assert s[0..2] == "70" && "70"[..1] == "7";
    }
    ShapeParses(s, 0, 2, 2);
  }

  /** U+0000 is allowed only at the very end: a space after it spoils the
      number. */
  lemma NullBeforeSpaceFails()
    ensures TryParseInt32("70\0 ") == None
  {
    var u := "70\0 ";
    TrimEndExact(u, Null, 4);
    TrimByExact(u, NumberWhite, 0, 3);
    assert !AllDigits(u[0..3]) by {
      assert u[0..3][2] == '\0';
    }
  }

  /** A string holding no digit never parses. */
  lemma NoDigitNoNumber(s: string)
    requires forall i :: 0 <= i < |s| ==> !IsDigit(s[i])
    ensures TryParseInt32(s) == None
  {
    var u := TrimEnd(s, Null);
    TrimEndCuts(s, Null);
    var t := TrimBy(u, NumberWhite);
    TrimByInfix(u, NumberWhite);
    var a := Leading(u, NumberWhite);
    assert forall i :: 0 <= i < |t| ==> t[i] == s[a + i];
  }

  /** Upper-cases ASCII letters and compares: `StringComparison.OrdinalIgnoreCase`
      equality restricted to ASCII case folding. */
  predicate EqualsIgnoreCase(a: string, b: string) {
    UpperAsciiString(a) == UpperAsciiString(b)
  }

  /** `bool.Parse(s)`: "True" or "False" in any letter case, after trimming
      white space and U+0000 from both ends. `None` is the
      `FormatException`. */
  function ParseBool(s: string): (r: Option<bool>)
    ensures r == Some(true) <==> EqualsIgnoreCase(TrimBy(s, WhiteSpaceOrNull), "True")
    ensures r == Some(false) <==> EqualsIgnoreCase(TrimBy(s, WhiteSpaceOrNull), "False")
  {
    var t := TrimBy(s, WhiteSpaceOrNull);
    if EqualsIgnoreCase(t, "True") then Some(true)
    else if EqualsIgnoreCase(t, "False") then Some(false)
    else None
  }

  /** `bool.ToString()`. */
  function BoolToString(b: bool): string {
    if b then "True" else "False"
  }

  /** `bool.Parse` reads back what `bool.ToString` writes. */
  lemma ParseOfBoolToString(b: bool)
    ensures ParseBool(BoolToString(b)) == Some(b)
  {
    var s := BoolToString(b);
    assert IsTrimmed(s, WhiteSpaceOrNull);
    TrimOfTrimmed(s, WhiteSpaceOrNull);
    assert UpperAsciiString("True") == "TRUE";
    assert UpperAsciiString("False") == "FALSE";
  }
}
