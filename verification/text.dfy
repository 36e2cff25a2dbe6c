/** Ordinal string operations used by the auto-clicker: substring search,
    prefix test, splitting at the first separator, trimming and the
    ordinal order of strings. Strings are sequences of characters and every
    comparison is ordinal (character by character). */
module Text {

  /** `Char.IsWhiteSpace`: the Unicode space separators, the line and
      paragraph separators, U+0009 to U+000D and U+0085. */
  predicate IsWhiteSpace(c: char) {
    || c == ' '
    || ('\t' <= c <= '\r')
    || c == '\U{0085}'
    || c == '\U{00A0}'
    || c == '\U{1680}'
    || ('\U{2000}' <= c <= '\U{200A}')
    || c == '\U{2028}'
    || c == '\U{2029}'
    || c == '\U{202F}'
    || c == '\U{205F}'
    || c == '\U{3000}'
  }

  /** The white space `NumberStyles.AllowLeadingWhite` and
      `AllowTrailingWhite` accept: U+0009 to U+000D and U+0020. */
  predicate IsNumberWhite(c: char) {
    c == ' ' || '\t' <= c <= '\r'
  }

  /** The character classes the .NET trimming routines cut off:
      `String.Trim()`, number parsing (its white space, and the U+0000
      characters it allows at the very end), and `bool.Parse` (white space
      and U+0000). */
  datatype Blank = WhiteSpace | NumberWhite | Null | WhiteSpaceOrNull

  predicate Cut(drop: Blank, c: char) {
    match drop
    case WhiteSpace => IsWhiteSpace(c)
    case NumberWhite => IsNumberWhite(c)
    case Null => c == '\0'
    case WhiteSpaceOrNull => IsWhiteSpace(c) || c == '\0'
  }

  /** Removes the leading characters of class `drop` (`TrimStartCuts` says
      what was cut). */
  function TrimStart(s: string, drop: Blank): (r: string)
    ensures |r| <= |s|
    ensures |r| > 0 ==> !Cut(drop, r[0])
    decreases |s|
  {
    if |s| > 0 && Cut(drop, s[0]) then TrimStart(s[1..], drop) else s
  }

  /** Trimming the start leaves a suffix and cuts only characters of class
      `drop`. */
  lemma {:induction false} TrimStartCuts(s: string, drop: Blank)
    ensures TrimStart(s, drop) == s[|s| - |TrimStart(s, drop)|..]
    ensures forall i :: 0 <= i < |s| - |TrimStart(s, drop)| ==> Cut(drop, s[i])
    decreases |s|
  {
    if |s| > 0 && Cut(drop, s[0]) {
      TrimStartCuts(s[1..], drop);
      assert forall i :: 1 <= i < |s| ==> s[i] == s[1..][i - 1];
    }
  }

  /** Removes the trailing characters of class `drop` (`TrimEndCuts` says
      what was cut). */
  function TrimEnd(s: string, drop: Blank): (r: string)
    ensures |r| <= |s|
    ensures |r| > 0 ==> r[0] == s[0] && !Cut(drop, r[|r| - 1])
    decreases |s|
  {
    if |s| > 0 && Cut(drop, s[|s| - 1]) then TrimEnd(s[..|s| - 1], drop) else s
  }

  /** Trimming the end leaves a prefix and cuts only characters of class
      `drop`. */
  lemma {:induction false} TrimEndCuts(s: string, drop: Blank)
    ensures TrimEnd(s, drop) == s[..|TrimEnd(s, drop)|]
    ensures forall i :: |TrimEnd(s, drop)| <= i < |s| ==> Cut(drop, s[i])
    decreases |s|
  {
    if |s| > 0 && Cut(drop, s[|s| - 1]) {
      TrimEndCuts(s[..|s| - 1], drop);
    }
  }

  /** When everything from index `e` on is of class `drop` and the
      character before it is kept, trimming the end leaves `s[..e]`. */
  lemma TrimEndExact(s: string, drop: Blank, e: int)
    requires 0 < e <= |s|
    requires forall i :: e <= i < |s| ==> Cut(drop, s[i])
    requires !Cut(drop, s[e - 1])
    ensures TrimEnd(s, drop) == s[..e]
  {
    var u := TrimEnd(s, drop);
    TrimEndCuts(s, drop);
    assert e <= |u|;
    assert |u| > 0 && !Cut(drop, u[|u| - 1]) && u[|u| - 1] == s[|u| - 1];
    assert |u| <= e;
  }

  /** Neither end of `s` is of class `drop`. */
  predicate IsTrimmed(s: string, drop: Blank) {
    |s| == 0 || (!Cut(drop, s[0]) && !Cut(drop, s[|s| - 1]))
  }

  /** How many leading characters trimming cuts off. */
  function Leading(s: string, drop: Blank): (n: nat)
    ensures n <= |s|
  {
    |s| - |TrimStart(s, drop)|
  }

  /** Removes the characters of class `drop` from both ends; the result
      starts and ends with a kept character (`TrimByInfix` says what was cut). */
  function TrimBy(s: string, drop: Blank): (r: string)
    ensures IsTrimmed(r, drop) && |r| <= |s|
  {
    TrimEnd(TrimStart(s, drop), drop)
  }

  /** What is left after trimming is the infix of `s` starting at
      `Leading(s, drop)`, and everything cut off is of class `drop`. */
  lemma TrimByInfix(s: string, drop: Blank)
    ensures Leading(s, drop) + |TrimBy(s, drop)| <= |s|
    ensures TrimBy(s, drop) == s[Leading(s, drop)..Leading(s, drop) + |TrimBy(s, drop)|]
    ensures forall i :: 0 <= i < Leading(s, drop) ==> Cut(drop, s[i])
    ensures forall i :: Leading(s, drop) + |TrimBy(s, drop)| <= i < |s| ==> Cut(drop, s[i])
  {
    var t := TrimStart(s, drop);
    var r := TrimEnd(t, drop);
    var a := |s| - |t|;
    TrimStartCuts(s, drop);
    TrimEndCuts(t, drop);
    assert Leading(s, drop) == a && TrimBy(s, drop) == r;
    assert t == s[a..];
    assert r == t[..|r|];
    assert t[..|r|] == s[a..a + |r|];
    assert forall i :: a + |r| <= i < |s| ==> s[i] == t[i - a];
  }

  /** When everything outside `s[c..b]` is of class `drop` and both ends of
      that infix are kept characters, trimming leaves exactly that infix. */
  lemma TrimByExact(s: string, drop: Blank, c: int, b: int)
    requires 0 <= c < b <= |s|
    requires forall i :: 0 <= i < c ==> Cut(drop, s[i])
    requires forall i :: b <= i < |s| ==> Cut(drop, s[i])
    requires !Cut(drop, s[c]) && !Cut(drop, s[b - 1])
    ensures TrimBy(s, drop) == s[c..b]
  {
    var t := TrimBy(s, drop);
    var l := Leading(s, drop);
    TrimByInfix(s, drop);
    assert l <= c < l + |t|;
    assert t[0] == s[l];
    assert l == c;
    assert b - 1 < l + |t|;
    assert t[|t| - 1] == s[l + |t| - 1];
    assert l + |t| == b;
  }

  /** `String.Trim()`. */
  function Trim(s: string): string {
    TrimBy(s, WhiteSpace)
  }

  /** A string that has nothing to trim is its own trim. */
  lemma TrimOfTrimmed(s: string, drop: Blank)
    requires IsTrimmed(s, drop)
    ensures TrimBy(s, drop) == s
  {
  }

  /** `t` occurs in `s` starting at index `i`. */
  predicate OccursAt(s: string, t: string, i: int) {
    0 <= i && i + |t| <= |s| && s[i..i + |t|] == t
  }

  /** `s.IndexOf(t, start)` under ordinal comparison: the first index at or
      after `start` where `t` occurs, or -1. An empty `t` is found at
      `start`. */
  function IndexOf(s: string, t: string, start: nat): (r: int)
    requires start <= |s|
    ensures r == -1 || (start <= r && OccursAt(s, t, r))
    ensures forall i :: start <= i && (r == -1 || i < r) ==> !OccursAt(s, t, i)
    decreases |s| - start
  {
    if OccursAt(s, t, start) then start
    else if start == |s| then -1
    else IndexOf(s, t, start + 1)
  }

  /** `s.Contains(t)`. */
  predicate Contains(s: string, t: string) {
    IndexOf(s, t, 0) >= 0
  }

  /** `s.StartsWith(p)` under ordinal comparison. */
  predicate StartsWith(s: string, p: string) {
    |p| <= |s| && s[..|p|] == p
  }

  /** Upper-case mapping of the ASCII letters; every other character maps to
      itself. */
  function UpperAscii(c: char): char {
    if 'a' <= c <= 'z' then (c as int - 32) as char else c
  }

  function UpperAsciiString(s: string): (r: string)
    ensures |r| == |s|
    ensures forall i :: 0 <= i < |s| ==> r[i] == UpperAscii(s[i])
  {
    seq(|s|, i requires 0 <= i < |s| => UpperAscii(s[i]))
  }

  /** `s.IndexOf(t, StringComparison.OrdinalIgnoreCase) >= 0`, with case
      folding restricted to ASCII. */
  predicate ContainsIgnoreCase(s: string, t: string) {
    Contains(UpperAsciiString(s), UpperAsciiString(t))
  }

  /** `t` occurs at `i` in `s` when letter case is ignored. */
  predicate OccursIgnoreCaseAt(s: string, t: string, i: int) {
    0 <= i && i + |t| <= |s| && forall k :: 0 <= k < |t| ==> UpperAscii(s[i + k]) == UpperAscii(t[k])
  }

  /** Case-insensitive containment means a case-insensitive occurrence. */
  lemma ContainsIgnoreCaseIff(s: string, t: string)
    ensures ContainsIgnoreCase(s, t) <==> exists i :: OccursIgnoreCaseAt(s, t, i)
  {
    var us, ut := UpperAsciiString(s), UpperAsciiString(t);
    forall i | 0 <= i && i + |t| <= |s|
      ensures OccursAt(us, ut, i) <==> OccursIgnoreCaseAt(s, t, i)
    {
      if OccursAt(us, ut, i) {
        forall k | 0 <= k < |t|
          ensures UpperAscii(s[i + k]) == UpperAscii(t[k])
        {
          assert us[i..i + |t|][k] == ut[k];
        }
      }
      if OccursIgnoreCaseAt(s, t, i) {
        assert us[i..i + |t|] == ut;
      }
    }
    if ContainsIgnoreCase(s, t) {
      var i := IndexOf(us, ut, 0);
      assert OccursIgnoreCaseAt(s, t, i);
    }
    if exists i :: OccursIgnoreCaseAt(s, t, i) {
      var i :| OccursIgnoreCaseAt(s, t, i);
      assert OccursAt(us, ut, i);
    }
  }

  /** `line.Split(new[] { sep }, 2)`: `None` when `sep` does not occur (one
      part), otherwise the text before the first `sep` and everything after
      it. */
  function SplitFirst(line: string, sep: char): (r: Option2)
    ensures r.Split? <==> sep in line
    ensures r.Split? ==> line == r.before + [sep] + r.after && sep !in r.before
    decreases |line|
  {
    if |line| == 0 then Whole
    else if line[0] == sep then Split([], line[1..])
    else match SplitFirst(line[1..], sep)
      case Whole => Whole
      case Split(b, a) =>
        assert line == [line[0]] + line[1..];
        Split([line[0]] + b, a)
  }

  /** The two shapes `Split` with a count of 2 can return. */
  datatype Option2 = Whole | Split(before: string, after: string)

  /** Splitting `k + [sep] + v` at the first `sep` gives back `k` and `v`
      whenever `k` does not contain `sep`. */
  lemma {:induction false} SplitFirstJoin(k: string, sep: char, v: string)
    requires sep !in k
    ensures SplitFirst(k + [sep] + v, sep) == Split(k, v)
    decreases |k|
  {
    var line := k + [sep] + v;
    if |k| == 0 {
      assert line == [sep] + v;
    } else {
      assert line[1..] == k[1..] + [sep] + v;
      SplitFirstJoin(k[1..], sep, v);
      assert k == [k[0]] + k[1..];
    }
  }

  /** Ordinal order of strings: `a` is at most `b`. A proper prefix comes
      first; otherwise the first differing character decides. */
  predicate Below(a: string, b: string)
    decreases |a|
  {
    |a| == 0 || (|b| > 0 && (a[0] < b[0] || (a[0] == b[0] && Below(a[1..], b[1..]))))
  }

  lemma BelowReflexive(a: string)
    ensures Below(a, a)
  {
  }

  lemma BelowTotal(a: string, b: string)
    ensures Below(a, b) || Below(b, a)
  {
  }

  lemma BelowAntisymmetric(a: string, b: string)
    requires Below(a, b) && Below(b, a)
    ensures a == b
  {
    if |a| > 0 {
      BelowAntisymmetric(a[1..], b[1..]);
      assert a == [a[0]] + a[1..] && b == [b[0]] + b[1..];
    }
  }

  lemma BelowTransitive(a: string, b: string, c: string)
    requires Below(a, b) && Below(b, c)
    ensures Below(a, c)
  {
  }
}
