/** `GetSubstringAsInt`: the integer written between a marker and the next
    terminator in a template path (`.OX5.` gives 5). */
module Markers {
  import opened Text
  import opened Numbers

  /** What `GetSubstringAsInt` can do: return an int, return null, or throw
      (the `IndexOf` start index lies past the end of the string). */
  datatype Lookup = Found(value: int) | NotFound | OutOfRange

  /** `i` is the first occurrence of `t` in `s` at or after `from`. */
  predicate FirstAt(s: string, t: string, from: int, i: int) {
    from <= i && OccursAt(s, t, i) && forall j :: from <= j < i ==> !OccursAt(s, t, j)
  }

  /** `GetSubstringAsInt(fileName, prefix, suffix)`: parse the text between the
      first `prefix` and the first `suffix` after it. The search for the suffix
      starts at `prefixIndex + prefix.Length` even when the prefix is missing
      (`prefixIndex == -1`); that start lies past the end, and `IndexOf`
      throws, exactly when the prefix is more than one character longer than
      the string. */
  function GetSubstringAsInt(fileName: string, prefix: string, suffix: string): (r: Lookup)
    ensures r.OutOfRange? <==> |prefix| > |fileName| + 1
    ensures r.Found? ==> InInt32(r.value)
  {
    var prefixIndex := IndexOf(fileName, prefix, 0);
    assert prefixIndex == -1 ==> |prefix| > 0 by {
      assert OccursAt(fileName, [], 0);
    }
    LookupAfter(fileName, prefix, suffix, prefixIndex)
  }

  /** The rest of `GetSubstringAsInt` once the prefix has been searched for:
      `IndexOf` throws for a start index outside the string. */
  function LookupAfter(fileName: string, prefix: string, suffix: string, prefixIndex: int): (r: Lookup)
    ensures r.OutOfRange? <==> !(0 <= prefixIndex + |prefix| <= |fileName|)
  {
    var from := prefixIndex + |prefix|;
    if from < 0 || from > |fileName| then OutOfRange
    else
      var suffixIndex := IndexOf(fileName, suffix, from);
      if prefixIndex != -1 && suffixIndex != -1 then ParseSlice(fileName, from, suffixIndex)
      else NotFound
  }

  /** `int.TryParse(s.Substring(from, to - from))` as a lookup result. */
  function ParseSlice(s: string, from: nat, to: nat): (r: Lookup)
    requires from <= to <= |s|
    ensures r.Found? <==> TryParseInt32(s[from..to]).Some?
    ensures r.Found? ==> r.value == TryParseInt32(s[from..to]).value
    ensures !r.OutOfRange?
  {
    match TryParseInt32(s[from..to])
    case Some(n) => Found(n)
    case None => NotFound
  }
}
