/** Click resolution from a template's path: the `.OX<n>.` and `.OY<n>.`
    offset markers, the `RightClick` marker, and the click point derived
    from the display origin, the match location and the offset. The markers
    are looked up in the full path each time a match is acted on. */
module Metadata {
  import opened Common
  import opened Text
  import opened Numbers
  import opened Mouse
  import opened Markers

  /** Without the prefix the lookup is null (or throws, for a string too short
      to start the suffix search in). */
  lemma LookupWithoutPrefix(s: string, prefix: string, suffix: string)
    requires forall i :: !OccursAt(s, prefix, i)
    ensures GetSubstringAsInt(s, prefix, suffix) == if |prefix| > |s| + 1 then OutOfRange else NotFound
  {
  }

  /** With the first prefix at `p` and no suffix after it the lookup is null. */
  lemma LookupWithoutSuffix(s: string, prefix: string, suffix: string, p: int)
    requires FirstAt(s, prefix, 0, p)
    requires forall j :: p + |prefix| <= j ==> !OccursAt(s, suffix, j)
    ensures GetSubstringAsInt(s, prefix, suffix) == NotFound
  {
    FirstIsIndexOf(s, prefix, 0, p);
  }

  /** With the first prefix at `p` and the first suffix after it at `q`, the
      lookup is the int parse of exactly `s[p + |prefix|..q]`, null when that
      text is not an int; later markers play no part. */
  lemma LookupReadsFirstMarker(s: string, prefix: string, suffix: string, p: int, q: int)
    requires FirstAt(s, prefix, 0, p)
    requires FirstAt(s, suffix, p + |prefix|, q)
    ensures p + |prefix| <= q <= |s|
    ensures GetSubstringAsInt(s, prefix, suffix) == ParseSlice(s, p + |prefix|, q)
  {
    FirstIsIndexOf(s, prefix, 0, p);
    FirstIsIndexOf(s, suffix, p + |prefix|, q);
    LookupAtIndices(s, prefix, suffix, p, q);
  }

  lemma LookupAtIndices(s: string, prefix: string, suffix: string, p: nat, q: nat)
    requires p + |prefix| <= q <= |s|
    requires IndexOf(s, prefix, 0) == p && IndexOf(s, suffix, p + |prefix|) == q
    ensures GetSubstringAsInt(s, prefix, suffix) == ParseSlice(s, p + |prefix|, q)
  {
    assert GetSubstringAsInt(s, prefix, suffix) == LookupAfter(s, prefix, suffix, p);
  }

  /** The first occurrence is what `IndexOf` finds. */
  lemma FirstIsIndexOf(s: string, t: string, from: nat, i: int)
    requires from <= |s| && FirstAt(s, t, from, i)
    ensures IndexOf(s, t, from) == i
  {
  }

  /** The prefix occurs nowhere. */
  ghost predicate NoPrefix(s: string, prefix: string) {
    forall i :: !OccursAt(s, prefix, i)
  }

  /** The prefix occurs, but the suffix does not occur after its first
      occurrence. */
  ghost predicate NoSuffixAfter(s: string, prefix: string, suffix: string) {
    exists p :: FirstAt(s, prefix, 0, p) && forall j :: p + |prefix| <= j ==> !OccursAt(s, suffix, j)
  }

  /** Both markers occur, and the text between the first prefix and the
      first suffix after it is not an int. */
  ghost predicate NotIntBetween(s: string, prefix: string, suffix: string) {
    exists p :: FirstAt(s, prefix, 0, p) && NotIntBefore(s, suffix, p + |prefix|)
  }

  /** The suffix occurs at or after `from`, and the text from `from` to its
      first occurrence is not an int. */
  ghost predicate NotIntBefore(s: string, suffix: string, from: int) {
    exists q :: FirstAt(s, suffix, from, q) && 0 <= from && q + |suffix| <= |s| && TryParseInt32(s[from..q]).None?
  }

  /** The first occurrence is unique. */
  lemma FirstAtUnique(s: string, t: string, from: int, i: int, i': int)
    requires FirstAt(s, t, from, i) && FirstAt(s, t, from, i')
    ensures i == i'
  {
  }

  /** The lookup is null in exactly three cases: no prefix, no suffix after
      the first prefix, or text between them that is not an int (unless the
      string is too short for the suffix search, which throws instead). */
  lemma LookupNullIff(s: string, prefix: string, suffix: string)
    ensures GetSubstringAsInt(s, prefix, suffix).NotFound? <==>
      |prefix| <= |s| + 1
      && (NoPrefix(s, prefix) || NoSuffixAfter(s, prefix, suffix) || NotIntBetween(s, prefix, suffix))
  {
    var p := IndexOf(s, prefix, 0);
    if p == -1 {
      LookupWithoutPrefix(s, prefix, suffix);
      assert NoPrefix(s, prefix);
    } else {
      assert FirstAt(s, prefix, 0, p);
      assert OccursAt(s, prefix, p);
      var q := IndexOf(s, suffix, p + |prefix|);
      if q == -1 {
        NullWithoutSuffix(s, prefix, suffix, p);
      } else {
        NullBetween(s, prefix, suffix, p, q);
      }
    }
  }

  /** The second case: the prefix occurs first at `p`, and no suffix after. */
  lemma NullWithoutSuffix(s: string, prefix: string, suffix: string, p: int)
    requires FirstAt(s, prefix, 0, p)
    requires p + |prefix| <= |s| && IndexOf(s, suffix, p + |prefix|) == -1
    ensures GetSubstringAsInt(s, prefix, suffix).NotFound?
    ensures NoSuffixAfter(s, prefix, suffix)
  {
    LookupWithoutSuffix(s, prefix, suffix, p);
    assert FirstAt(s, prefix, 0, p) && forall j :: p + |prefix| <= j ==> !OccursAt(s, suffix, j);
  }

  /** The third case: with both markers found, the lookup is null exactly
      when the text between them is not an int, and the other two cases do
      not apply. */
  lemma NullBetween(s: string, prefix: string, suffix: string, p: int, q: int)
    requires FirstAt(s, prefix, 0, p)
    requires p + |prefix| <= |s| && q >= 0 && IndexOf(s, suffix, p + |prefix|) == q
    ensures !NoPrefix(s, prefix) && !NoSuffixAfter(s, prefix, suffix)
    ensures GetSubstringAsInt(s, prefix, suffix).NotFound? <==> NotIntBetween(s, prefix, suffix)
  {
    var from := p + |prefix|;
    assert OccursAt(s, prefix, p);
    assert FirstAt(s, suffix, from, q);
    LookupReadsFirstMarker(s, prefix, suffix, p, q);
    SuffixFound(s, prefix, suffix, p, q);
    NotIntBetweenIff(s, prefix, suffix, p, q);
  }

  /** A suffix after the first prefix rules out the second case. */
  lemma SuffixFound(s: string, prefix: string, suffix: string, p: int, q: int)
    requires FirstAt(s, prefix, 0, p) && FirstAt(s, suffix, p + |prefix|, q)
    ensures !NoSuffixAfter(s, prefix, suffix)
  {
    forall p' | FirstAt(s, prefix, 0, p') ensures exists j :: p' + |prefix| <= j && OccursAt(s, suffix, j) {
      FirstAtUnique(s, prefix, 0, p, p');
      assert OccursAt(s, suffix, q);
    }
  }

  /** With the first markers at `p` and `q`, the third case is about the
      text between them. */
  lemma NotIntBetweenIff(s: string, prefix: string, suffix: string, p: int, q: int)
    requires FirstAt(s, prefix, 0, p) && FirstAt(s, suffix, p + |prefix|, q)
    ensures 0 <= p + |prefix| <= q <= |s|
    ensures NotIntBetween(s, prefix, suffix) <==> TryParseInt32(s[p + |prefix|..q]).None?
  {
    if NotIntBetween(s, prefix, suffix) {
      var p' :| FirstAt(s, prefix, 0, p') && NotIntBefore(s, suffix, p' + |prefix|);
      NotIntAt(s, prefix, suffix, p, p', q);
    }
    if TryParseInt32(s[p + |prefix|..q]).None? {
      assert NotIntBefore(s, suffix, p + |prefix|);
    }
  }

  lemma NotIntAt(s: string, prefix: string, suffix: string, p: int, p': int, q: int)
    requires FirstAt(s, prefix, 0, p) && FirstAt(s, suffix, p + |prefix|, q)
    requires FirstAt(s, prefix, 0, p') && NotIntBefore(s, suffix, p' + |prefix|)
    ensures 0 <= p + |prefix| <= q <= |s| && TryParseInt32(s[p + |prefix|..q]).None?
  {
    FirstAtUnique(s, prefix, 0, p, p');
    NotIntBeforeAt(s, suffix, p + |prefix|, q);
  }

  lemma NotIntBeforeAt(s: string, suffix: string, from: int, q: int)
    requires FirstAt(s, suffix, from, q) && NotIntBefore(s, suffix, from)
    ensures 0 <= from <= q <= |s| && TryParseInt32(s[from..q]).None?
  {
    var q' :| FirstAt(s, suffix, from, q') && 0 <= from && q' + |suffix| <= |s| && TryParseInt32(s[from..q']).None?;
    FirstAtUnique(s, suffix, from, q, q');
  }

  const OffsetXMarker: string := ".OX"
  const OffsetYMarker: string := ".OY"
  const MarkerEnd: string := "."
  const RightClickMarker: string := "RightClick"

  /** The filename grammar the markers follow: a path
      `pre + ".OX" + n + "." + post` (or `.OY`), where `pre` holds no earlier
      marker and `n` is an int32 written in decimal, yields offset `n`
      whatever `post` holds, later markers included. */
  lemma {:induction false} MarkerReadsWrittenOffset(pre: string, marker: string, n: int, post: string)
    requires marker == OffsetXMarker || marker == OffsetYMarker
    requires forall j :: !OccursAt(pre, marker, j)
    requires InInt32(n)
    ensures GetSubstringAsInt(pre + marker + IntToString(n) + MarkerEnd + post, marker, MarkerEnd) == Found(n)
  {
    IntToStringHasNoDot(n);
    ParseOfIntToString(n);
    MarkerReadsDigits(pre, marker, IntToString(n), post, n);
  }

  /** The same, for any dot-free text `digits` that parses as `n`. */
  lemma MarkerReadsDigits(pre: string, marker: string, digits: string, post: string, n: int)
    requires marker == OffsetXMarker || marker == OffsetYMarker
    requires forall j :: !OccursAt(pre, marker, j)
    requires forall k :: 0 <= k < |digits| ==> digits[k] != '.'
    requires TryParseInt32(digits) == Some(n)
    ensures GetSubstringAsInt(pre + marker + digits + MarkerEnd + post, marker, MarkerEnd) == Found(n)
  {
    var s := pre + marker + digits + MarkerEnd + post;
    var p, q := |pre|, |pre| + |marker| + |digits|;
    WrittenOffsetLayout(pre, marker, digits, post);
    LookupFound(s, marker, MarkerEnd, p, q, digits, n);
  }

  /** When the text between the first markers parses, the lookup finds it. */
  lemma LookupFound(s: string, prefix: string, suffix: string, p: int, q: int, text: string, n: int)
    requires FirstAt(s, prefix, 0, p)
    requires FirstAt(s, suffix, p + |prefix|, q)
    requires p + |prefix| <= q <= |s| && s[p + |prefix|..q] == text
    requires TryParseInt32(text) == Some(n)
    ensures GetSubstringAsInt(s, prefix, suffix) == Found(n)
  {
    LookupReadsFirstMarker(s, prefix, suffix, p, q);
    SliceParses(s, p + |prefix|, q, text, n);
  }

  /** Where the markers and digits of a written offset sit in the path. */
  lemma WrittenOffsetLayout(pre: string, marker: string, digits: string, post: string)
    requires marker == OffsetXMarker || marker == OffsetYMarker
    requires forall j :: !OccursAt(pre, marker, j)
    requires forall k :: 0 <= k < |digits| ==> digits[k] != '.'
    ensures var s := pre + marker + digits + MarkerEnd + post;
      var q := |pre| + |marker| + |digits|;
      && FirstAt(s, marker, 0, |pre|)
      && FirstAt(s, MarkerEnd, |pre| + |marker|, q)
      && s[|pre| + |marker|..q] == digits
  {
    var tail := digits + MarkerEnd + post;
    var s := pre + marker + tail;
    assert pre + marker + digits + MarkerEnd + post == s;
    NoMarkerBefore(pre, marker, tail);
    DotAfterDigits(digits, post);
    FirstAtShift(pre + marker, tail, MarkerEnd, 0, |digits|);
    assert s == (pre + marker) + digits + (MarkerEnd + post);
    SliceOfMiddle(pre + marker, digits, MarkerEnd + post);
  }

  lemma SliceOfMiddle(head: string, mid: string, rest: string)
    ensures (head + mid + rest)[|head|..|head| + |mid|] == mid
  {
  }

  lemma SliceParses(s: string, from: nat, to: nat, text: string, n: int)
    requires from <= to <= |s| && s[from..to] == text && TryParseInt32(text) == Some(n)
    ensures ParseSlice(s, from, to) == Found(n)
  {
  }

  /** A marker cannot straddle the end of a marker-free `pre` and the marker
      written after it: the written marker's leading '.' would have to be
      one of its other characters. */
  lemma NoMarkerBefore(pre: string, marker: string, rest: string)
    requires marker == OffsetXMarker || marker == OffsetYMarker
    requires forall j :: !OccursAt(pre, marker, j)
    ensures FirstAt(pre + marker + rest, marker, 0, |pre|)
  {
    var s := pre + marker + rest;
    var p := |pre|;
    assert |marker| == 3 && marker[0] == '.' && marker[1] != '.' && marker[2] != '.';
    assert s[p] == '.';
    assert s[p..p + 3] == marker;
    forall j | 0 <= j < p
      ensures !OccursAt(s, marker, j)
    {
      if j + 3 <= p {
        assert s[j..j + 3] == pre[j..j + 3];
        assert !OccursAt(pre, marker, j);
      } else if j == p - 1 {
        assert s[j..j + 3][1] == s[p];
      } else {
        assert s[j..j + 3][2] == s[p];
      }
    }
  }

  /** After a run of characters without '.', the first '.' is the one that
      ends the run. */
  lemma DotAfterDigits(digits: string, post: string)
    requires forall k :: 0 <= k < |digits| ==> digits[k] != '.'
    ensures FirstAt(digits + MarkerEnd + post, MarkerEnd, 0, |digits|)
  {
    var s := digits + MarkerEnd + post;
    forall j | 0 <= j < |digits|
      ensures !OccursAt(s, MarkerEnd, j)
    {
      assert s[j..j + 1][0] == s[j] == digits[j];
    }
    assert s[|digits|..|digits| + 1] == MarkerEnd;
  }

  /** First occurrences keep their order behind a prefix. */
  lemma FirstAtShift(head: string, s: string, t: string, from: nat, i: int)
    requires FirstAt(s, t, from, i)
    ensures FirstAt(head + s, t, |head| + from, |head| + i)
  {
    var hs := head + s;
    assert hs[|head| + i..|head| + i + |t|] == s[i..i + |t|];
    forall j | |head| + from <= j < |head| + i
      ensures !OccursAt(hs, t, j)
    {
      if j + |t| <= |hs| {
        assert hs[j..j + |t|] == s[j - |head|..j - |head| + |t|];
        assert !OccursAt(s, t, j - |head|);
      }
    }
  }

  lemma IntToStringHasNoDot(n: int)
    ensures forall k :: 0 <= k < |IntToString(n)| ==> IntToString(n)[k] != '.'
  {
    var m := if n < 0 then -n else n;
    assert AllDigits(NatToString(m));
  }

  /** `imagePath.IndexOf("RightClick", StringComparison.OrdinalIgnoreCase) >= 0`. */
  predicate IsRightClick(path: string) {
    ContainsIgnoreCase(path, RightClickMarker)
  }

  /** The right button is chosen exactly when `RightClick` occurs somewhere in
      the path in any letter case. */
  lemma RightClickIff(path: string)
    ensures IsRightClick(path) <==> exists i :: OccursIgnoreCaseAt(path, RightClickMarker, i)
  {
    ContainsIgnoreCaseIff(path, RightClickMarker);
  }

  datatype Point = Point(x: int, y: int)

  /** A loaded template image; only its size matters here. */
  datatype Image = Image(width: nat, height: nat)

  /** A resolved click: where, and with which button. */
  datatype Click = Click(x: int, y: int, button: Button)

  /** `GetSubstringAsInt(path, marker, ".") ?? half`, where the throw stays
      a failure (`None`). */
  function Offset(path: string, marker: string, half: int): (r: Option<int>)
    ensures r.None? <==> GetSubstringAsInt(path, marker, MarkerEnd).OutOfRange?
    ensures GetSubstringAsInt(path, marker, MarkerEnd).NotFound? ==> r == Some(half)
    ensures GetSubstringAsInt(path, marker, MarkerEnd).Found? ==> r == Some(GetSubstringAsInt(path, marker, MarkerEnd).value)
  {
    match GetSubstringAsInt(path, marker, MarkerEnd)
    case Found(n) => Some(n)
    case NotFound => Some(half)
    case OutOfRange => None
  }

  /** One coordinate of the click: display origin plus match location plus
      offset (the marker's value, else `half`), in unchecked int32
      arithmetic. `None` when the marker lookup throws. */
  function Coordinate(origin: int, at: int, path: string, marker: string, half: int): (r: Option<int>)
    ensures r.Some? <==> Offset(path, marker, half).Some?
    ensures r.Some? ==> InInt32(r.value)
    ensures r.Some? ==> r.value == Wrap32(origin + at + Offset(path, marker, half).value)
  {
    match Offset(path, marker, half)
    case Some(d) => Some(Wrap32(origin + at + d))
    case None => None
  }

  /** The click-resolution step of `DetectAndClick`: the click lands at the
      display origin plus the match location plus the offset (the `.OX`/`.OY`
      value, else half the template's width/height); the button is right
      exactly when the path says `RightClick`. `None` is the exception the
      lookup throws for a path shorter than two characters. */
  function ResolveClick(path: string, template: Image, origin: Point, at: Point): (r: Option<Click>)
    ensures r.Some? <==> |path| >= 2
    ensures r.Some? ==> r.value.button == ButtonFor(IsRightClick(path))
    ensures r.Some? ==> Some(r.value.x) == Coordinate(origin.x, at.x, path, OffsetXMarker, template.width / 2)
    ensures r.Some? ==> Some(r.value.y) == Coordinate(origin.y, at.y, path, OffsetYMarker, template.height / 2)
  {
    var x := Coordinate(origin.x, at.x, path, OffsetXMarker, template.width / 2);
    var y := Coordinate(origin.y, at.y, path, OffsetYMarker, template.height / 2);
    if x.Some? && y.Some? then Some(Click(x.value, y.value, ButtonFor(IsRightClick(path)))) else None
  }

  /** When nothing overflows the click point is the plain sum of origin, match
      location and offset. */
  lemma ClickPointExact(path: string, template: Image, origin: Point, at: Point)
    requires |path| >= 2
    requires InInt32(origin.x + at.x + Offset(path, OffsetXMarker, template.width / 2).value)
    requires InInt32(origin.y + at.y + Offset(path, OffsetYMarker, template.height / 2).value)
    ensures ResolveClick(path, template, origin, at).value.x
            == origin.x + at.x + Offset(path, OffsetXMarker, template.width / 2).value
    ensures ResolveClick(path, template, origin, at).value.y
            == origin.y + at.y + Offset(path, OffsetYMarker, template.height / 2).value
  {
  }

  /** The example path: both offsets 5, and the `RightClick` marker. */
  const ExamplePath: string := "Close.RightClick.OX5.OY5..png"

  lemma FiveWritten()
    ensures IntToString(5) == "5"
  {
    assert DigitChar(5) == '5';
  }

  lemma ExampleOffsetX()
    ensures GetSubstringAsInt(ExamplePath, OffsetXMarker, MarkerEnd) == Found(5)
  {
    var pre := "Close.RightClick";
    FiveWritten();
    assert ExamplePath == pre + OffsetXMarker + IntToString(5) + MarkerEnd + "OY5..png";
    assert forall j :: 0 <= j < |pre| - 1 ==> pre[j] != '.' || pre[j + 1] != 'O';
    forall j ensures !OccursAt(pre, OffsetXMarker, j) {
      if 0 <= j && j + 3 <= |pre| {
        assert pre[j..j + 3][0] == pre[j] && pre[j..j + 3][1] == pre[j + 1];
      }
    }
    MarkerReadsWrittenOffset(pre, OffsetXMarker, 5, "OY5..png");
  }

  lemma ExampleOffsetY()
    ensures GetSubstringAsInt(ExamplePath, OffsetYMarker, MarkerEnd) == Found(5)
  {
    var pre := "Close.RightClick.OX5";
    FiveWritten();
    assert ExamplePath == pre + OffsetYMarker + IntToString(5) + MarkerEnd + ".png";
    assert forall j :: 0 <= j < |pre| - 2 ==> pre[j] != '.' || pre[j + 1] != 'O' || pre[j + 2] != 'Y';
    forall j ensures !OccursAt(pre, OffsetYMarker, j) {
      if 0 <= j && j + 3 <= |pre| {
        assert pre[j..j + 3][0] == pre[j] && pre[j..j + 3][1] == pre[j + 1] && pre[j..j + 3][2] == pre[j + 2];
      }
    }
    MarkerReadsWrittenOffset(pre, OffsetYMarker, 5, ".png");
  }

  lemma ExampleRightClick()
    ensures IsRightClick(ExamplePath)
  {
    assert OccursIgnoreCaseAt(ExamplePath, RightClickMarker, 6);
    RightClickIff(ExamplePath);
  }

  /** A worked case: `Close.RightClick.OX5.OY5..png` matched at (20, 20) on
      the display at the origin right-clicks at (25, 25), whatever the
      template's size. */
  lemma CloseRightClickExample(template: Image)
    ensures ResolveClick(ExamplePath, template, Point(0, 0), Point(20, 20)) == Some(Click(25, 25, Right))
  {
    ExampleOffsetX();
    ExampleOffsetY();
    ExampleRightClick();
  }
}
