/** One pass of the `AutoClick` loop: for every template path, load the
    template, then for every display capture it, find the best match and,
    when the match is good enough, click. Capturing the screen and matching
    the template are not modelled; what they report is an input
    (`Observation`), and the pass is a pure function from those inputs to
    the clicks made and the mouse events sent. */
module Detection {
  import opened Common
  import opened Mouse
  import opened Metadata

  /** What one display yields for one template: the capture or the match
      throws (the exception is caught and the display is skipped), or the
      best normalised correlation score and where it was found. */
  datatype Observation = CaptureFailed | Matched(score: real, location: Point)

  /** `maxValue * 100 >= precisionPercent`. */
  predicate Fires(score: real, precision: int) {
    score * 100.0 >= precision as real
  }

  /** The body of the per-display `try` block: a click exactly when the
      capture and match succeed, the score reaches the precision and the
      offset lookups do not throw; the click is the one the path and the
      match location resolve to. */
  function Attempt(path: string, template: Image, origin: Point, seen: Observation, precision: int): (r: Option<Click>)
    ensures r.Some? <==> seen.Matched? && Fires(seen.score, precision) && |path| >= 2
    ensures r.Some? ==> r == ResolveClick(path, template, origin, seen.location)
  {
    match seen
    case CaptureFailed => None
    case Matched(score, at) =>
      if Fires(score, precision) then ResolveClick(path, template, origin, at) else None
  }

  /** The present values, in order. */
  function Somes<T(!new)>(os: seq<Option<T>>): (r: seq<T>)
    ensures |r| <= |os|
    ensures forall x :: x in r <==> Some(x) in os
  {
    if |os| == 0 then []
    else
      var init := os[..|os| - 1];
      assert os == init + [os[|os| - 1]];
      match os[|os| - 1]
      case None => Somes(init)
      case Some(x) => Somes(init) + [x]
  }

  /** The positions of the present values, ascending. */
  function Present<T>(os: seq<Option<T>>): (r: seq<nat>)
    ensures forall k :: 0 <= k < |r| ==> r[k] < |os| && os[r[k]].Some?
    ensures forall k, l :: 0 <= k < l < |r| ==> r[k] < r[l]
    ensures forall i :: 0 <= i < |os| && os[i].Some? ==> i in r
  {
    if |os| == 0 then []
    else
      var init := Present(os[..|os| - 1]);
      if os[|os| - 1].Some? then init + [|os| - 1] else init
  }

  /** The k-th present value is the value at the k-th present position. */
  lemma {:induction false} SomesInOrder<T(!new)>(os: seq<Option<T>>)
    ensures |Somes(os)| == |Present(os)|
    ensures forall k :: 0 <= k < |Somes(os)| ==> os[Present(os)[k]] == Some(Somes(os)[k])
    decreases |os|
  {
    if |os| > 0 {
      var n := |os| - 1;
      var init := os[..n];
      SomesInOrder(init);
      assert forall i :: 0 <= i < |init| ==> os[i] == init[i];
      var s0, p0 := Somes(init), Present(init);
      if os[n].Some? {
        assert Somes(os) == s0 + [os[n].value] && Present(os) == p0 + [n];
      } else {
        assert Somes(os) == s0 && Present(os) == p0;
      }
    }
  }

  /** A sequence with no element is empty. */
  lemma NoElementEmpty<T>(s: seq<T>)
    requires forall x :: x !in s
    ensures s == []
  {
    forall x ensures multiset(s)[x] == 0 {
      assert x !in s;
    }
    assert multiset(s) == multiset{};
  }

  /** The sequences one after the other. */
  function Concat<T(!new)>(ss: seq<seq<T>>): (r: seq<T>)
    ensures forall x :: x in r <==> exists i :: 0 <= i < |ss| && x in ss[i]
  {
    if |ss| == 0 then []
    else
      var init := ss[..|ss| - 1];
      assert forall i :: 0 <= i < |init| ==> ss[i] == init[i];
      Concat(init) + ss[|ss| - 1]
  }

  /** `a` holds a value only where `b` holds the same value. */
  predicate Refines<T(==)>(a: seq<Option<T>>, b: seq<Option<T>>) {
    |a| == |b| && forall k :: 0 <= k < |a| && a[k].Some? ==> b[k] == a[k]
  }

  /** `a` is `b` with some elements left out and the rest kept in order. */
  predicate IsSubsequence<T(==)>(a: seq<T>, b: seq<T>)
    decreases |b|
  {
    || |a| == 0
    || (&& |b| > 0
        && (|| (a[|a| - 1] == b[|b| - 1] && IsSubsequence(a[..|a| - 1], b[..|b| - 1]))
            || IsSubsequence(a, b[..|b| - 1])))
  }

  lemma {:induction false} SubsequenceShorter<T>(a: seq<T>, b: seq<T>)
    requires IsSubsequence(a, b)
    ensures |a| <= |b|
    decreases |b|
  {
    if |a| > 0 {
      if a[|a| - 1] == b[|b| - 1] && IsSubsequence(a[..|a| - 1], b[..|b| - 1]) {
        SubsequenceShorter(a[..|a| - 1], b[..|b| - 1]);
      } else {
        SubsequenceShorter(a, b[..|b| - 1]);
      }
    }
  }

  lemma RefinesAppend<T>(a1: seq<Option<T>>, b1: seq<Option<T>>, a2: seq<Option<T>>, b2: seq<Option<T>>)
    requires Refines(a1, b1) && Refines(a2, b2)
    ensures Refines(a1 + a2, b1 + b2)
  {
    forall k | 0 <= k < |a1 + a2| && (a1 + a2)[k].Some? ensures (b1 + b2)[k] == (a1 + a2)[k] {
      if k >= |a1| {
        assert (a1 + a2)[k] == a2[k - |a1|] && (b1 + b2)[k] == b2[k - |a1|];
      }
    }
  }

  /** Refinement goes row by row through a concatenation. */
  lemma {:induction false} RefinesConcat<T(!new)>(xs: seq<seq<Option<T>>>, ys: seq<seq<Option<T>>>)
    requires |xs| == |ys| && forall i :: 0 <= i < |xs| ==> Refines(xs[i], ys[i])
    ensures Refines(Concat(xs), Concat(ys))
    decreases |xs|
  {
    if |xs| > 0 {
      var n := |xs| - 1;
      RefinesConcat(xs[..n], ys[..n]);
      RefinesAppend(Concat(xs[..n]), Concat(ys[..n]), xs[n], ys[n]);
    }
  }

  /** The values of a refining sequence are a subsequence of the values of
      the sequence it refines. */
  lemma {:induction false} RefinedSomes<T(!new)>(a: seq<Option<T>>, b: seq<Option<T>>)
    requires Refines(a, b)
    ensures IsSubsequence(Somes(a), Somes(b))
    decreases |a|
  {
    if |a| > 0 {
      var n := |a| - 1;
      var a', b' := a[..n], b[..n];
      assert Refines(a', b') by {
        forall k | 0 <= k < n && a'[k].Some? ensures b'[k] == a'[k] {
          assert a'[k] == a[k] && b'[k] == b[k];
        }
      }
      RefinedSomes(a', b');
      var sa, sb := Somes(a'), Somes(b');
      if a[n].None? {
        assert Somes(a) == sa;
        if b[n].Some? {
          var y := b[n].value;
          assert Somes(b) == sb + [y];
          assert (sb + [y])[..|sb|] == sb;
        } else {
          assert Somes(b) == sb;
        }
      } else {
        var x := a[n].value;
        assert b[n] == Some(x);
        assert Somes(a) == sa + [x] && Somes(b) == sb + [x];
        assert (sa + [x])[..|sa|] == sa && (sb + [x])[..|sb|] == sb;
      }
    }
  }

  /** The total of a run of counts. */
  function Sum(ns: seq<nat>): nat {
    if |ns| == 0 then 0 else Sum(ns[..|ns| - 1]) + ns[|ns| - 1]
  }

  /** Sequences no longer than their counts concatenate to at most the total
      count, and to exactly it when each has its count. */
  lemma {:induction false} ConcatWithin<T(!new)>(ss: seq<seq<T>>, ns: seq<nat>)
    requires |ss| == |ns| && forall i :: 0 <= i < |ss| ==> |ss[i]| <= ns[i]
    ensures |Concat(ss)| <= Sum(ns)
    ensures (forall i :: 0 <= i < |ss| ==> |ss[i]| == ns[i]) ==> |Concat(ss)| == Sum(ns)
    decreases |ss|
  {
    if |ss| > 0 {
      var k := |ss| - 1;
      ConcatWithin(ss[..k], ns[..k]);
      assert |Concat(ss)| == |Concat(ss[..k])| + |ss[k]|;
    }
  }

  /** The concatenation of a prefix of the parts is a prefix of the whole. */
  lemma {:induction false} ConcatPrefix<T(!new)>(ss: seq<seq<T>>, k: nat)
    requires k <= |ss|
    ensures |Concat(ss[..k])| <= |Concat(ss)|
    ensures Concat(ss)[..|Concat(ss[..k])|] == Concat(ss[..k])
    decreases |ss| - k
  {
    if k < |ss| {
      ConcatPrefix(ss, k + 1);
      assert ss[..k + 1][..k] == ss[..k];
      assert Concat(ss[..k + 1]) == Concat(ss[..k]) + ss[k];
    } else {
      assert ss[..k] == ss;
    }
  }

  /** Element `j` of part `i` sits right after the parts before `i`. */
  lemma ConcatAt<T(!new)>(ss: seq<seq<T>>, i: nat, j: nat)
    requires i < |ss| && j < |ss[i]|
    ensures |Concat(ss[..i])| + j < |Concat(ss)|
    ensures Concat(ss)[|Concat(ss[..i])| + j] == ss[i][j]
  {
    ConcatPrefix(ss, i + 1);
    assert ss[..i + 1][..i] == ss[..i];
    assert Concat(ss[..i + 1]) == Concat(ss[..i]) + ss[i];
    assert Concat(ss)[|Concat(ss[..i])| + j] == Concat(ss[..i + 1])[|Concat(ss[..i])| + j];
  }

  /** What each display yields for one template, in display order. */
  function Attempts(path: string, template: Image, screens: seq<Point>, seen: nat -> Observation, precision: int): (r: seq<Option<Click>>)
    ensures |r| == |screens|
    ensures forall j :: 0 <= j < |r| ==> r[j] == Attempt(path, template, screens[j], seen(j), precision)
  {
    seq(|screens|, j requires 0 <= j < |screens| => Attempt(path, template, screens[j], seen(j), precision))
  }

  /** `DetectAndClick(template, imagePath)`: one display after the other,
      at most one click each. A click is made exactly for the displays
      whose attempt fires. */
  function DetectAndClick(path: string, template: Image, screens: seq<Point>, seen: nat -> Observation, precision: int): (r: seq<Click>)
    ensures |r| <= |screens|
    ensures forall c :: c in r <==>
      exists j :: 0 <= j < |screens| && Attempt(path, template, screens[j], seen(j), precision) == Some(c)
  {
    Somes(Attempts(path, template, screens, seen, precision))
  }

  /** The clicks come in display order: the k-th click is the one of the
      k-th display whose attempt fires. */
  lemma DetectAndClickInScreenOrder(path: string, template: Image, screens: seq<Point>, seen: nat -> Observation, precision: int)
    ensures var fired := Present(Attempts(path, template, screens, seen, precision));
      var r := DetectAndClick(path, template, screens, seen, precision);
      && |r| == |fired|
      && forall k :: 0 <= k < |r| ==> Attempt(path, template, screens[fired[k]], seen(fired[k]), precision) == Some(r[k])
  {
    SomesInOrder(Attempts(path, template, screens, seen, precision));
  }

  /** A path of fewer than two characters never clicks: the offset lookup
      throws on every display that fires. */
  lemma ShortPathNeverClicks(path: string, template: Image, screens: seq<Point>, seen: nat -> Observation, precision: int)
    requires |path| < 2
    ensures DetectAndClick(path, template, screens, seen, precision) == []
  {
    NoElementEmpty(DetectAndClick(path, template, screens, seen, precision));
  }

  /** What a pass sees: the template paths `ScanForImages` found, what
      loading the `i`-th one yields (`None` when the image constructor
      throws), the origins of the displays `Screen.AllScreens` lists while
      the `i`-th template is processed (it is read afresh for each
      template), and what display `j` yields for the `i`-th template. A
      path listed twice is loaded twice, so each load has its own
      outcome. */
  datatype World = World(
    paths: seq<string>,
    load: nat -> Option<Image>,
    screens: nat -> seq<Point>,
    seen: (nat, nat) -> Observation)

  /** How many displays each template is tried on. */
  function Displays(w: World): (r: seq<nat>)
    ensures |r| == |w.paths|
    ensures forall i :: 0 <= i < |w.paths| ==> r[i] == |w.screens(i)|
  {
    seq(|w.paths|, i requires 0 <= i < |w.paths| => |w.screens(i)|)
  }

  /** The `try` block around one template: a template that fails to load
      is skipped. */
  function TemplateClicks(w: World, i: nat, precision: int): (r: seq<Click>)
    requires i < |w.paths|
    ensures |r| <= |w.screens(i)|
    ensures w.load(i).None? ==> r == []
  {
    match w.load(i)
    case None => []
    case Some(template) => DetectAndClick(w.paths[i], template, w.screens(i), (j: nat) => w.seen(i, j), precision)
  }

  /** One iteration of the `AutoClick` loop: nothing when disabled,
      otherwise the templates in order, each over every display. */
  function Pass(enabled: bool, w: World, precision: int): (r: seq<Click>)
    ensures !enabled ==> r == []
    ensures |r| <= Sum(Displays(w))
  {
    if !enabled then []
    else
      var each := seq(|w.paths|, i requires 0 <= i < |w.paths| => TemplateClicks(w, i, precision));
      ConcatWithin(each, Displays(w));
      Concat(each)
  }

  /** The attempt of template `i` on display `j` fires with click `c`. */
  predicate FiresAt(w: World, i: nat, j: nat, precision: int, c: Click) {
    && i < |w.paths| && j < |w.screens(i)| && w.load(i).Some?
    && Attempt(w.paths[i], w.load(i).value, w.screens(i)[j], w.seen(i, j), precision) == Some(c)
  }

  /** The clicks of template `i`: those of the displays where its attempt
      fires. */
  lemma TemplateClicksIff(w: World, i: nat, precision: int, c: Click)
    requires i < |w.paths|
    ensures c in TemplateClicks(w, i, precision) <==> exists j: nat :: FiresAt(w, i, j, precision, c)
  {
    if w.load(i).Some? {
      var template := w.load(i).value;
      var seen := (j: nat) => w.seen(i, j);
      assert forall j: nat :: seen(j) == w.seen(i, j);
      if c in TemplateClicks(w, i, precision) {
        var j :| 0 <= j < |w.screens(i)| && Attempt(w.paths[i], template, w.screens(i)[j], seen(j), precision) == Some(c);
        assert FiresAt(w, i, j, precision, c);
      }
    }
  }

  /** An enabled pass makes exactly the clicks of the template and display
      pairs whose template loads and whose attempt fires. */
  lemma PassClicksIff(w: World, precision: int, c: Click)
    ensures c in Pass(true, w, precision) <==> exists i: nat, j: nat :: FiresAt(w, i, j, precision, c)
  {
    var each := seq(|w.paths|, i requires 0 <= i < |w.paths| => TemplateClicks(w, i, precision));
    assert Pass(true, w, precision) == Concat(each);
    if c in Concat(each) {
      var i :| 0 <= i < |each| && c in each[i];
      TemplateClicksIff(w, i, precision, c);
    }
    if exists i: nat, j: nat :: FiresAt(w, i, j, precision, c) {
      var i: nat, j: nat :| FiresAt(w, i, j, precision, c);
      TemplateClicksIff(w, i, precision, c);
      assert c in each[i];
    }
  }

  /** Raising the precision can only take clicks away. */
  lemma HigherPrecisionFewerClicks(w: World, low: int, high: int, c: Click)
    requires low <= high && c in Pass(true, w, high)
    ensures c in Pass(true, w, low)
  {
    PassClicksIff(w, high, c);
    var i: nat, j: nat :| FiresAt(w, i, j, high, c);
    assert FiresAt(w, i, j, low, c);
    PassClicksIff(w, low, c);
  }

  /** Raising the precision can only drop a pair's click, never change it. */
  lemma RowRefines(w: World, low: int, high: int, i: nat)
    requires low <= high && i < |w.paths|
    ensures Refines(Row(w, high, i), Row(w, low, i))
  {
  }

  /** Raising the precision takes clicks away and changes nothing else: the
      clicks made at the higher precision are those made at the lower one
      with some left out, in the same order, so there are no more of them. */
  lemma HigherPrecisionSubsequence(w: World, low: int, high: int)
    requires low <= high
    ensures IsSubsequence(Pass(true, w, high), Pass(true, w, low))
    ensures |Pass(true, w, high)| <= |Pass(true, w, low)|
  {
    var hi := seq(|w.paths|, i requires 0 <= i < |w.paths| => Row(w, high, i));
    var lo := seq(|w.paths|, i requires 0 <= i < |w.paths| => Row(w, low, i));
    forall i | 0 <= i < |w.paths| ensures Refines(hi[i], lo[i]) {
      RowRefines(w, low, high, i);
    }
    RefinesConcat(hi, lo);
    assert Grid(w, high) == Concat(hi) && Grid(w, low) == Concat(lo);
    RefinedSomes(Grid(w, high), Grid(w, low));
    PassIsGridClicks(w, high);
    PassIsGridClicks(w, low);
    SubsequenceShorter(Pass(true, w, high), Pass(true, w, low));
  }

  /** Normalised correlation scores are at most 1, so a precision above 100
      never clicks. */
  lemma PrecisionAboveHundredNeverClicks(enabled: bool, w: World, precision: int)
    requires precision > 100
    requires forall i: nat, j: nat :: w.seen(i, j).Matched? ==> w.seen(i, j).score <= 1.0
    ensures Pass(enabled, w, precision) == []
  {
    forall c ensures c !in Pass(enabled, w, precision) {
      if enabled {
        PassClicksIff(w, precision, c);
      }
    }
    NoElementEmpty(Pass(enabled, w, precision));
  }

  /** The mouse events of a run of clicks: `ClickAt` for each, in order. */
  function ClickEvents(cs: seq<Click>): (r: seq<MouseEvent>)
    ensures IsClickTrace(r) && |r| == 3 * |cs|
  {
    if |cs| == 0 then []
    else
      var head := ClickAt(cs[0].x, cs[0].y, cs[0].button == Right);
      var rest := ClickEvents(cs[1..]);
      ClickTraceConcat(head, rest);
      head + rest
  }

  /** The k-th click's three events: move to its point, press and release
      its button. */
  lemma {:induction false} ClickEventsAt(cs: seq<Click>, k: nat)
    requires k < |cs|
    ensures var r := ClickEvents(cs);
      r[3 * k] == MoveTo(cs[k].x, cs[k].y) && r[3 * k + 1] == Down(cs[k].button) && r[3 * k + 2] == Up(cs[k].button)
    decreases |cs|
  {
    var head := ClickAt(cs[0].x, cs[0].y, cs[0].button == Right);
    var rest := ClickEvents(cs[1..]);
    assert ClickEvents(cs) == head + rest;
    assert |head| == 3;
    if k == 0 {
      assert ButtonFor(cs[0].button == Right) == cs[0].button;
    } else {
      var n := 3 * (k - 1);
      assert 3 * k == n + 3;
      ClickEventsAt(cs[1..], k - 1);
      assert cs[1..][k - 1] == cs[k];
      assert (head + rest)[n + 3] == rest[n] && (head + rest)[n + 4] == rest[n + 1] && (head + rest)[n + 5] == rest[n + 2];
    }
  }

  /** The events one pass sends: whole clicks only, three events per click. */
  function PassEvents(enabled: bool, w: World, precision: int): (r: seq<MouseEvent>)
    ensures IsClickTrace(r)
    ensures |r| == 3 * |Pass(enabled, w, precision)|
    ensures !enabled ==> r == []
  {
    ClickEvents(Pass(enabled, w, precision))
  }

  /** Present values distribute over concatenation. */
  lemma {:induction false} SomesAppend<T(!new)>(a: seq<Option<T>>, b: seq<Option<T>>)
    ensures Somes(a + b) == Somes(a) + Somes(b)
    decreases |b|
  {
    if |b| == 0 {
      assert a + b == a;
    } else {
      var binit := b[..|b| - 1];
      assert (a + b)[..|a + b| - 1] == a + binit;
      assert (a + b)[|a + b| - 1] == b[|b| - 1];
      SomesAppend(a, binit);
    }
  }

  /** The present values of a concatenation are the concatenated present
      values of the parts. */
  lemma {:induction false} SomesOfConcat<T(!new)>(ss: seq<seq<Option<T>>>)
    ensures Somes(Concat(ss)) == Concat(seq(|ss|, i requires 0 <= i < |ss| => Somes(ss[i])))
    decreases |ss|
  {
    var each := seq(|ss|, i requires 0 <= i < |ss| => Somes(ss[i]));
    if |ss| > 0 {
      var init := ss[..|ss| - 1];
      SomesOfConcat(init);
      SomesAppend(Concat(init), ss[|ss| - 1]);
      assert each[..|ss| - 1] == seq(|init|, i requires 0 <= i < |init| => Somes(init[i]));
    }
  }

  /** What template `i` yields on display `j`: nothing when the template
      does not load, else its attempt there. */
  function Cell(w: World, precision: int, i: nat, j: nat): (r: Option<Click>)
    requires i < |w.paths| && j < |w.screens(i)|
    ensures r.Some? <==> exists c :: FiresAt(w, i, j, precision, c)
    ensures r.Some? ==> FiresAt(w, i, j, precision, r.value)
  {
    match w.load(i)
    case None => None
    case Some(template) =>
      var r := Attempt(w.paths[i], template, w.screens(i)[j], w.seen(i, j), precision);
      assert r.Some? ==> FiresAt(w, i, j, precision, r.value);
      r
  }

  /** One template's row: what it yields on each display. */
  function Row(w: World, precision: int, i: nat): (r: seq<Option<Click>>)
    requires i < |w.paths|
    ensures |r| == |w.screens(i)|
    ensures forall j :: 0 <= j < |w.screens(i)| ==> r[j] == Cell(w, precision, i, j)
  {
    seq(|w.screens(i)|, j requires 0 <= j < |w.screens(i)| => Cell(w, precision, i, j))
  }

  /** Every template and display pair as one sequence, template after
      template (`GridCell` says where each pair sits). */
  function Grid(w: World, precision: int): (g: seq<Option<Click>>)
    ensures |g| == Sum(Displays(w))
  {
    var rows := seq(|w.paths|, i requires 0 <= i < |w.paths| => Row(w, precision, i));
    ConcatWithin(rows, Displays(w));
    Concat(rows)
  }

  /** Where the pairs of template `i` start: after every display each
      earlier template was tried on. */
  function Before(w: World, i: nat): nat
    requires i <= |w.paths|
  {
    Sum(Displays(w)[..i])
  }

  /** What template `i` yields on display `j` sits at `Before(w, i) + j`. */
  lemma GridCell(w: World, precision: int, i: nat, j: nat)
    requires i < |w.paths| && j < |w.screens(i)|
    ensures Before(w, i) + j < |Grid(w, precision)|
    ensures Grid(w, precision)[Before(w, i) + j] == Cell(w, precision, i, j)
  {
    var rows := seq(|w.paths|, i requires 0 <= i < |w.paths| => Row(w, precision, i));
    assert Grid(w, precision) == Concat(rows);
    var pre := rows[..i];
    var ns := Displays(w)[..i];
    assert forall k :: 0 <= k < i ==> |pre[k]| == ns[k] by {
      forall k | 0 <= k < i ensures |pre[k]| == ns[k] {
        assert pre[k] == Row(w, precision, k);
      }
    }
    ConcatWithin(pre, ns);
    ConcatAt(rows, i, j);
    assert rows[i][j] == Row(w, precision, i)[j];
  }

  /** The starts grow by each template's display count. */
  lemma {:induction false} BeforeGrows(w: World, i: nat, i': nat)
    requires i < i' <= |w.paths|
    ensures Before(w, i) + |w.screens(i)| <= Before(w, i')
    decreases i' - i
  {
    var ns := Displays(w);
    assert ns[..i'][..i' - 1] == ns[..i' - 1];
    if i + 1 < i' {
      BeforeGrows(w, i, i' - 1);
    }
  }

  /** An earlier template, or the same template on an earlier display, sits
      earlier in the grid. */
  lemma PairOrder(w: World, i: nat, j: nat, i': nat, j': nat)
    requires i < |w.paths| && i' < |w.paths| && j < |w.screens(i)| && j' < |w.screens(i')|
    requires i < i' || (i == i' && j < j')
    ensures Before(w, i) + j < Before(w, i') + j'
  {
    if i < i' {
      BeforeGrows(w, i, i');
    }
  }

  /** The clicks of one template are the present values of its row. */
  lemma TemplateClicksRow(w: World, precision: int, i: nat)
    requires i < |w.paths|
    ensures TemplateClicks(w, i, precision) == Somes(Row(w, precision, i))
  {
    var row := Row(w, precision, i);
    match w.load(i)
    case None =>
      NoElementEmpty(Somes(row));
    case Some(template) =>
      var seen := (j: nat) => w.seen(i, j);
      assert Attempts(w.paths[i], template, w.screens(i), seen, precision) == row;
  }

  /** An enabled pass clicks the present cells of the grid, in grid order. */
  lemma PassIsGridClicks(w: World, precision: int)
    ensures Pass(true, w, precision) == Somes(Grid(w, precision))
  {
    var rows := seq(|w.paths|, i requires 0 <= i < |w.paths| => Row(w, precision, i));
    var each := seq(|w.paths|, i requires 0 <= i < |w.paths| => TemplateClicks(w, i, precision));
    assert Grid(w, precision) == Concat(rows);
    SomesOfConcat(rows);
    forall i | 0 <= i < |w.paths| ensures each[i] == Somes(rows[i]) {
      TemplateClicksRow(w, precision, i);
    }
    assert each == seq(|rows|, i requires 0 <= i < |rows| => Somes(rows[i]));
    assert Pass(true, w, precision) == Concat(each);
  }

  /** An enabled pass goes through the grid in order: its clicks are the
      present cells, template by template in list order and, within a
      template, display by display. The k-th click is the cell at the k-th
      firing position, and those positions ascend. */
  lemma PassInGridOrder(w: World, precision: int)
    ensures Pass(true, w, precision) == Somes(Grid(w, precision))
    ensures var fired := Present(Grid(w, precision));
      |Pass(true, w, precision)| == |fired|
      && forall k :: 0 <= k < |fired| ==> Grid(w, precision)[fired[k]] == Some(Pass(true, w, precision)[k])
  {
    PassIsGridClicks(w, precision);
    SomesInOrder(Grid(w, precision));
  }

  /** Of two present values, the one at the earlier position comes earlier
      among the present values. */
  lemma SomesOrder<T(!new)>(os: seq<Option<T>>, a: nat, b: nat, x: T, y: T)
    requires a < b < |os| && os[a] == Some(x) && os[b] == Some(y)
    ensures exists k, l :: 0 <= k < l < |Somes(os)| && Somes(os)[k] == x && Somes(os)[l] == y
  {
    var fired := Present(os);
    var r := Somes(os);
    SomesInOrder(os);
    assert a in fired && b in fired;
    var k :| 0 <= k < |fired| && fired[k] == a;
    var l :| 0 <= l < |fired| && fired[l] == b;
    assert os[fired[k]] == Some(r[k]) && os[fired[l]] == Some(r[l]);
    assert 0 <= k < l < |r| && r[k] == x && r[l] == y;
  }

  /** A firing pair's click sits at its grid position. */
  lemma FiringCell(w: World, precision: int, i: nat, j: nat, x: Click)
    requires i < |w.paths| && j < |w.screens(i)| && Cell(w, precision, i, j) == Some(x)
    ensures Before(w, i) + j < |Grid(w, precision)| && Grid(w, precision)[Before(w, i) + j] == Some(x)
  {
    GridCell(w, precision, i, j);
  }

  /** Two present cells at the positions of two pairs in pair order click
      in that order. */
  lemma CellsInPassOrder(w: World, precision: int, i: nat, j: nat, i': nat, j': nat, x: Click, y: Click)
    requires i < |w.paths| && i' < |w.paths| && j < |w.screens(i)| && j' < |w.screens(i')|
    requires i < i' || (i == i' && j < j')
    requires Before(w, i) + j < |Grid(w, precision)| && Before(w, i') + j' < |Grid(w, precision)|
    requires Grid(w, precision)[Before(w, i) + j] == Some(x) && Grid(w, precision)[Before(w, i') + j'] == Some(y)
    ensures exists k, l :: 0 <= k < l < |Pass(true, w, precision)| && Pass(true, w, precision)[k] == x && Pass(true, w, precision)[l] == y
  {
    PairOrder(w, i, j, i', j');
    SomesOrder(Grid(w, precision), Before(w, i) + j, Before(w, i') + j', x, y);
    PassIsGridClicks(w, precision);
  }

  /** Of two pairs that both fire, the one with the earlier template, or
      the same template and the earlier display, clicks first. */
  lemma PassClicksInPairOrder(w: World, precision: int, i: nat, j: nat, i': nat, j': nat, x: Click, y: Click)
    requires i < |w.paths| && i' < |w.paths| && j < |w.screens(i)| && j' < |w.screens(i')|
    requires i < i' || (i == i' && j < j')
    requires Cell(w, precision, i, j) == Some(x) && Cell(w, precision, i', j') == Some(y)
    ensures exists k, l :: 0 <= k < l < |Pass(true, w, precision)| && Pass(true, w, precision)[k] == x && Pass(true, w, precision)[l] == y
  {
    FiringCell(w, precision, i, j, x);
    FiringCell(w, precision, i', j', y);
    CellsInPassOrder(w, precision, i, j, i', j', x, y);
  }
}
