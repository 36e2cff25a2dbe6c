/** `ScanForImages`: the templates are the `.png`, `.jpg`, `.bmp` and `.gif`
    files of the working directory, minus the temporary `.tmp.` files, in
    ascending order. The directory listing is a parameter: for each search
    pattern it gives the paths found, or `None` when `Directory.GetFiles`
    throws. */
module Catalog {
  import opened Common
  import opened Text

  /** The search patterns, in the order the listings are appended. */
  const Patterns: seq<string> := ["*.png", "*.jpg", "*.bmp", "*.gif"]

  /** Paths containing this are editor or capture leftovers and are skipped. */
  const TempMarker: string := ".tmp."

  /** What the appends leave in the list: the listings in pattern order,
      stopping at the first listing that throws (`failed`). */
  datatype Gathered = Gathered(paths: seq<string>, failed: bool)

  function Collect(getFiles: string -> Option<seq<string>>, patterns: seq<string>): (r: Gathered)
    ensures r.failed <==> exists i :: 0 <= i < |patterns| && getFiles(patterns[i]).None?
    ensures !r.failed ==> forall p ::
      p in r.paths <==> exists i :: 0 <= i < |patterns| && p in getFiles(patterns[i]).value
    ensures forall p :: p in r.paths ==>
      exists i :: 0 <= i < |patterns| && getFiles(patterns[i]).Some? && p in getFiles(patterns[i]).value
  {
    if |patterns| == 0 then Gathered([], false)
    else match getFiles(patterns[0])
      case None => Gathered([], true)
      case Some(files) =>
        var rest := Collect(getFiles, patterns[1..]);
        assert forall i :: 1 <= i < |patterns| ==> patterns[i] == patterns[1..][i - 1];
        Gathered(files + rest.paths, rest.failed)
  }

  /** The list after the first `k` `AddRange` calls, each appending one
      listing at the end; every one of those listings must have succeeded. */
  function Appended(getFiles: string -> Option<seq<string>>, patterns: seq<string>, k: nat): seq<string>
    requires k <= |patterns| && forall i :: 0 <= i < k ==> getFiles(patterns[i]).Some?
  {
    if k == 0 then [] else Appended(getFiles, patterns, k - 1) + getFiles(patterns[k - 1]).value
  }

  /** Appending the listings one by one starts with the first listing. */
  lemma {:induction false} AppendedFront(getFiles: string -> Option<seq<string>>, patterns: seq<string>, k: nat)
    requires 0 < k <= |patterns| && forall i :: 0 <= i < k ==> getFiles(patterns[i]).Some?
    ensures forall i :: 0 <= i < k - 1 ==> getFiles(patterns[1..][i]).Some?
    ensures Appended(getFiles, patterns, k) == getFiles(patterns[0]).value + Appended(getFiles, patterns[1..], k - 1)
  {
    assert forall i :: 0 <= i < k - 1 ==> patterns[1..][i] == patterns[i + 1];
    if k > 1 {
      var head := getFiles(patterns[0]).value;
      var last := getFiles(patterns[k - 1]).value;
      AppendedFront(getFiles, patterns, k - 1);
      assert patterns[1..][k - 2] == patterns[k - 1];
      assert Appended(getFiles, patterns[1..], k - 1) == Appended(getFiles, patterns[1..], k - 2) + last;
      assert Appended(getFiles, patterns, k) == head + Appended(getFiles, patterns[1..], k - 2) + last;
    }
  }

  /** The gathered list is exactly the listings before the first one that
      throws, appended in pattern order, or all of them when none throws:
      every path as often, and in the place, its listing gives it. */
  lemma {:induction false} CollectIsAppends(getFiles: string -> Option<seq<string>>, patterns: seq<string>, k: nat)
    requires k <= |patterns| && forall i :: 0 <= i < k ==> getFiles(patterns[i]).Some?
    requires k < |patterns| ==> getFiles(patterns[k]).None?
    ensures Collect(getFiles, patterns) == Gathered(Appended(getFiles, patterns, k), k < |patterns|)
    decreases |patterns|
  {
    if k > 0 {
      var rest := patterns[1..];
      assert forall i :: 0 <= i < |rest| ==> rest[i] == patterns[i + 1];
      AppendedFront(getFiles, patterns, k);
      CollectIsAppends(getFiles, rest, k - 1);
    }
  }

  /** The list after all four appends holds each path as often as the four
      listings together do. */
  lemma AppendedCounts(getFiles: string -> Option<seq<string>>, p: string)
    requires forall i :: 0 <= i < |Patterns| ==> getFiles(Patterns[i]).Some?
    ensures multiset(Appended(getFiles, Patterns, 4))[p] ==
      multiset(getFiles(Patterns[0]).value)[p] + multiset(getFiles(Patterns[1]).value)[p]
      + multiset(getFiles(Patterns[2]).value)[p] + multiset(getFiles(Patterns[3]).value)[p]
  {
  }

  /** The paths of a listing that are kept: `!f.Contains(".tmp.")`. */
  predicate Kept(path: string) {
    !Contains(path, TempMarker)
  }

  /** `Where(f => !f.Contains(".tmp."))`: each kept path keeps its
      multiplicity and the others vanish; `FilterTempAppend` says the kept
      paths stay in input order. */
  function FilterTemp(paths: seq<string>): (r: seq<string>)
    ensures forall p :: multiset(r)[p] == if Kept(p) then multiset(paths)[p] else 0
    ensures |r| <= |paths|
  {
    if |paths| == 0 then []
    else
      var rest := FilterTemp(paths[1..]);
      assert paths == [paths[0]] + paths[1..];
      if Kept(paths[0]) then [paths[0]] + rest else rest
  }

  /** Filtering goes list by list: the kept paths of `a + b` are those of `a`
      followed by those of `b`, so a kept path keeps its place relative to
      the other kept paths. */
  lemma {:induction false} FilterTempAppend(a: seq<string>, b: seq<string>)
    ensures FilterTemp(a + b) == FilterTemp(a) + FilterTemp(b)
    decreases |a|
  {
    if |a| > 0 {
      var ab := a + b;
      assert ab[0] == a[0];
      assert ab[1..] == a[1..] + b;
      FilterTempAppend(a[1..], b);
      var head := if Kept(a[0]) then [a[0]] else [];
      assert FilterTemp(ab) == head + FilterTemp(a[1..] + b);
      assert FilterTemp(a) == head + FilterTemp(a[1..]);
    } else {
      assert a + b == b;
    }
  }

  /** A one-path listing is kept whole or dropped whole. */
  lemma FilterTempSingle(p: string)
    ensures FilterTemp([p]) == if Kept(p) then [p] else []
  {
    assert [p][1..] == [];
  }

  /** Ascending under ordinal comparison. */
  predicate Sorted(s: seq<string>) {
    forall i, j :: 0 <= i < j < |s| ==> Below(s[i], s[j])
  }

  /** A sorted list stays sorted with a first element below its head. */
  lemma SortedCons(x: string, s: seq<string>)
    requires Sorted(s) && (|s| > 0 ==> Below(x, s[0]))
    ensures Sorted([x] + s)
  {
    var r := [x] + s;
    forall j | 0 < j < |r| ensures Below(x, r[j]) {
      if j > 1 {
        BelowTransitive(x, s[0], s[j - 1]);
      }
    }
    assert forall i, j :: 0 < i < j < |r| ==> r[i] == s[i - 1] && r[j] == s[j - 1];
  }

  function Insert(x: string, s: seq<string>): (r: seq<string>)
    requires Sorted(s)
    ensures Sorted(r)
    ensures multiset(r) == multiset(s) + multiset{x}
  {
    if |s| == 0 then [x]
    else if Below(x, s[0]) then
      SortedCons(x, s);
      [x] + s
    else
      assert s == [s[0]] + s[1..];
      var rest := Insert(x, s[1..]);
      assert Below(s[0], rest[0]) by {
        BelowTotal(x, s[0]);
        assert rest[0] in multiset(rest);
        if rest[0] != x {
          assert rest[0] in s[1..];
        }
      }
      SortedCons(s[0], rest);
      [s[0]] + rest
  }

  /** `List<string>.Sort()` under ordinal comparison, as an insertion sort. */
  function Sort(s: seq<string>): (r: seq<string>)
    ensures Sorted(r)
    ensures multiset(r) == multiset(s)
  {
    if |s| == 0 then []
    else
      assert s == [s[0]] + s[1..];
      Insert(s[0], Sort(s[1..]))
  }

  /** `ScanForImages`: `Clear`, append the four listings, drop the
      temporary files, sort. A listing that throws leaves the list as the
      appends left it: the earlier listings, unfiltered and unsorted. */
  function ScanForImages(getFiles: string -> Option<seq<string>>): (r: seq<string>)
    ensures var g := Collect(getFiles, Patterns);
      g.failed ==> r == g.paths
    ensures var g := Collect(getFiles, Patterns);
      !g.failed ==> Sorted(r) && forall p :: multiset(r)[p] == if Kept(p) then multiset(g.paths)[p] else 0
  {
    var g := Collect(getFiles, Patterns);
    if g.failed then g.paths else Sort(FilterTemp(g.paths))
  }

  /** After a successful scan no template is a temporary file, and every
      listed path that is not one is a template. */
  lemma ScanKeepsExactlyNonTemp(getFiles: string -> Option<seq<string>>, p: string)
    requires forall i :: 0 <= i < |Patterns| ==> getFiles(Patterns[i]).Some?
    ensures p in ScanForImages(getFiles) <==>
      Kept(p) && exists i :: 0 <= i < |Patterns| && p in getFiles(Patterns[i]).value
  {
    var g := Collect(getFiles, Patterns);
    var r := ScanForImages(getFiles);
    assert !g.failed;
    assert multiset(r)[p] == if Kept(p) then multiset(g.paths)[p] else 0;
    assert p in r <==> multiset(r)[p] > 0;
    assert p in g.paths <==> multiset(g.paths)[p] > 0;
  }

  /** A successful scan holds each kept path exactly as often as the four
      listings together give it. */
  lemma ScanCountsListings(getFiles: string -> Option<seq<string>>, p: string)
    requires forall i :: 0 <= i < |Patterns| ==> getFiles(Patterns[i]).Some?
    ensures multiset(ScanForImages(getFiles))[p] == if Kept(p) then
      multiset(getFiles(Patterns[0]).value)[p] + multiset(getFiles(Patterns[1]).value)[p]
      + multiset(getFiles(Patterns[2]).value)[p] + multiset(getFiles(Patterns[3]).value)[p]
      else 0
  {
    CollectIsAppends(getFiles, Patterns, 4);
    AppendedCounts(getFiles, p);
  }

  /** A scan whose k-th listing throws leaves exactly the listings before
      it, appended in pattern order, unfiltered and unsorted. */
  lemma ScanAfterThrow(getFiles: string -> Option<seq<string>>, k: nat)
    requires k < |Patterns| && forall i :: 0 <= i < k ==> getFiles(Patterns[i]).Some?
    requires getFiles(Patterns[k]).None?
    ensures ScanForImages(getFiles) == Appended(getFiles, Patterns, k)
  {
    CollectIsAppends(getFiles, Patterns, k);
  }

  /** Two sorted arrangements of the same paths start alike. */
  lemma SortedHeads(a: seq<string>, b: seq<string>)
    requires Sorted(a) && Sorted(b) && multiset(a) == multiset(b) && |a| > 0
    ensures |b| > 0 && a[0] == b[0]
  {
    assert a[0] in multiset(b);
    assert b[0] in multiset(a);
    var i :| 0 <= i < |b| && b[i] == a[0];
    var j :| 0 <= j < |a| && a[j] == b[0];
    BelowReflexive(a[0]);
    BelowReflexive(b[0]);
    assert Below(b[0], b[i]);
    assert Below(a[0], a[j]);
    BelowAntisymmetric(a[0], b[0]);
  }

  /** The tail of a sorted list is sorted. */
  lemma SortedTail(a: seq<string>)
    requires Sorted(a) && |a| > 0
    ensures Sorted(a[1..])
  {
    assert forall i :: 0 <= i < |a| - 1 ==> a[1..][i] == a[i + 1];
  }

  /** Dropping a common head leaves the same paths. */
  lemma SameTails(a: seq<string>, b: seq<string>)
    requires multiset(a) == multiset(b) && |a| > 0 && |b| > 0 && a[0] == b[0]
    ensures multiset(a[1..]) == multiset(b[1..])
  {
    assert a == [a[0]] + a[1..] && b == [b[0]] + b[1..];
    assert multiset(a[1..]) == multiset(a) - multiset{a[0]};
    assert multiset(b[1..]) == multiset(b) - multiset{b[0]};
  }

  /** The sorted order is the only one: two sorted arrangements of the same
      paths are equal, so the result does not depend on how it is sorted. */
  lemma {:induction false} SortedUnique(a: seq<string>, b: seq<string>)
    requires Sorted(a) && Sorted(b) && multiset(a) == multiset(b)
    ensures a == b
    decreases |a|
  {
    if |a| > 0 {
      SortedHeads(a, b);
      SortedTail(a);
      SortedTail(b);
      SameTails(a, b);
      SortedUnique(a[1..], b[1..]);
      assert a == [a[0]] + a[1..] && b == [b[0]] + b[1..];
    } else {
      assert multiset(b) == multiset{};
    }
  }
}
