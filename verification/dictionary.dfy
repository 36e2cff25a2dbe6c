/** The `Dictionary<string, string>` the settings file is read into. Entries
    are only ever added or overwritten, never removed, so the dictionary
    enumerates them in insertion order; it is modelled as that sequence of
    entries. */
module Dictionary {
  import opened Common

  type Dict = seq<(string, string)>

  predicate HasKey(d: Dict, k: string) {
    exists i :: 0 <= i < |d| && d[i].0 == k
  }

  /** The dictionary invariant: no key twice. */
  predicate DistinctKeys(d: Dict) {
    forall i, j :: 0 <= i < j < |d| ==> d[i].0 != d[j].0
  }

  /** `d.ContainsKey(k) ? d[k] : …` */
  function Find(d: Dict, k: string): (r: Option<string>)
    ensures r.Some? <==> HasKey(d, k)
    ensures r.Some? ==> (k, r.value) in d
  {
    if |d| == 0 then None
    else if d[0].0 == k then Some(d[0].1)
    else
      var r := Find(d[1..], k);
      assert forall i :: 1 <= i < |d| ==> d[i] == d[1..][i - 1];
      r
  }

  /** With distinct keys, a key finds the value stored with it. */
  lemma FindAt(d: Dict, i: nat)
    requires DistinctKeys(d) && i < |d|
    ensures Find(d, d[i].0) == Some(d[i].1)
  {
    var r := Find(d, d[i].0);
    var j :| 0 <= j < |d| && d[j] == (d[i].0, r.value);
    assert i == j;
  }

  /** `d[k] = v`: an existing key keeps its place and takes the new value, a
      new key goes last; every other entry stays as it was. */
  function Put(d: Dict, k: string, v: string): (r: Dict)
    requires DistinctKeys(d)
    ensures DistinctKeys(r)
    ensures |r| == if HasKey(d, k) then |d| else |d| + 1
    ensures forall i :: 0 <= i < |r| ==> r[i] == if i < |d| && d[i].0 != k then d[i] else (k, v)
  {
    if HasKey(d, k) then
      seq(|d|, i requires 0 <= i < |d| => if d[i].0 == k then (k, v) else d[i])
    else
      d + [(k, v)]
  }

  /** After `d[k] = v` the key finds the new value and every other key
      finds what it found before. */
  lemma PutFind(d: Dict, k: string, v: string, k': string)
    requires DistinctKeys(d)
    ensures Find(Put(d, k, v), k') == if k' == k then Some(v) else Find(d, k')
  {
    var r := Put(d, k, v);
    if k' == k {
      var i :| 0 <= i < |r| && r[i].0 == k by {
        if HasKey(d, k) {
          var j :| 0 <= j < |d| && d[j].0 == k;
          assert r[j].0 == k;
        } else {
          assert r[|d|].0 == k;
        }
      }
      FindAt(r, i);
    } else if HasKey(d, k') {
      var i :| 0 <= i < |d| && d[i].0 == k';
      FindAt(d, i);
      FindAt(r, i);
    } else {
      assert !HasKey(r, k');
    }
  }

  /** Putting the value a key already has changes nothing. */
  lemma PutSame(d: Dict, k: string, v: string)
    requires DistinctKeys(d) && Find(d, k) == Some(v)
    ensures Put(d, k, v) == d
  {
    var r := Put(d, k, v);
    forall i | 0 <= i < |d| ensures r[i] == d[i] {
      FindAt(d, i);
    }
  }

  /** One store `d[k] = v` per present element, in order; absent elements
      store nothing. */
  function PutAll(es: seq<Option<(string, string)>>): (r: Dict)
    ensures DistinctKeys(r)
    ensures forall i :: 0 <= i < |r| ==> Some(r[i]) in es
    decreases |es|
  {
    if |es| == 0 then []
    else
      var init := es[..|es| - 1];
      var d := PutAll(init);
      assert forall i :: 0 <= i < |d| ==> Some(d[i]) in es by {
        forall i | 0 <= i < |d| ensures Some(d[i]) in es {
          var j :| 0 <= j < |init| && init[j] == Some(d[i]);
          assert es[j] == init[j];
        }
      }
      match es[|es| - 1]
      case None => d
      case Some(e) =>
        var r := Put(d, e.0, e.1);
        assert forall i :: 0 <= i < |r| ==> Some(r[i]) in es by {
          forall i | 0 <= i < |r| ensures Some(r[i]) in es {
            if i < |d| && d[i].0 != e.0 {
              assert r[i] == d[i];
            } else {
              assert r[i] == e;
            }
          }
        }
        r
  }

  /** The element stores key `k`. */
  predicate Stores(e: Option<(string, string)>, k: string) {
    e.Some? && e.value.0 == k
  }

  /** The last store of a key decides its value. */
  lemma {:induction false} LastStoreWins(es: seq<Option<(string, string)>>, i: nat, k: string, v: string)
    requires i < |es| && es[i] == Some((k, v))
    requires forall j :: i < j < |es| ==> !Stores(es[j], k)
    ensures Find(PutAll(es), k) == Some(v)
    decreases |es|
  {
    var init := es[..|es| - 1];
    var d := PutAll(init);
    if i < |es| - 1 {
      assert Find(d, k) == Some(v) by {
        assert forall j :: i < j < |init| ==> init[j] == es[j];
        LastStoreWins(init, i, k, v);
      }
    }
    if es[|es| - 1].Some? {
      var e := es[|es| - 1].value;
      PutFind(d, e.0, e.1, k);
    }
  }

  /** A key never stored is absent. */
  lemma {:induction false} NeverStored(es: seq<Option<(string, string)>>, k: string)
    requires forall j :: 0 <= j < |es| ==> !Stores(es[j], k)
    ensures Find(PutAll(es), k) == None
    decreases |es|
  {
    if |es| > 0 {
      var init := es[..|es| - 1];
      var d := PutAll(init);
      assert Find(d, k) == None by {
        assert forall j :: 0 <= j < |init| ==> init[j] == es[j];
        NeverStored(init, k);
      }
      if es[|es| - 1].Some? {
        var e := es[|es| - 1].value;
        PutFind(d, e.0, e.1, k);
      }
    }
  }

  /** Storing the entries of a dictionary one by one rebuilds it, entries
      and order. */
  lemma {:induction false} PutAllOfEntries(d: Dict)
    requires DistinctKeys(d)
    ensures PutAll(seq(|d|, i requires 0 <= i < |d| => Some(d[i]))) == d
    decreases |d|
  {
    var es := seq(|d|, i requires 0 <= i < |d| => Some(d[i]));
    if |d| > 0 {
      var init := d[..|d| - 1];
      assert PutAll(es[..|d| - 1]) == init by {
        assert es[..|d| - 1] == seq(|init|, i requires 0 <= i < |init| => Some(init[i]));
        PutAllOfEntries(init);
      }
      assert !HasKey(init, d[|d| - 1].0);
      assert d == init + [d[|d| - 1]];
    }
  }
}
