/** The settings file `CSAutoClick.ini` as text: `key=value` lines read
    into a dictionary (`ParseIniFile`) and written back one entry per line
    (`UpdateConfig`). A file is the sequence of its lines; `None` is a file
    that does not exist. */
module Ini {
  import opened Common
  import opened Text
  import opened Dictionary

  /** The entry one line of the file contributes: none for a blank line, a
      line starting with ';', or a line without '='; otherwise the trimmed
      text before the first '=' and the trimmed text after it. */
  function LineEntry(line: string): (r: Option<(string, string)>)
    ensures r.Some? <==> !StartsWith(line, ";") && '=' in line
    ensures r.Some? ==> IsTrimmed(r.value.0, WhiteSpace) && IsTrimmed(r.value.1, WhiteSpace)
    ensures r.Some? ==> '=' !in r.value.0
  {
    if |Trim(line)| == 0 || StartsWith(line, ";") then
      NotBlank(line);
      None
    else match SplitFirst(line, '=')
      case Whole => None
      case Split(before, after) =>
        TrimByInfix(before, WhiteSpace);
        assert forall c :: c in Trim(before) ==> c in before;
        Some((Trim(before), Trim(after)))
  }

  /** A line holding '=' is not blank. */
  lemma NotBlank(line: string)
    ensures '=' in line ==> |Trim(line)| > 0
  {
    if '=' in line {
      var i :| 0 <= i < |line| && line[i] == '=';
      TrimByInfix(line, WhiteSpace);
      assert !Cut(WhiteSpace, line[i]);
    }
  }

  /** What each line contributes, in file order. */
  function Entries(lines: seq<string>): (es: seq<Option<(string, string)>>)
    ensures |es| == |lines|
  {
    seq(|lines|, i requires 0 <= i < |lines| => LineEntry(lines[i]))
  }

  /** Every parsed key and value is trimmed, and no key holds '='. */
  predicate ParsedShape(d: Dict) {
    forall i :: 0 <= i < |d| ==>
      IsTrimmed(d[i].0, WhiteSpace) && IsTrimmed(d[i].1, WhiteSpace) && '=' !in d[i].0
  }

  /** The `foreach (var line in lines)` loop of `ParseIniFile`: each line
      with an entry does `config[key] = value`. */
  function ParseLines(lines: seq<string>): (r: Dict)
    ensures DistinctKeys(r) && ParsedShape(r)
  {
    var es := Entries(lines);
    var r := PutAll(es);
    assert ParsedShape(r) by {
      forall i | 0 <= i < |r|
        ensures IsTrimmed(r[i].0, WhiteSpace) && IsTrimmed(r[i].1, WhiteSpace) && '=' !in r[i].0
      {
        var j :| 0 <= j < |es| && es[j] == Some(r[i]);
        assert LineEntry(lines[j]) == Some(r[i]);
      }
    }
    r
  }

  /** `ParseIniFile`: a missing file is an empty dictionary. */
  function ParseIniFile(file: Option<seq<string>>): (r: Dict)
    ensures DistinctKeys(r) && ParsedShape(r)
    ensures file.None? ==> r == []
  {
    match file
    case None => []
    case Some(lines) => ParseLines(lines)
  }

  /** The line contributes an entry for key `k`. */
  predicate EntryFor(line: string, k: string) {
    LineEntry(line).Some? && LineEntry(line).value.0 == k
  }

  /** The last line that gives key `k` decides its value. */
  lemma LastLineWins(lines: seq<string>, i: nat, k: string, v: string)
    requires i < |lines| && LineEntry(lines[i]) == Some((k, v))
    requires forall j :: i < j < |lines| ==> !EntryFor(lines[j], k)
    ensures Find(ParseLines(lines), k) == Some(v)
  {
    var es := Entries(lines);
    assert forall j :: i < j < |es| ==> !Stores(es[j], k) by {
      forall j | i < j < |es| ensures !Stores(es[j], k) {
        assert !EntryFor(lines[j], k);
      }
    }
    LastStoreWins(es, i, k, v);
  }

  /** A key no line gives is not in the dictionary. */
  lemma KeyWithoutLine(lines: seq<string>, k: string)
    requires forall j :: 0 <= j < |lines| ==> !EntryFor(lines[j], k)
    ensures Find(ParseLines(lines), k) == None
  {
    var es := Entries(lines);
    assert forall j :: 0 <= j < |es| ==> !Stores(es[j], k) by {
      forall j | 0 <= j < |es| ensures !Stores(es[j], k) {
        assert !EntryFor(lines[j], k);
      }
    }
    NeverStored(es, k);
  }

  /** The writer's side: `{entry.Key}={entry.Value}` for each entry, in
      dictionary order, one per line. */
  function Serialize(d: Dict): (r: seq<string>)
    ensures |r| == |d|
  {
    seq(|d|, i requires 0 <= i < |d| => d[i].0 + "=" + d[i].1)
  }

  /** A key that survives being written and read back: trimmed, without
      '=', and not looking like a comment. */
  predicate WritableKey(k: string) {
    IsTrimmed(k, WhiteSpace) && '=' !in k && !StartsWith(k, ";")
  }

  predicate Writable(d: Dict) {
    forall i :: 0 <= i < |d| ==> WritableKey(d[i].0) && IsTrimmed(d[i].1, WhiteSpace)
  }

  /** A line that does not start with ';' and splits at its first '=' into
      `before` and `after` gives their trimmed texts. */
  lemma LineEntryOf(line: string, before: string, after: string)
    requires line == before + "=" + after && '=' !in before && !StartsWith(line, ";")
    ensures LineEntry(line) == Some((Trim(before), Trim(after)))
  {
    assert SplitFirst(line, '=') == Split(before, after) by {
      assert line == before + ['='] + after;
      SplitFirstJoin(before, '=', after);
    }
    assert |Trim(line)| > 0 by {
      assert line[|before|] == '=';
      NotBlank(line);
    }
  }

  /** A written line reads back as the entry it was written from. */
  lemma WrittenLine(k: string, v: string)
    requires WritableKey(k) && IsTrimmed(v, WhiteSpace)
    ensures LineEntry(k + "=" + v) == Some((k, v))
  {
    var line := k + "=" + v;
    assert !StartsWith(line, ";") by {
      if |k| > 0 {
        assert line[0] == k[0];
      } else {
        assert line[0] == '=';
      }
    }
    LineEntryOf(line, k, v);
    TrimOfTrimmed(k, WhiteSpace);
    TrimOfTrimmed(v, WhiteSpace);
  }

  /** Writing a dictionary and parsing the file gives the dictionary back,
      entries and order, when its keys and values are writable. */
  lemma SerializeRoundTrip(d: Dict)
    requires DistinctKeys(d) && Writable(d)
    ensures ParseLines(Serialize(d)) == d
  {
    var lines := Serialize(d);
    assert Entries(lines) == seq(|d|, i requires 0 <= i < |d| => Some(d[i])) by {
      forall i | 0 <= i < |d| ensures LineEntry(lines[i]) == Some(d[i]) {
        WrittenLine(d[i].0, d[i].1);
      }
    }
    PutAllOfEntries(d);
  }

  /** `UpdateConfig(key, value)`: parse the file, set the key, write every
      entry back. The new file has one line per parsed entry, plus one for a
      new key; lines that gave no entry, or an entry a later line
      overwrote, are not written back. */
  function UpdateConfig(file: Option<seq<string>>, k: string, v: string): (r: seq<string>)
    ensures |r| == |ParseIniFile(file)| + (if HasKey(ParseIniFile(file), k) then 0 else 1)
  {
    Serialize(Put(ParseIniFile(file), k, v))
  }

  /** The keys of the file that do not read back once written: those that
      start with ';' (written from a line such as " ;k=v"). */
  predicate NoCommentKeys(d: Dict) {
    forall i :: 0 <= i < |d| ==> !StartsWith(d[i].0, ";")
  }

  /** Reading back what `UpdateConfig` wrote gives the old dictionary with
      the key set: the key has the new value, every other key keeps its
      value, and the order is kept. This needs a writable key, a trimmed
      value, and no key in the old file that starts with ';'. */
  lemma UpdateConfigRoundTrip(file: Option<seq<string>>, k: string, v: string)
    requires WritableKey(k) && IsTrimmed(v, WhiteSpace)
    requires NoCommentKeys(ParseIniFile(file))
    ensures ParseIniFile(Some(UpdateConfig(file, k, v))) == Put(ParseIniFile(file), k, v)
    ensures forall k' ::
      Find(ParseIniFile(Some(UpdateConfig(file, k, v))), k') == if k' == k then Some(v) else Find(ParseIniFile(file), k')
  {
    var d := ParseIniFile(file);
    var r := Put(d, k, v);
    assert Writable(r) by {
      forall i | 0 <= i < |r| ensures WritableKey(r[i].0) && IsTrimmed(r[i].1, WhiteSpace) {
        if i < |d| && d[i].0 != k {
          assert r[i] == d[i];
        } else {
          assert r[i] == (k, v);
        }
      }
    }
    SerializeRoundTrip(r);
    forall k' ensures Find(r, k') == if k' == k then Some(v) else Find(d, k') {
      PutFind(d, k, v, k');
    }
  }

  /** A written line reads back as its entry, unless the key starts with ';'
      and the line is skipped as a comment. */
  lemma WrittenLineOrComment(k: string, v: string)
    requires IsTrimmed(k, WhiteSpace) && '=' !in k && IsTrimmed(v, WhiteSpace)
    ensures LineEntry(k + "=" + v) == if StartsWith(k, ";") then None else Some((k, v))
  {
    if StartsWith(k, ";") {
      assert (k + "=" + v)[0] == k[0];
    } else {
      WrittenLine(k, v);
    }
  }

  /** Each written line reads back as its entry, or as nothing for a key
      that starts with ';'. */
  lemma SerializedEntries(d: Dict)
    requires ParsedShape(d)
    ensures forall j :: 0 <= j < |d| ==>
      Entries(Serialize(d))[j] == if StartsWith(d[j].0, ";") then None else Some(d[j])
  {
    var es := Entries(Serialize(d));
    forall j | 0 <= j < |d| ensures es[j] == if StartsWith(d[j].0, ";") then None else Some(d[j]) {
      WrittenLineOrComment(d[j].0, d[j].1);
    }
  }

  /** Writing a parsed dictionary and reading it back finds every key that
      does not start with ';' as before. */
  lemma SerializeFind(d: Dict, k: string)
    requires DistinctKeys(d) && ParsedShape(d) && !StartsWith(k, ";")
    ensures Find(ParseLines(Serialize(d)), k) == Find(d, k)
  {
    if HasKey(d, k) {
      var i :| 0 <= i < |d| && d[i].0 == k;
      SerializeFindAt(d, i);
      FindAt(d, i);
    } else {
      SerializeFindAbsent(d, k);
    }
  }

  lemma SerializeFindAt(d: Dict, i: nat)
    requires DistinctKeys(d) && ParsedShape(d) && i < |d| && !StartsWith(d[i].0, ";")
    ensures Find(ParseLines(Serialize(d)), d[i].0) == Some(d[i].1)
  {
    var es := Entries(Serialize(d));
    SerializedEntries(d);
    forall j | i < j < |es| ensures !Stores(es[j], d[i].0) {
      assert d[j].0 != d[i].0;
    }
    LastStoreWins(es, i, d[i].0, d[i].1);
  }

  lemma SerializeFindAbsent(d: Dict, k: string)
    requires ParsedShape(d) && !HasKey(d, k)
    ensures Find(ParseLines(Serialize(d)), k) == None
  {
    var es := Entries(Serialize(d));
    SerializedEntries(d);
    forall j | 0 <= j < |es| ensures !Stores(es[j], k) {
      assert d[j].0 != k;
    }
    NeverStored(es, k);
  }

  /** `d[k] = v` with a trimmed key free of '=' and a trimmed value keeps
      the shape of a parsed dictionary. */
  lemma PutShape(d: Dict, k: string, v: string)
    requires DistinctKeys(d) && ParsedShape(d)
    requires IsTrimmed(k, WhiteSpace) && '=' !in k && IsTrimmed(v, WhiteSpace)
    ensures ParsedShape(Put(d, k, v))
  {
    var r := Put(d, k, v);
    forall i | 0 <= i < |r|
      ensures IsTrimmed(r[i].0, WhiteSpace) && IsTrimmed(r[i].1, WhiteSpace) && '=' !in r[i].0
    {
      if i < |d| && d[i].0 != k {
        assert r[i] == d[i];
      } else {
        assert r[i] == (k, v);
      }
    }
  }

  /** For any file, reading back what `UpdateConfig` wrote finds the new
      value under the key and, under every other key that does not start
      with ';', what the old file held. Only ';'-keys can be lost. */
  lemma PlainKeyRoundTrip(file: Option<seq<string>>, k: string, v: string, k': string)
    requires WritableKey(k) && IsTrimmed(v, WhiteSpace) && !StartsWith(k', ";")
    ensures Find(ParseIniFile(Some(UpdateConfig(file, k, v))), k') == if k' == k then Some(v) else Find(ParseIniFile(file), k')
  {
    var d := ParseIniFile(file);
    PutShape(d, k, v);
    SerializeFind(Put(d, k, v), k');
    PutFind(d, k, v, k');
  }

  /** Writing the same key and value a second time leaves the file as the
      first write left it. */
  lemma UpdateConfigIdempotent(file: Option<seq<string>>, k: string, v: string)
    requires WritableKey(k) && IsTrimmed(v, WhiteSpace)
    requires NoCommentKeys(ParseIniFile(file))
    ensures UpdateConfig(Some(UpdateConfig(file, k, v)), k, v) == UpdateConfig(file, k, v)
  {
    var r := Put(ParseIniFile(file), k, v);
    UpdateConfigRoundTrip(file, k, v);
    PutFind(ParseIniFile(file), k, v, k);
    PutSame(r, k, v);
  }

  /** A key that starts with ';' does not survive being written: its line
      starts with ';' and is skipped as a comment when read back. */
  lemma {:induction false} WrittenCommentKeyVanishes(d: Dict, key: string)
    requires ParsedShape(d) && StartsWith(key, ";")
    ensures Find(ParseLines(Serialize(d)), key) == None
  {
    var lines := Serialize(d);
    forall j | 0 <= j < |lines| ensures !EntryFor(lines[j], key) {
      var (k, v) := d[j];
      assert lines[j] == k + "=" + v;
      if StartsWith(k, ";") {
        assert lines[j][0] == k[0];
      } else {
        if |k| > 0 {
          assert lines[j][0] == k[0];
        } else {
          assert lines[j][0] == '=';
        }
        LineEntryOf(lines[j], k, v);
        TrimOfTrimmed(k, WhiteSpace);
      }
    }
    KeyWithoutLine(lines, key);
  }

  /** The consequence for `UpdateConfig`: a line such as " ;k=v" gives the
      key ";k", and once any key is updated that key is gone. */
  lemma CommentKeyLost(pad: string, k: string, v: string, k2: string, v2: string)
    requires |pad| > 0 && forall i :: 0 <= i < |pad| ==> pad[i] == ' '
    requires WritableKey(k) && IsTrimmed(v, WhiteSpace)
    requires WritableKey(k2) && IsTrimmed(v2, WhiteSpace)
    ensures Find(ParseIniFile(Some([pad + ";" + k + "=" + v])), ";" + k) == Some(v)
    ensures Find(ParseIniFile(Some(UpdateConfig(Some([pad + ";" + k + "=" + v]), k2, v2))), ";" + k) == None
  {
    var line := pad + ";" + k + "=" + v;
    CommentLine(pad, k, v);
    LastLineWins([line], 0, ";" + k, v);
    var d := ParseIniFile(Some([line]));
    var r := Put(d, k2, v2);
    assert ParsedShape(r) by {
      forall i | 0 <= i < |r|
        ensures IsTrimmed(r[i].0, WhiteSpace) && IsTrimmed(r[i].1, WhiteSpace) && '=' !in r[i].0
      {
        if i < |d| && d[i].0 != k2 {
          assert r[i] == d[i];
        } else {
          assert r[i] == (k2, v2);
        }
      }
    }
    WrittenCommentKeyVanishes(r, ";" + k);
  }

  /** An indented comment-looking line gives an entry whose key starts
      with ';'. */
  lemma CommentLine(pad: string, k: string, v: string)
    requires |pad| > 0 && forall i :: 0 <= i < |pad| ==> pad[i] == ' '
    requires WritableKey(k) && IsTrimmed(v, WhiteSpace)
    ensures LineEntry(pad + ";" + k + "=" + v) == Some((";" + k, v))
  {
    var line := pad + ";" + k + "=" + v;
    CommentLineShape(pad, k, v);
    LineEntryOf(line, pad + (";" + k), v);
    TrimPadded(pad, k);
    TrimOfTrimmed(v, WhiteSpace);
  }

  lemma CommentLineShape(pad: string, k: string, v: string)
    requires |pad| > 0 && forall i :: 0 <= i < |pad| ==> pad[i] == ' '
    requires '=' !in k
    ensures var line := pad + ";" + k + "=" + v;
      line == pad + (";" + k) + "=" + v && '=' !in pad + (";" + k) && !StartsWith(line, ";")
  {
    var line := pad + ";" + k + "=" + v;
    assert line[0] == pad[0];
    assert '=' !in pad;
  }

  /** Leading spaces are trimmed away from text that has nothing else to
      trim and starts with a non-blank character. */
  lemma TrimPadded(pad: string, k: string)
    requires forall i :: 0 <= i < |pad| ==> pad[i] == ' '
    requires IsTrimmed(k, WhiteSpace)
    ensures Trim(pad + (";" + k)) == ";" + k
  {
    var t := ";" + k;
    assert t[|t| - 1] == if |k| > 0 then k[|k| - 1] else ';';
    var s := pad + t;
    TrimByInfix(s, WhiteSpace);
    var a := Leading(s, WhiteSpace);
    var r := Trim(s);
    assert s[|pad|] == ';' && !Cut(WhiteSpace, s[|pad|]);
    assert forall i :: 0 <= i < |pad| ==> Cut(WhiteSpace, s[i]);
    assert a == |pad|;
    assert a + |r| == |s| by {
      assert s[|s| - 1] == t[|t| - 1];
    }
    assert s[|pad|..] == t;
  }
}
