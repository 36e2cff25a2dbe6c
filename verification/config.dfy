/** The five settings the program keeps in static fields: how `LoadConfig`
    takes them from the settings file, the defaults `CreateConfigIfNotExists`
    writes, and the write `ToggleEnabled` makes. */
module Config {
  import opened Common
  import opened Text
  import opened Numbers
  import opened Dictionary
  import opened Ini

  /** The settings `LoadConfig` reads, in the order it reads them. */
  datatype Setting = Enabled | CheckEveryXSeconds | PrecisionPercent | ShowDebugMarkers | DebugLogsEnabled

  const LoadOrder: seq<Setting> :=
    [Enabled, CheckEveryXSeconds, PrecisionPercent, ShowDebugMarkers, DebugLogsEnabled]

  function Key(s: Setting): string {
    match s
    case Enabled => "Enabled"
    case CheckEveryXSeconds => "CheckEveryXSeconds"
    case PrecisionPercent => "PrecisionPercent"
    case ShowDebugMarkers => "ShowDebugMarkers"
    case DebugLogsEnabled => "DebugLogsEnabled"
  }

  /** The static fields the settings live in. */
  datatype Settings = Settings(
    enabled: bool,
    checkEveryXSeconds: int,
    precisionPercent: int,
    showDebugMarkers: bool,
    debugLogsEnabled: bool)

  /** The initialisers of the static fields. */
  const Initial: Settings := Settings(false, 5, 70, false, false)

  datatype Value = Flag(flag: bool) | Number(number: int)

  /** The settings read with `bool.Parse`; the others are read with
      `int.Parse`. */
  predicate IsFlag(s: Setting) {
    s == Enabled || s == ShowDebugMarkers || s == DebugLogsEnabled
  }

  predicate Fits(s: Setting, v: Value) {
    v.Flag? <==> IsFlag(s)
  }

  function Get(st: Settings, s: Setting): (v: Value)
    ensures Fits(s, v)
  {
    match s
    case Enabled => Flag(st.enabled)
    case CheckEveryXSeconds => Number(st.checkEveryXSeconds)
    case PrecisionPercent => Number(st.precisionPercent)
    case ShowDebugMarkers => Flag(st.showDebugMarkers)
    case DebugLogsEnabled => Flag(st.debugLogsEnabled)
  }

  /** Assigning one field leaves the others alone. */
  function Set(st: Settings, s: Setting, v: Value): (r: Settings)
    requires Fits(s, v)
    ensures Get(r, s) == v
    ensures forall s' :: s' != s ==> Get(r, s') == Get(st, s')
  {
    match s
    case Enabled => st.(enabled := v.flag)
    case CheckEveryXSeconds => st.(checkEveryXSeconds := v.number)
    case PrecisionPercent => st.(precisionPercent := v.number)
    case ShowDebugMarkers => st.(showDebugMarkers := v.flag)
    case DebugLogsEnabled => st.(debugLogsEnabled := v.flag)
  }

  /** What one `if (config.ContainsKey(key)) field = Parse(config[key])`
      statement meets: no key, a text the parse rejects (it throws), or a
      value. */
  datatype Outcome = Absent | Throws | Parsed(value: Value)

  /** The parse a setting's text goes through: `bool.Parse` for the flags,
      `int.Parse` for the numbers. `None` is the exception it throws. */
  function ParseAs(s: Setting, text: string): (r: Option<Value>)
    ensures r.Some? ==> Fits(s, r.value)
    ensures IsFlag(s) ==> (r.Some? <==> ParseBool(text).Some?)
    ensures !IsFlag(s) ==> (r.Some? <==> TryParseInt32(text).Some?)
    ensures r.Some? && IsFlag(s) ==> r.value == Flag(ParseBool(text).value)
    ensures r.Some? && !IsFlag(s) ==> r.value == Number(TryParseInt32(text).value)
  {
    if IsFlag(s) then
      match ParseBool(text)
      case Some(b) => Some(Flag(b))
      case None => None
    else
      match TryParseInt32(text)
      case Some(n) => Some(Number(n))
      case None => None
  }

  /** The statement for one setting against the parsed file. */
  function Read(d: Dict, s: Setting): (r: Outcome)
    ensures r.Absent? <==> !HasKey(d, Key(s))
    ensures r.Throws? <==> HasKey(d, Key(s)) && ParseAs(s, Find(d, Key(s)).value).None?
    ensures r.Parsed? ==> ParseAs(s, Find(d, Key(s)).value) == Some(r.value) && Fits(s, r.value)
  {
    match Find(d, Key(s))
    case None => Absent
    case Some(text) =>
      match ParseAs(s, text)
      case None => Throws
      case Some(v) => Parsed(v)
  }

  /** A statement of `LoadConfig`: the setting and what its key holds. */
  type Step = (Setting, Outcome)

  predicate WellTyped(steps: seq<Step>) {
    forall i :: 0 <= i < |steps| ==> steps[i].1.Parsed? ==> Fits(steps[i].0, steps[i].1.value)
  }

  predicate DistinctSettings(steps: seq<Step>) {
    forall i, j :: 0 <= i < j < |steps| ==> steps[i].0 != steps[j].0
  }

  /** What `LoadConfig` leaves: the settings, and whether it got through
      (`Configuration loaded successfully`) or a parse threw. */
  datatype Loaded = Loaded(settings: Settings, ok: bool)

  /** The statements in order; the first parse that throws abandons the
      rest, and the fields already assigned keep their new values. */
  function Apply(steps: seq<Step>, st: Settings): (r: Loaded)
    requires WellTyped(steps)
    ensures r.ok <==> forall i :: 0 <= i < |steps| ==> !steps[i].1.Throws?
    ensures forall s :: (forall i :: 0 <= i < |steps| ==> steps[i].0 != s) ==> Get(r.settings, s) == Get(st, s)
    decreases |steps|
  {
    if |steps| == 0 then Loaded(st, true)
    else
      var rest := steps[1..];
      assert forall i :: 1 <= i < |steps| ==> steps[i] == rest[i - 1];
      match steps[0].1
      case Absent => Apply(rest, st)
      case Throws => Loaded(st, false)
      case Parsed(v) => Apply(rest, Set(st, steps[0].0, v))
  }

  /** The statements up to and including `i` do not throw. */
  predicate ClearThrough(steps: seq<Step>, i: int) {
    forall j :: 0 <= j <= i && j < |steps| ==> !steps[j].1.Throws?
  }

  /** The settings after the first statement, when it does not throw. */
  function AfterFirst(steps: seq<Step>, st: Settings): Settings
    requires WellTyped(steps) && |steps| > 0
  {
    if steps[0].1.Parsed? then Set(st, steps[0].0, steps[0].1.value) else st
  }

  /** The first statement's setting ends up with what that statement
      parsed, or keeps its value. */
  lemma ApplyFirst(steps: seq<Step>, st: Settings)
    requires WellTyped(steps) && DistinctSettings(steps) && 0 < |steps|
    ensures Get(Apply(steps, st).settings, steps[0].0) ==
      if steps[0].1.Parsed? then steps[0].1.value else Get(st, steps[0].0)
  {
    var rest := steps[1..];
    assert forall j :: 0 <= j < |rest| ==> rest[j] == steps[j + 1];
    if !steps[0].1.Throws? {
      assert Apply(steps, st) == Apply(rest, AfterFirst(steps, st));
    }
  }

  /** Past a first statement that does not throw, the rest run from the
      settings it left, which do not touch any later statement's setting. */
  lemma ApplyRest(steps: seq<Step>, st: Settings, i: nat)
    requires WellTyped(steps) && DistinctSettings(steps) && 0 < i < |steps| && !steps[0].1.Throws?
    ensures WellTyped(steps[1..]) && DistinctSettings(steps[1..])
    ensures Apply(steps, st) == Apply(steps[1..], AfterFirst(steps, st))
    ensures Get(AfterFirst(steps, st), steps[i].0) == Get(st, steps[i].0)
  {
    assert forall j :: 0 <= j < |steps| - 1 ==> steps[1..][j] == steps[j + 1];
  }

  /** A setting takes the value its statement parsed exactly when no
      statement up to it threw; otherwise it keeps the value it had. */
  lemma {:induction false} ApplyValue(steps: seq<Step>, st: Settings, i: nat)
    requires WellTyped(steps) && DistinctSettings(steps) && i < |steps|
    ensures Get(Apply(steps, st).settings, steps[i].0) ==
      if steps[i].1.Parsed? && ClearThrough(steps, i) then steps[i].1.value else Get(st, steps[i].0)
    decreases |steps|
  {
    if i == 0 {
      ApplyFirst(steps, st);
    } else if !steps[0].1.Throws? {
      var rest := steps[1..];
      ApplyRest(steps, st, i);
      assert steps[i] == rest[i - 1];
      assert ClearThrough(steps, i) <==> ClearThrough(rest, i - 1);
      ApplyValue(rest, AfterFirst(steps, st), i - 1);
    }
  }

  /** The statements `LoadConfig` runs against the parsed file. */
  function Steps(d: Dict): (steps: seq<Step>)
    ensures |steps| == |LoadOrder| && WellTyped(steps) && DistinctSettings(steps)
    ensures forall i :: 0 <= i < |steps| ==> steps[i] == (LoadOrder[i], Read(d, LoadOrder[i]))
  {
    seq(|LoadOrder|, i requires 0 <= i < |LoadOrder| => (LoadOrder[i], Read(d, LoadOrder[i])))
  }

  /** `LoadConfig`: parse the file, then read the five settings in order.
      It gets through exactly when no present setting fails to parse. */
  function LoadConfig(file: Option<seq<string>>, st: Settings): (r: Loaded)
    ensures r.ok <==> forall i :: 0 <= i < |LoadOrder| ==> !Read(ParseIniFile(file), LoadOrder[i]).Throws?
  {
    Apply(Steps(ParseIniFile(file)), st)
  }

  /** Each setting: it is taken from the file exactly when its key is
      present, its text parses, and no setting read before it failed to
      parse; otherwise it keeps the value it had. */
  lemma LoadConfigValue(file: Option<seq<string>>, st: Settings, i: nat)
    requires i < |LoadOrder|
    ensures var d := ParseIniFile(file);
      Get(LoadConfig(file, st).settings, LoadOrder[i]) ==
        if Read(d, LoadOrder[i]).Parsed? && forall j :: 0 <= j <= i ==> !Read(d, LoadOrder[j]).Throws?
        then Read(d, LoadOrder[i]).value
        else Get(st, LoadOrder[i])
  {
    var steps := Steps(ParseIniFile(file));
    ApplyValue(steps, st, i);
  }

  /** The lines `CreateConfigIfNotExists` writes. */
  const DefaultEntries: Dict := [
    ("Enabled", "false"),
    ("CheckEveryXSeconds", "5"),
    ("PrecisionPercent", "70"),
    ("ShowDebugMarkers", "false"),
    ("DebugLogsEnabled", "false")]

  /** `CreateConfigIfNotExists`: an existing file is left alone; a missing
      one is written with the defaults. */
  function CreateConfigIfNotExists(file: Option<seq<string>>): (r: Option<seq<string>>)
    ensures r.Some?
    ensures file.Some? ==> r == file
    ensures file.None? ==> |r.value| == 5
  {
    if file.Some? then file else Some(Serialize(DefaultEntries))
  }

  /** `ToggleEnabled`'s write: flip the flag and store it under `Enabled`
      as `bool.ToString()` writes it. */
  function ToggleEnabled(st: Settings, file: Option<seq<string>>): (r: (Settings, seq<string>))
    ensures Get(r.0, Enabled) == Flag(!st.enabled)
    ensures forall s :: s != Enabled ==> Get(r.0, s) == Get(st, s)
    ensures r.1 == UpdateConfig(file, Key(Enabled), BoolToString(!st.enabled))
  {
    var enabled := !st.enabled;
    (st.(enabled := enabled), UpdateConfig(file, "Enabled", BoolToString(enabled)))
  }

  /** Two settings records that agree on every setting are the same. */
  lemma SettingsByValue(a: Settings, b: Settings)
    requires forall i :: 0 <= i < |LoadOrder| ==> Get(a, LoadOrder[i]) == Get(b, LoadOrder[i])
    ensures a == b
  {
    assert Get(a, LoadOrder[0]) == Get(b, LoadOrder[0]);
    assert Get(a, LoadOrder[1]) == Get(b, LoadOrder[1]);
    assert Get(a, LoadOrder[2]) == Get(b, LoadOrder[2]);
    assert Get(a, LoadOrder[3]) == Get(b, LoadOrder[3]);
    assert Get(a, LoadOrder[4]) == Get(b, LoadOrder[4]);
  }

  /** A file that holds a parsable value for every setting gets through and
      replaces all five, whatever they were before. */
  lemma LoadConfigComplete(file: Option<seq<string>>, st: Settings, target: Settings)
    requires forall i :: 0 <= i < |LoadOrder| ==> Read(ParseIniFile(file), LoadOrder[i]) == Parsed(Get(target, LoadOrder[i]))
    ensures LoadConfig(file, st) == Loaded(target, true)
  {
    forall i | 0 <= i < |LoadOrder|
      ensures Get(LoadConfig(file, st).settings, LoadOrder[i]) == Get(target, LoadOrder[i])
    {
      LoadConfigValue(file, st, i);
    }
    SettingsByValue(LoadConfig(file, st).settings, target);
  }

  /** No two settings share a key: the keys differ in length or in their
      first letter. */
  lemma KeysDiffer(a: Setting, b: Setting)
    requires a != b
    ensures Key(a) != Key(b)
  {
    if |Key(a)| == |Key(b)| {
      assert Key(a)[0] != Key(b)[0];
    }
  }

  /** The default file holds one line per setting, in `LoadOrder`. */
  lemma DefaultKeysInLoadOrder()
    ensures |DefaultEntries| == |LoadOrder|
    ensures forall i :: 0 <= i < |DefaultEntries| ==> DefaultEntries[i].0 == Key(LoadOrder[i])
  {
  }

  /** The default entries have distinct keys. */
  lemma DefaultKeysDistinct()
    ensures DistinctKeys(DefaultEntries)
  {
    DefaultKeysInLoadOrder();
    forall i, j | 0 <= i < j < |DefaultEntries| ensures DefaultEntries[i].0 != DefaultEntries[j].0 {
      KeysDiffer(LoadOrder[i], LoadOrder[j]);
    }
  }

  /** Every default key and value reads back once written. */
  lemma DefaultEntriesWritable()
    ensures Writable(DefaultEntries)
  {
    forall i | 0 <= i < |DefaultEntries|
      ensures WritableKey(DefaultEntries[i].0) && IsTrimmed(DefaultEntries[i].1, WhiteSpace)
    {
    }
  }

  /** The default file reads back as the entries written, in order. */
  lemma DefaultFileReadsBack()
    ensures ParseIniFile(CreateConfigIfNotExists(None)) == DefaultEntries
  {
    DefaultKeysDistinct();
    DefaultEntriesWritable();
    SerializeRoundTrip(DefaultEntries);
  }

  /** "false" parses as the flag `false`. */
  lemma ParsesFalse(s: Setting)
    requires IsFlag(s)
    ensures ParseAs(s, "false") == Some(Flag(false))
  {
    TrimOfTrimmed("false", WhiteSpaceOrNull);
    assert UpperAsciiString("false") == "FALSE";
    assert UpperAsciiString("True") == "TRUE";
    assert UpperAsciiString("False") == "FALSE";
  }

  /** `int.Parse("5")` is 5. */
  lemma ParsesFive()
    ensures ParseAs(CheckEveryXSeconds, "5") == Some(Number(5))
  {
    ParseOfIntToString(5);
    assert DigitChar(5) == '5';
    assert IntToString(5) == "5";
  }

  /** `int.Parse("70")` is 70. */
  lemma ParsesSeventy()
    ensures ParseAs(PrecisionPercent, "70") == Some(Number(70))
  {
    ParseOfIntToString(70);
    assert DigitChar(7) == '7' && DigitChar(0) == '0';
    assert NatToString(70) == NatToString(7) + [DigitChar(0)];
    assert NatToString(7) == [DigitChar(7)];
    assert IntToString(70) == "70";
  }

  /** A setting whose key is stored with a text its parse accepts is read
      as the value parsed. */
  lemma ReadStored(d: Dict, i: nat, s: Setting, v: Value)
    requires DistinctKeys(d) && i < |d| && d[i].0 == Key(s) && ParseAs(s, d[i].1) == Some(v)
    ensures Read(d, s) == Parsed(v)
  {
    FindAt(d, i);
  }

  /** The defaults written are the initial values of the fields. */
  lemma DefaultIsInitial(s: Setting)
    ensures Read(DefaultEntries, s) == Parsed(Get(Initial, s))
  {
    DefaultKeysDistinct();
    match s
    case Enabled =>
      ParsesFalse(s);
      ReadStored(DefaultEntries, 0, s, Flag(false));
    case CheckEveryXSeconds =>
      ParsesFive();
      ReadStored(DefaultEntries, 1, s, Number(5));
    case PrecisionPercent =>
      ParsesSeventy();
      ReadStored(DefaultEntries, 2, s, Number(70));
    case ShowDebugMarkers =>
      ParsesFalse(s);
      ReadStored(DefaultEntries, 3, s, Flag(false));
    case DebugLogsEnabled =>
      ParsesFalse(s);
      ReadStored(DefaultEntries, 4, s, Flag(false));
  }

  /** A fresh install starts with the values the fields are initialised
      with: the file `CreateConfigIfNotExists` writes loads cleanly and
      yields exactly `Initial`. */
  lemma DefaultFileLoadsInitial(st: Settings)
    ensures LoadConfig(CreateConfigIfNotExists(None), st) == Loaded(Initial, true)
  {
    DefaultFileReadsBack();
    forall i | 0 <= i < |LoadOrder|
      ensures Read(ParseIniFile(CreateConfigIfNotExists(None)), LoadOrder[i]) == Parsed(Get(Initial, LoadOrder[i]))
    {
      DefaultIsInitial(LoadOrder[i]);
    }
    LoadConfigComplete(CreateConfigIfNotExists(None), st, Initial);
  }

  /** The flag's text is a writable value under a writable key. */
  lemma EnabledWritable(b: bool)
    ensures WritableKey(Key(Enabled)) && IsTrimmed(BoolToString(b), WhiteSpace)
  {
  }

  /** No setting's key looks like a comment. */
  lemma KeyWritable(s: Setting)
    ensures !StartsWith(Key(s), ";")
  {
    assert Key(s)[0] != ';';
  }

  /** What the file `ToggleEnabled` wrote reads back as: `Enabled` holds the
      new flag's text and every other key what it held before. */
  lemma ToggleWrites(st: Settings, file: Option<seq<string>>)
    ensures forall s ::
      Find(ParseIniFile(Some(ToggleEnabled(st, file).1)), Key(s)) == if s == Enabled then Some(BoolToString(!st.enabled)) else Find(ParseIniFile(file), Key(s))
  {
    EnabledWritable(!st.enabled);
    forall s ensures Find(ParseIniFile(Some(ToggleEnabled(st, file).1)), Key(s)) == if s == Enabled then Some(BoolToString(!st.enabled)) else Find(ParseIniFile(file), Key(s)) {
      KeyWritable(s);
      if s != Enabled {
        KeysDiffer(s, Enabled);
      }
      PlainKeyRoundTrip(file, Key(Enabled), BoolToString(!st.enabled), Key(s));
    }
  }

  /** A setting reads the same from two files whose key holds the same. */
  lemma ReadByFind(d1: Dict, d2: Dict, s: Setting)
    requires Find(d1, Key(s)) == Find(d2, Key(s))
    ensures Read(d1, s) == Read(d2, s)
  {
  }

  /** A setting whose key holds a text its parse accepts is read as the
      value parsed. */
  lemma ReadFound(d: Dict, s: Setting, text: string, v: Value)
    requires Find(d, Key(s)) == Some(text) && ParseAs(s, text) == Some(v)
    ensures Read(d, s) == Parsed(v)
  {
  }

  /** The written file reads the new flag. */
  lemma ToggledFlagReads(st: Settings, file: Option<seq<string>>)
    ensures Read(ParseIniFile(Some(ToggleEnabled(st, file).1)), Enabled) == Parsed(Flag(!st.enabled))
  {
    ToggleWrites(st, file);
    ParseOfBoolToString(!st.enabled);
    ReadFound(ParseIniFile(Some(ToggleEnabled(st, file).1)), Enabled, BoolToString(!st.enabled), Flag(!st.enabled));
  }

  /** `Enabled` is read first, so a file whose flag parses sets it. */
  lemma LoadConfigEnabled(file: Option<seq<string>>, st: Settings, b: bool)
    requires Read(ParseIniFile(file), Enabled) == Parsed(Flag(b))
    ensures LoadConfig(file, st).settings.enabled == b
  {
    var steps := Steps(ParseIniFile(file));
    ApplyValue(steps, st, 0);
  }

  /** The toggle survives a restart: loading the file `ToggleEnabled` wrote
      sets the flag to its new value, whatever the fields held. */
  lemma ToggleEnabledPersists(st: Settings, file: Option<seq<string>>, st': Settings)
    ensures LoadConfig(Some(ToggleEnabled(st, file).1), st').settings.enabled == !st.enabled
  {
    ToggledFlagReads(st, file);
    LoadConfigEnabled(Some(ToggleEnabled(st, file).1), st', !st.enabled);
  }

  /** The toggle touches nothing else: every other setting reads from the
      written file as it did before. */
  lemma ToggleKeepsOthers(st: Settings, file: Option<seq<string>>, s: Setting)
    requires s != Enabled
    ensures Read(ParseIniFile(Some(ToggleEnabled(st, file).1)), s) == Read(ParseIniFile(file), s)
  {
    ToggleWrites(st, file);
    KeysDiffer(s, Enabled);
    ReadByFind(ParseIniFile(Some(ToggleEnabled(st, file).1)), ParseIniFile(file), s);
  }
}
