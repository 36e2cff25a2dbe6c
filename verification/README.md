# CSAutoClick in Dafny

CSAutoClick is a Windows tray program. It looks for template images on
every display and clicks where a template matches. This project models the
logic in `CSAutoClick/Program.cs` that decides what gets clicked and how the
settings file behaves. Each part is a pure function, and the proofs state
what that function promises.

- **Markers** (`markers.dfy`, `metadata.dfy`): `GetSubstringAsInt` reads
  the integer between a marker and the next `.` in a template path. From the
  path, the match location and the display origin, the click point is
  resolved:
  - the `.OX<n>.` and `.OY<n>.` offsets, defaulting to half the template's
    size;
  - the `RightClick` marker, matched in any letter case;
  - the sum in unchecked int32 arithmetic.
- **Mouse** (`mouse.dfy`): `ClickAt` as a trace of events. The cursor moves,
  then one button is pressed and released.
- **Catalog** (`catalog.dfy`): `ScanForImages` appends the four directory
  listings, drops the `.tmp.` files and sorts the rest. A listing that
  throws leaves the list as the earlier appends left it.
- **Settings file** (`dictionary.dfy`, `ini.dfy`):
  - `ParseIniFile` reads `key=value` lines into an insertion-ordered
    dictionary.
  - `UpdateConfig` sets one key and writes every entry back.
- **Settings** (`config.dfy`):
  - `LoadConfig` reads five settings in order. A parse that throws abandons
    the rest, and the fields already assigned keep their new values.
  - `CreateConfigIfNotExists` writes the default file.
  - `ToggleEnabled` flips the flag and persists it.
- **Detection** (`detection.dfy`): one iteration of the `AutoClick` loop
  and `DetectAndClick`. The pass is a function from what the screen
  capture and the template match report to the clicks made and the mouse
  events sent.
- **Shared pieces** (`text.dfy`, `numbers.dfy`): .NET string operations
  (`Trim`, `IndexOf`, `Split`, ordinal order), `int.TryParse`, `bool.Parse`,
  `ToString`, and int32 wrap-around.

The model follows these behaviours of the code, which are easy to miss:

- The offset markers are looked up again in the full path each time a match
  is acted on. They are not parsed once when the catalog is loaded.
- `.OX` and `.OY` are found case-sensitively. Only `RightClick` is
  matched in any letter case.
- Offsets may be negative, because `int.TryParse` accepts a sign.
- `int.TryParse` and `int.Parse` also accept U+0000 characters at the very end, after any trailing white space. `Trim()` keeps them, so a settings line `PrecisionPercent=70\0` loads 70.
- The marker lookup is not total. `IndexOf` throws when the search start
  lies past the end of the string. That happens exactly when the path has
  fewer than two characters. The exception is caught per display, so such a
  template never clicks.
- The scan keeps a path as many times as the listings return it.
- `Screen.AllScreens` is read afresh for every template, so one pass may
  try different templates on different display lists. A path listed twice
  is loaded twice, and each load may succeed or throw on its own.

## Model

| member | source | states |
|---|---|---|
| Markers.GetSubstringAsInt | CSAutoClick/Program.cs:386-402 | the lookup throws exactly when the prefix is more than one character longer than the string; any value found is an int32 |
| Metadata.LookupWithoutPrefix | CSAutoClick/Program.cs:386-402 | without the prefix the result is null, or a throw when the string is too short to start the suffix search |
| Metadata.LookupWithoutSuffix | CSAutoClick/Program.cs:386-402 | with a prefix but no suffix after it the result is null |
| Metadata.LookupReadsFirstMarker | CSAutoClick/Program.cs:386-402 | with the first prefix at p and the first suffix after it at q, the result is the int parse of exactly the text between them; later markers play no part |
| Metadata.LookupNullIff | CSAutoClick/Program.cs:386-402 | when it does not throw, the lookup is null exactly when the prefix is absent, or no suffix follows the first prefix, or the text between the first prefix and the first suffix after it is not an int; it throws only when the prefix is longer than the string plus one |
| Metadata.MarkerReadsWrittenOffset | CSAutoClick/Program.cs:386-402 | a path `pre + ".OX" + n.ToString() + "." + post`, with no marker in `pre`, yields n for every int32 n, whatever `post` holds |
| Metadata.MarkerReadsDigits | CSAutoClick/Program.cs:386-402 | the same for any dot-free text that `int.TryParse` accepts |
| Numbers.ParseOfIntToString | CSAutoClick/Program.cs:395 | `int.TryParse` reads back what `int.ToString` writes, for every int32 |
| Numbers.TryParseInt32 | CSAutoClick/Program.cs:395 | any value `int.TryParse` accepts is an int32 |
| Numbers.ParsedDigits | CSAutoClick/Program.cs:395 | an accepted text is integer-shaped (number white space, an optional sign, a non-empty run of digits, number white space, then U+0000 characters to the end) and the result is the run's decimal value, negated exactly for a minus sign |
| Numbers.ShapeParses | CSAutoClick/Program.cs:395 | conversely, every integer-shaped text parses: to the value it denotes when that is an int32, and to the `false` return otherwise |
| Numbers.ParseBool | CSAutoClick/Program.cs:139 | `bool.Parse` returns true exactly when the text, trimmed of white space and U+0000, is "True" in some letter case, false exactly when it is "False" so, and throws otherwise |
| Numbers.TrailingNullParses | CSAutoClick/Program.cs:141-143 | the value text "70" followed by U+0000 parses as 70 |
| Numbers.NullBeforeSpaceFails | CSAutoClick/Program.cs:141-143 | U+0000 is accepted only at the very end: "70", U+0000, space does not parse |
| Numbers.NoDigitNoNumber | CSAutoClick/Program.cs:395 | text without a digit never parses as an int |
| Numbers.ParseOfBoolToString | CSAutoClick/Program.cs:204 | `bool.Parse` reads back what `bool.ToString` writes |
| Numbers.Wrap32 | CSAutoClick/Program.cs:288-289 | the result is the int32 congruent to the sum modulo 2^32, and equals the sum when that is in range |
| Metadata.RightClickIff | CSAutoClick/Program.cs:291 | the right button is chosen exactly when `RightClick` occurs somewhere in the path in any letter case |
| Metadata.ResolveClick | CSAutoClick/Program.cs:283-293 | a click is resolved exactly when the path has at least two characters; its button follows the `RightClick` marker; each coordinate is origin + match location + offset, wrapped to int32 |
| Metadata.ClickPointExact | CSAutoClick/Program.cs:286-289 | without overflow the click point is the plain sum of origin, match location and offset |
| Metadata.CloseRightClickExample | CSAutoClick/Program.cs:283-293 | `Close.RightClick.OX5.OY5..png` matched at (20, 20) on a display at (0, 0) right-clicks at (25, 25) |
| Mouse.ClickAt | CSAutoClick/Program.cs:320-338 | one whole click: a cursor move to (x, y), then a press and a release of the chosen button, with the matching `mouse_event` flags, and nothing of the other button |
| Mouse.PressIsReleased | CSAutoClick/Program.cs:320-333 | in a trace of whole clicks every press is followed at once by the release of the same button |
| Mouse.ClickTraceConcat | CSAutoClick/Program.cs:320-333 | traces of whole clicks stay whole when one follows another |
| Catalog.Collect | CSAutoClick/Program.cs:185-189 | the appends fail exactly when some listing throws; without a throw the list holds exactly the paths of the four listings |
| Catalog.FilterTemp | CSAutoClick/Program.cs:190 | every path without `.tmp.` keeps its multiplicity and every other path vanishes |
| Catalog.FilterTempAppend | CSAutoClick/Program.cs:190 | filtering a concatenation filters each part and keeps their order, so kept paths stay in input order |
| Catalog.FilterTempSingle | CSAutoClick/Program.cs:190 | a single path is kept exactly when it has no `.tmp.` |
| Catalog.Sort | CSAutoClick/Program.cs:191 | the result is ascending and a permutation of the input |
| Catalog.ScanForImages | CSAutoClick/Program.cs:181-198 | after a throw the list is the unfiltered appends; otherwise it is sorted and holds each path without `.tmp.` as often as the gathered list does, and no other path |
| Catalog.CollectIsAppends | CSAutoClick/Program.cs:185-189 | the gathered list is exactly the listings before the first one that throws, appended one after another in pattern order, or all four when none throws |
| Catalog.ScanCountsListings | CSAutoClick/Program.cs:185-191 | after a successful scan each path without `.tmp.` occurs exactly as often as in the four listings together, and a `.tmp.` path not at all |
| Catalog.ScanAfterThrow | CSAutoClick/Program.cs:184-197 | when the k-th listing throws, the list is exactly the first k listings appended in order, unfiltered and unsorted |
| Catalog.ScanKeepsExactlyNonTemp | CSAutoClick/Program.cs:185-191 | after a successful scan, a path is a template exactly when some listing holds it and it has no `.tmp.` |
| Catalog.SortedUnique | CSAutoClick/Program.cs:191 | two ascending arrangements of the same paths are equal, so the scan's order is determined |
| Dictionary.Put | CSAutoClick/Program.cs:374 | `d[k] = v` keeps the keys distinct; an existing key keeps its place and takes the new value, a new key is added last, and every other entry stays where it was |
| Dictionary.PutFind | CSAutoClick/Program.cs:374 | after `d[k] = v`, k finds v and every other key finds what it found before |
| Ini.LineEntry | CSAutoClick/Program.cs:167-175 | a line gives an entry exactly when it does not start with ';' and holds '='; the key and value are trimmed and the key holds no '=' |
| Ini.ParseIniFile | CSAutoClick/Program.cs:157-179 | a missing file gives an empty dictionary; keys are distinct and trimmed and hold no '='; values are trimmed |
| Ini.LastLineWins | CSAutoClick/Program.cs:165-176 | the last line that gives a key decides its value |
| Ini.KeyWithoutLine | CSAutoClick/Program.cs:165-176 | a key that no line gives is absent |
| Ini.SerializeRoundTrip | CSAutoClick/Program.cs:376-382 | writing a dictionary with writable keys and trimmed values and parsing the result gives the same dictionary back, entries and order |
| Ini.UpdateConfig | CSAutoClick/Program.cs:371-384 | the written file has one line per entry of the parsed old file, plus one when the key is new; comment, blank and malformed lines and earlier duplicates are not written back |
| Ini.PlainKeyRoundTrip | CSAutoClick/Program.cs:371-384 | for every file, the written file reads the new value under the key and, under every other key that does not start with ';', what the old file held |
| Ini.UpdateConfigRoundTrip | CSAutoClick/Program.cs:371-384 | the written file reads back as the old dictionary with the key set: the key has the new value, every other key keeps its value, and the order is kept |
| Ini.UpdateConfigIdempotent | CSAutoClick/Program.cs:371-384 | writing the same key and value twice leaves the file as the first write left it |
| Ini.CommentKeyLost | CSAutoClick/Program.cs:167 | an indented line " ;k=v" gives the key ";k", and that key is gone from the file after any `UpdateConfig` |
| Config.ParseAs | CSAutoClick/Program.cs:139-147 | a flag parses exactly when `bool.Parse` accepts the text and then holds the bool it returns; a number parses exactly when `int.Parse` accepts the text and then holds the int it returns |
| Config.Read | CSAutoClick/Program.cs:138-147 | one statement sees an absent key, a text its parse rejects, or the parsed value of the key's text |
| Config.Apply | CSAutoClick/Program.cs:134-154 | the statements get through exactly when none throws; settings no statement names are untouched |
| Config.ApplyValue | CSAutoClick/Program.cs:134-154 | a setting takes its parsed value exactly when no statement up to and including its own threw; otherwise it keeps its old value |
| Config.LoadConfig | CSAutoClick/Program.cs:132-155 | loading succeeds exactly when no present setting's text fails to parse |
| Config.LoadConfigValue | CSAutoClick/Program.cs:132-155 | each setting is taken from the file exactly when its key is present, its text parses, and no setting read before it threw |
| Config.LoadConfigComplete | CSAutoClick/Program.cs:132-155 | a file with a parsable value for every setting replaces all five fields and succeeds |
| Config.CreateConfigIfNotExists | CSAutoClick/Program.cs:116-130 | an existing file is left alone; a missing one is created with five lines |
| Config.DefaultFileReadsBack | CSAutoClick/Program.cs:116-130 | the created file parses to the five default entries, in order |
| Config.DefaultIsInitial | CSAutoClick/Program.cs:19-23 | each default written reads as the value its field is initialised with |
| Config.DefaultFileLoadsInitial | CSAutoClick/Program.cs:116-130 | loading the created file succeeds and yields exactly the fields' initial values, whatever the fields held |
| Config.ToggleEnabled | CSAutoClick/Program.cs:200-204 | the flag is flipped, every other setting is unchanged, and the file written is the one `UpdateConfig` writes for `Enabled` and the new flag's `ToString` text |
| Config.ToggleEnabledPersists | CSAutoClick/Program.cs:200-209 | loading the file `ToggleEnabled` wrote sets the flag to its new value |
| Config.ToggleKeepsOthers | CSAutoClick/Program.cs:200-209 | after the toggle every other setting reads from the file as it did before |
| Detection.Attempt | CSAutoClick/Program.cs:271-306 | one display clicks exactly when the capture and match succeed, the score times 100 reaches the precision, and the path has at least two characters; the click is the one the path and match location resolve to |
| Detection.DetectAndClick | CSAutoClick/Program.cs:267-308 | no more clicks than displays, and a click is made exactly for a display whose attempt fires (one per display, in display order, is `DetectAndClickInScreenOrder`) |
| Detection.DetectAndClickInScreenOrder | CSAutoClick/Program.cs:269 | the clicks come in display order: the k-th click belongs to the k-th display that fires |
| Detection.ShortPathNeverClicks | CSAutoClick/Program.cs:286-287 | a path shorter than two characters never clicks |
| Detection.TemplateClicks | CSAutoClick/Program.cs:250-260 | a template that fails to load clicks nothing, and one that loads makes no more clicks than there are displays (display by display is `TemplateClicksRow`) |
| Detection.Pass | CSAutoClick/Program.cs:242-265 | a disabled pass clicks nothing, and an enabled one makes no more clicks than the (template, display) pairs it tried (one per firing pair, in pair order, is `PassInGridOrder`) |
| Detection.PassClicksIff | CSAutoClick/Program.cs:246-261 | an enabled pass makes exactly the clicks of the template and display pairs whose template loads and whose attempt fires |
| Detection.Cell | CSAutoClick/Program.cs:250-260 | the outcome of one template and display pair is a click exactly when that template loads and its attempt on that display fires, and then it is that click |
| Detection.GridCell | CSAutoClick/Program.cs:248-269 | the pair of the i-th template and its j-th display sits in the pass's outcome sequence after every pair of the earlier templates, at offset j |
| Detection.PairOrder | CSAutoClick/Program.cs:248-269 | a pair with an earlier template, or with the same template and an earlier display, sits earlier in that sequence |
| Detection.TemplateClicksRow | CSAutoClick/Program.cs:250-260 | one template's clicks are the clicks of its pairs, in display order |
| Detection.PassInGridOrder | CSAutoClick/Program.cs:246-269 | an enabled pass makes its clicks template by template in list order and, within a template, display by display: the k-th click is the outcome of the k-th pair that fires |
| Detection.PassClicksInPairOrder | CSAutoClick/Program.cs:248-269 | of two pairs that both fire, the click of the pair with the earlier template, or the same template and the earlier display, comes first in the pass |
| Detection.HigherPrecisionFewerClicks | CSAutoClick/Program.cs:283 | every point clicked at the higher precision is clicked at the lower one |
| Detection.HigherPrecisionSubsequence | CSAutoClick/Program.cs:242-283 | the clicks made at a higher precision are those made at a lower one with some left out, in the same order, so there are no more of them |
| Detection.PrecisionAboveHundredNeverClicks | CSAutoClick/Program.cs:277-283 | with scores of at most 1, a precision above 100 never clicks |
| Detection.ClickEvents | CSAutoClick/Program.cs:293 | the events of a run of clicks are whole clicks, three per click |
| Detection.ClickEventsAt | CSAutoClick/Program.cs:320-332 | the k-th click's events move to its point, then press and release its button |
| Detection.PassEvents | CSAutoClick/Program.cs:242-265 | the events of a pass are whole clicks, three per click, and none when disabled |

## Left out

- The tray icon, its menu, `CreateIcon`, `ToggleRunOnStartup` (the registry), `Exit`, `Main`, the single-instance mutex, and `Log`/`LogError` are left out. They are user interface and I/O and decide nothing about clicks.
- `CaptureScreen`, `CvInvoke.MatchTemplate` and `MinMaxLoc` are not modelled. What they report for each template and display is an input: a failure, or the best score and its location.
- The `AutoClick` thread, its `while (!shouldExit)` loop and `Thread.Sleep(checkEveryXSeconds * 1000)` are left out. One pass is modelled. The overflow of the sleep product is not modelled.
- The debug log lines in `DetectAndClick` and `ClickAt` are left out, and so are the DPI constants, which the code declares but never uses for a click. `showDebugMarkers` is loaded and written like every other setting, but what it drives, the debug markers drawn on screen, is user interface and is left out.
- Files are sequences of lines, and `None` is a missing file. Read and write errors are left out, and so are line terminators inside values.
- Strings are sequences of characters, with no surrogate pairs.
- `IndexOf(string)`, `StartsWith(string)` and `List<string>.Sort()` compare by culture in .NET. They are modelled with ordinal comparison.
- `OrdinalIgnoreCase` folds only the ASCII letters.
- The wildcard semantics of `Directory.GetFiles` belong to the listing given as input.
- Numbers.TryParseInt32: its own contract only bounds the value; which texts parse, and to what, is stated by the pair Numbers.ParsedDigits (accepted texts are integer-shaped) and Numbers.ShapeParses (integer-shaped texts are accepted), with the same value in both directions.
- Detection.Fires: the score is a real number, not a double, so the rounding of `maxValue * 100` is not modelled.
- Detection.PrecisionAboveHundredNeverClicks: assumes every score is at most 1, as normalised correlation guarantees; the score is an input here.
- Ini.UpdateConfigRoundTrip: the exact-dictionary equality is proved only for files without a key that starts with ';', because Ini.CommentKeyLost shows that such a key is lost. Ini.PlainKeyRoundTrip states, for every file, what each other key reads back as.
- Ini.UpdateConfigIdempotent: carries the same restriction as Ini.UpdateConfigRoundTrip.
