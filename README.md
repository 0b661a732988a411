# ToolPanda core, modelled in Dafny

ToolPanda is a browser catalogue of small utility tools. This project models
its integer and string logic as Dafny functions, methods and classes, and
proves what that logic promises. Three layers are covered:

- **Preference stores and catalogue logic.**
  - The favourites store: an ordered list of at most eight tool ids.
  - The recently-used store: most recent first, no duplicates, at most four.
  - The catalogue filter, the "Recently used" section, and the heading and empty-state choice.
  - The tool page: manifest lookup, redirect for an unknown id, the visit-recording effect, and the error boundary.
- **Text parsers and encoders.**
  - CSV line splitting and the row table.
  - Hex colours.
  - Number bases and the 8-bit view.
  - HTML entity encoding.
  - Case conversion.
  - Word, sentence and paragraph counting.
  - JWT part splitting and base64url padding.
- **Small state machines.**
  - The pomodoro timer.
  - The regex tester's highlight builder and flag set.
  - The password generator.

Each tool has its own module: `Favorites`, `HomePage`, `ToolPage`, `CsvToJson`,
`NumberBase`, `ColorConverter`, `HtmlEntities`, `CaseConverter`,
`WordCounter`, `PasswordGenerator`, `PomodoroTimer`, `RegexTester` and
`JwtDecoder`. Shared modules hold the building blocks those tools use:

- `TextUtil`: character classes, `trim`, `toLowerCase`, `split` on one character, `filter`.
- `RunSplit`: `split` and `replace` with one-class regular expressions.
- `JsNumber`: `parseInt`, `toString(radix)`, `padStart`.
- `JsonList`: `JSON.stringify` and `JSON.parse` for arrays of strings.
- `Storage`: `localStorage`, modelled as a class holding a key-to-string map.
- `ToolTypes`: the tool manifest, with the registry passed as a sequence with unique ids.

Where the source changes state in place, the model does too:

- The favourites hook, the number-base field record, the password
  generator, the pomodoro timer, the regex tester's flags, the tool page and
  the error boundary are classes. Their methods change fields named in
  `modifies`.
- Three loops are methods with loops, each proved against a specification
  function: `splitLine` (CsvToJson.SplitLine), the number-base `for` loop
  (NumberBase.Rebuild) and the highlight builder (RegexTester.BuildSegments).
- `strengthLabel` is a straight-line method, PasswordGenerator.StrengthLabel,
  a chain of `if`s over the score.

Inputs the browser supplies are parameters of the model:

- the random numbers, as `rand: nat -> nat`;
- the regular-expression engine's matches, as an `Outcome`;
- the base64 and JSON decoding of JWT parts, as `decode: string -> Option<J>`;
- the DOM-based entity decoder;
- the current time.

## Model

| member | source | states |
|---|---|---|
| Storage.LocalStorage.constructor | src/hooks/useFavorites.ts:8 | storage starts as the given key-to-string map |
| Storage.LocalStorage.GetItem | src/hooks/useFavorites.ts:8 | `getItem` is `null` exactly when the key is absent, otherwise the stored string |
| Storage.LocalStorage.SetItem | src/hooks/useFavorites.ts:26 | `setItem` overwrites one key and keeps every other |
| Storage.ReadList | src/pages/HomePage.tsx:17-23 | a missing record or one `JSON.parse` rejects reads as the empty list |
| Storage.ReadWritten | src/hooks/useFavorites.ts:26 | a list written with `JSON.stringify` reads back unchanged |
| JsonList.EscapeChar | src/hooks/useFavorites.ts:26 | `"`, `\` and the control characters with a short form get a two-character escape, the other control characters `\u00XX`; a character is copied as it is exactly when it needs no escape; no raw control character comes out |
| JsonList.Escape | src/hooks/useFavorites.ts:26 | escaping never shortens a string and leaves no raw control character (U+0000 to U+001F) |
| JsonList.Quote | src/hooks/useFavorites.ts:26 | a string literal: opening and closing quote, no raw control character |
| JsonList.Items | src/hooks/useFavorites.ts:26 | a non-empty list of elements starts with a quote; no raw control character |
| JsonList.Serialize | src/hooks/useFavorites.ts:26 | `JSON.stringify` of a string array is bracketed and holds no raw control character |
| JsonList.ParseString | src/hooks/useFavorites.ts:8 | reading a string literal consumes input, and a raw control character is a syntax error |
| JsonList.ControlRejected | src/hooks/useFavorites.ts:8 | a raw control character inside a string literal makes the literal fail to parse |
| JsonList.ParseElements | src/hooks/useFavorites.ts:8 | a parsed element list is non-empty, and each element used at least three characters |
| JsonList.Parse | src/hooks/useFavorites.ts:8 | a parsed array comes from at least two characters, and has fewer elements than a third of them |
| JsonList.RawLineFeedRecord | src/hooks/useFavorites.ts:8-10 | a stored record with a raw line feed inside an id is rejected by `JSON.parse` |
| JsonList.ParseEscaped | src/hooks/useFavorites.ts:8 | an escaped string followed by a quote parses back to itself and the rest |
| JsonList.ParseItems | src/hooks/useFavorites.ts:8 | the serialised elements of a non-empty array parse back to the array |
| JsonList.ParseSerialize | src/hooks/useFavorites.ts:8 | `JSON.parse(JSON.stringify(xs)) == xs` for every string array |
| ToolTypes.FindById | src/pages/ToolPage.tsx:48 | `find` yields nothing exactly when no manifest has the id, otherwise a registry entry |
| ToolTypes.FindUnique | src/types/tool.ts:5-13 | with unique ids, looking up a manifest's id finds that manifest |
| Favorites.Load | src/hooks/useFavorites.ts:6-12 | a missing or unparseable record loads as the empty list |
| Favorites.LoadCorrupt | src/hooks/useFavorites.ts:9-10 | the record `{not json` loads as the empty list |
| Favorites.Toggled | src/hooks/useFavorites.ts:17-28 | a present id is removed with every other id kept; an absent id is appended when below 8; otherwise no change; the id ends up present iff it was absent and there was room |
| Favorites.FavoritesStore.constructor | src/hooks/useFavorites.ts:15 | the list starts as the loaded record |
| Favorites.FavoritesStore.Toggle | src/hooks/useFavorites.ts:17-28 | the list becomes `Toggled`; a change is written so that loading gives the new list, and a rejected add writes nothing |
| Favorites.FavoritesStore.IsFavorite | src/hooks/useFavorites.ts:34 | true iff the id occurs in the list |
| Favorites.FavoritesStore.AtMax | src/hooks/useFavorites.ts:35 | true iff the list holds at least 8 ids |
| Favorites.ToggleKeepsInvariant | src/hooks/useFavorites.ts:17-28 | at most 8 distinct ids stay at most 8 distinct ids |
| Favorites.ToggleAllKeepsInvariant | src/hooks/useFavorites.ts:17-28 | the same for any run of toggles |
| Favorites.ToggleRemovesInPlace | src/hooks/useFavorites.ts:20-21 | removing cuts out the one occurrence; the others keep their order |
| Favorites.ToggleTwiceAbsent | src/hooks/useFavorites.ts:23-24 | adding then removing an id gives back the original list |
| Favorites.ToggleTwicePresent | src/hooks/useFavorites.ts:20-24 | removing then re-adding moves the id to the end |
| Favorites.CapacityRejects | src/hooks/useFavorites.ts:23 | at the cap a new id is refused and the list is unchanged |
| HomePage.GetRecent | src/pages/HomePage.tsx:17-23 | a missing or unparseable record reads as the empty list |
| HomePage.WithRecent | src/pages/HomePage.tsx:26-27 | the id comes first and occurs once; at most 4 ids; the rest are the earlier ids without it, in order, truncated |
| HomePage.AddRecent | src/pages/HomePage.tsx:25-28 | the stored record becomes the serialised `WithRecent` of the stored list |
| HomePage.WithRecentIdempotent | src/pages/HomePage.tsx:25-28 | recording the same id twice equals recording it once |
| HomePage.AddRecentTwice | src/pages/HomePage.tsx:25-28 | the same at the level of the stored record |
| HomePage.RecencyExample | src/pages/HomePage.tsx:25-28 | recording a, b, a from empty gives [a, b] |
| HomePage.TruncationExample | src/pages/HomePage.tsx:11 | five distinct ids keep the last four, newest first |
| HomePage.WithRecentAbsent | src/pages/HomePage.tsx:27 | a new id goes in front and the oldest beyond 4 drop off |
| HomePage.MatchesText | src/pages/HomePage.tsx:42-47 | the empty query matches every tool |
| HomePage.Passes | src/pages/HomePage.tsx:38-48 | with category `all` and a blank query every tool passes; a tool that passes a chosen category is in that category |
| HomePage.Filtered | src/pages/HomePage.tsx:38-48 | never longer than the registry; every kept manifest is a registry entry that passes; every registry entry that passes is kept |
| HomePage.FilteredAppend | src/pages/HomePage.tsx:38-48 | the filter of `a + b` is the filter of `a` followed by that of `b`, so the registry order is kept |
| HomePage.FilteredSingle | src/pages/HomePage.tsx:38-48 | one manifest is kept exactly when it passes |
| HomePage.FilteredUnfiltered | src/pages/HomePage.tsx:39-41 | category `all` with a blank query lists every tool in registry order |
| HomePage.RecentTools | src/pages/HomePage.tsx:50-52 | at most one manifest per stored id, all from the registry |
| HomePage.IdsOf | src/pages/HomePage.tsx:50-52 | the ids of a list of manifests, position by position |
| HomePage.RecentToolsResolve | src/pages/HomePage.tsx:50-52 | the recent section holds exactly the stored ids that resolve, in stored order |
| HomePage.ShowRecent | src/pages/HomePage.tsx:54 | the recent section shows only when some recent tool resolves and the filter lets every tool through |
| HomePage.View | src/pages/HomePage.tsx:54-104 | recents show iff the query is blank, the category is `all` and some stored id resolves; heading "All tools" iff query blank and category `all`, otherwise the filtered count, carrying the query itself exactly when it is not blank; "No tools found" with the query iff nothing passes the filter, otherwise the filtered cards |
| HomePage.CategoryHidesRecent | src/pages/HomePage.tsx:54 | choosing a category hides the recent section whatever the query |
| ToolPage.Lookup | src/pages/ToolPage.tsx:48 | a manifest exactly when the route id names one, and it carries that id |
| ToolPage.Route | src/pages/ToolPage.tsx:60-62 | redirect to `/` exactly for a missing or unknown id |
| ToolPage.ToolPageInstance.constructor | src/pages/ToolPage.tsx:46-58 | no effect has run yet |
| ToolPage.ToolPageInstance.Render | src/pages/ToolPage.tsx:48-62 | the outcome is `Route`; unknown id: redirect, the whole store untouched; known id: the visit is recorded once per manifest change, the recent-tools record becoming the serialised `WithRecent` of the stored list and every other key kept |
| ToolPage.FailureMessage | src/pages/ToolPage.tsx:37 | the error's message, or "Unknown error" |
| ToolPage.ToolErrorBoundary.constructor | src/pages/ToolPage.tsx:21-24 | starts without an error |
| ToolPage.ToolErrorBoundary.Capture | src/pages/ToolPage.tsx:26-28 | records the error and stays failed |
| ToolPage.ToolErrorBoundary.View | src/pages/ToolPage.tsx:30-43 | the children show iff no error was captured; otherwise the failure message |
| CsvToJson.Pieces | src/tools/converters/csv-to-json/index.tsx:17-24 | a line always yields at least one field |
| CsvToJson.TrimAll | src/tools/converters/csv-to-json/index.tsx:18 | every piece trimmed, position by position |
| CsvToJson.SplitLine | src/tools/converters/csv-to-json/index.tsx:8-26 | the loop with its `i++` skip returns the fields of the token reading of the line |
| CsvToJson.ScanPieces | src/tools/converters/csv-to-json/index.tsx:12-24 | the loop's view of the rest of the line agrees with the token view |
| CsvToJson.PiecesCount | src/tools/converters/csv-to-json/index.tsx:17-24 | one field per separator token, plus one |
| CsvToJson.FieldCount | src/tools/converters/csv-to-json/index.tsx:17-24 | `splitLine` returns one more field than the delimiters read outside quotes |
| CsvToJson.FieldsTrimmed | src/tools/converters/csv-to-json/index.tsx:18 | every field comes out trimmed |
| CsvToJson.Lits | src/tools/converters/csv-to-json/index.tsx:20-21 | plain text reads as literal characters, no separators |
| CsvToJson.QuotedLiteral | src/tools/converters/csv-to-json/index.tsx:17 | inside quotes, quote-free text (delimiters included) is field content |
| CsvToJson.DoubledQuote | src/tools/converters/csv-to-json/index.tsx:15 | inside quotes a doubled quote is one literal `"` |
| CsvToJson.QuotedField | src/tools/converters/csv-to-json/index.tsx:14-17 | a quoted field holds its text, delimiters included, and the quotes are not emitted |
| CsvToJson.UnquotedLine | src/tools/converters/csv-to-json/index.tsx:17-19 | a quote-free line splits at every delimiter, each part trimmed |
| CsvToJson.Lines | src/tools/converters/csv-to-json/index.tsx:5 | the kept lines are non-empty |
| CsvToJson.ValueAt | src/tools/converters/csv-to-json/index.tsx:31 | `values[i] ?? ''` |
| CsvToJson.Row | src/tools/converters/csv-to-json/index.tsx:31 | a row has exactly the header keys |
| CsvToJson.RowValue | src/tools/converters/csv-to-json/index.tsx:31 | a header maps to the value at its last position, or `''` when missing |
| CsvToJson.RowDistinct | src/tools/converters/csv-to-json/index.tsx:31 | with distinct headers, every header maps to its own column |
| CsvToJson.Rows | src/tools/converters/csv-to-json/index.tsx:29-32 | one row per line, keyed by the headers |
| CsvToJson.ParseCsv | src/tools/converters/csv-to-json/index.tsx:4-34 | `null` iff no non-empty line; headers from the first line; one row per later line |
| CsvToJson.NonBlankHasLines | src/tools/converters/csv-to-json/index.tsx:5-6 | non-blank input has a non-empty line |
| CsvToJson.Separator | src/tools/converters/csv-to-json/index.tsx:46 | `delimiter || ','`: never empty, the typed delimiter when there is one |
| CsvToJson.Convert | src/tools/converters/csv-to-json/index.tsx:43-52 | blank input gives no result and no error; any other input shows exactly the rows `parseCsv` reads with the separator |
| CsvToJson.ConvertNeverFails | src/tools/converters/csv-to-json/index.tsx:44-48 | "Could not parse CSV" is never shown; a result exists iff the input is non-blank |
| CsvToJson.EmptyDelimiter | src/tools/converters/csv-to-json/index.tsx:46 | an empty delimiter behaves as the comma |
| JsNumber.DigitValue | src/tools/converters/number-base/index.tsx:24 | the radix-36 value of a digit character, 36 for a non-digit |
| JsNumber.DigitChar | src/tools/converters/number-base/index.tsx:40 | the lower-case digit of a value reads back as that value |
| JsNumber.ToRadix | src/tools/converters/number-base/index.tsx:40 | `toString(radix)`: lower-case radix digits, no leading zero |
| JsNumber.ToRadixValue | src/tools/converters/number-base/index.tsx:40 | the digits of `n.toString(radix)` have value n |
| JsNumber.IntToRadix | src/tools/converters/color-converter/index.tsx:21 | a minus sign for negative numbers, then the digits |
| JsNumber.DigitPrefix | src/tools/converters/number-base/index.tsx:24 | the longest prefix of radix digits |
| JsNumber.ParseInt | src/tools/converters/number-base/index.tsx:24 | `parseInt` is NaN for a radix outside 2..36 |
| JsNumber.ParseDigits | src/tools/converters/number-base/index.tsx:24 | a string of radix digits parses to its value |
| JsNumber.ParseToRadix | src/tools/converters/number-base/index.tsx:24-40 | `parseInt(n.toString(r), r) == n` |
| JsNumber.UpperValue | src/tools/converters/number-base/index.tsx:40 | upper-casing a digit string keeps its digits and value |
| JsNumber.ParseUpperToRadix | src/tools/converters/number-base/index.tsx:24-40 | `parseInt(n.toString(r).toUpperCase(), r) == n` |
| JsNumber.Repeat | src/tools/generators/pomodoro-timer/index.tsx:10 | n copies of one character |
| JsNumber.PadStart | src/tools/generators/pomodoro-timer/index.tsx:10 | `padStart`: fill characters in front up to the width, nothing when already wide |
| JsNumber.ZerosValue | src/tools/generators/pomodoro-timer/index.tsx:10 | leading zeros do not change a value |
| JsNumber.PadDigits | src/tools/generators/pomodoro-timer/index.tsx:10 | `n.toString(r).padStart(w, '0')` is lower-case radix digits reading back as n, exactly w long when the digits fit |
| NumberBase.StripPrefix | src/tools/converters/number-base/index.tsx:22 | at most one two-character prefix starting `0` is removed |
| NumberBase.Clean | src/tools/converters/number-base/index.tsx:22 | the text handed to `parseInt` holds no whitespace |
| NumberBase.ParseAny | src/tools/converters/number-base/index.tsx:21-26 | `null` for text empty after cleaning; never negative |
| NumberBase.ParseShown | src/tools/converters/number-base/index.tsx:21-26 | the upper-case text shown for n in each base reads back as n |
| NumberBase.Shown | src/tools/converters/number-base/index.tsx:40 | `n.toString(radix).toUpperCase()`: non-empty radix digits with value n, no lower-case letter |
| NumberBase.BarePrefix | src/tools/converters/number-base/index.tsx:22-23 | a bare prefix in whitespace has no value |
| NumberBase.NegativeRejected | src/tools/converters/number-base/index.tsx:25 | `-5` is invalid, `-0` reads as 0 |
| NumberBase.NegativeDigit | src/tools/converters/number-base/index.tsx:22-25 | a minus sign before one decimal digit: `-0` reads as 0, every other digit is rejected as negative |
| NumberBase.PrefixedDigit | src/tools/converters/number-base/index.tsx:22-24 | `0b`/`0o`/`0x` (either case) before one digit is dropped in every field, leaving that digit's value |
| NumberBase.PrefixAnyRadix | src/tools/converters/number-base/index.tsx:22 | the prefix goes whatever the radix: `0B1` in base 16 is 1 |
| NumberBase.Rebuild | src/tools/converters/number-base/index.tsx:38-41 | the loop over the bases: the edited field keeps the raw text, every other field shows n |
| NumberBase.Converter.constructor | src/tools/converters/number-base/index.tsx:29 | decimal 255, the others empty |
| NumberBase.Converter.HandleChange | src/tools/converters/number-base/index.tsx:32-43 | an invalid text replaces only the edited field; a valid one rebuilds all four |
| NumberBase.FieldsAgree | src/tools/converters/number-base/index.tsx:38-42 | after a valid edit every field reads back as the same value |
| NumberBase.IsInvalid | src/tools/converters/number-base/index.tsx:59 | an empty field is never marked; a non-empty one that cleans to nothing always is |
| NumberBase.BitsOf | src/tools/converters/number-base/index.tsx:106 | bit i is `(d >> (k-1-i)) & 1` |
| NumberBase.Decimal | src/tools/converters/number-base/index.tsx:52 | the decimal field's value is never negative, and absent without a decimal field |
| NumberBase.BitView | src/tools/converters/number-base/index.tsx:104-106 | eight bits, each 0 or 1 |
| NumberBase.BitsOfSum | src/tools/converters/number-base/index.tsx:106 | the bits with their place values plus the shifted-out part give d back |
| NumberBase.ShrSmall | src/tools/converters/number-base/index.tsx:106 | a value below 2^k shifts to 0 |
| NumberBase.BitViewSum | src/tools/converters/number-base/index.tsx:101-106 | for 0..255 the eight bits sum to the value |
| NumberBase.BitPanel | src/tools/converters/number-base/index.tsx:101 | the view shows iff the decimal value is in 0..255, and its bits sum to it |
| ColorConverter.RemoveFirst | src/tools/converters/color-converter/index.tsx:8 | `replace('#', '')` drops one occurrence, or none |
| ColorConverter.RemoveFirstSplit | src/tools/converters/color-converter/index.tsx:8 | the removed occurrence is the first one |
| ColorConverter.Expand | src/tools/converters/color-converter/index.tsx:9-11 | three digits become six, each doubled; other lengths are kept |
| ColorConverter.Channel2 | src/tools/converters/color-converter/index.tsx:13-17 | two hex digits read as a value in 0..255 |
| ColorConverter.HexToRgb | src/tools/converters/color-converter/index.tsx:7-18 | a colour iff the cleaned text is six hex digits; channels in 0..255 read pairwise |
| ColorConverter.Hex2Channel | src/tools/converters/color-converter/index.tsx:21 | a channel prints as two lower-case hex digits with its value |
| ColorConverter.HexFormat | src/tools/converters/color-converter/index.tsx:20-22 | `#` then six lower-case hex digits |
| ColorConverter.HexRoundTrip | src/tools/converters/color-converter/index.tsx:7-22 | `hexToRgb(rgbToHex(c)) == c` for in-range colours |
| ColorConverter.HexOfPairs | src/tools/converters/color-converter/index.tsx:12-17 | six digits after `#` are read two by two |
| ColorConverter.ParseHex2 | src/tools/converters/color-converter/index.tsx:13-21 | a printed channel parses back to itself |
| ColorConverter.FullHash | src/tools/converters/color-converter/index.tsx:8-11 | a leading `#` is the one removed |
| ColorConverter.Shorthand | src/tools/converters/color-converter/index.tsx:9-11 | `#xyz` parses exactly as `#xxyyzz` |
| ColorConverter.NoHashNeeded | src/tools/converters/color-converter/index.tsx:8 | text without `#` parses as with it |
| ColorConverter.Clamp | src/tools/converters/color-converter/index.tsx:53 | in [lo, hi], the identity inside, the nearer bound outside |
| ColorConverter.Current | src/tools/converters/color-converter/index.tsx:61 | the parsed colour, or rgb(59, 130, 246) |
| ColorConverter.Hex2 | src/tools/converters/color-converter/index.tsx:21 | `v.toString(16).padStart(2, '0')`: at least two characters; for v >= 0, lower-case hex digits with value v |
| ColorConverter.RgbToHex | src/tools/converters/color-converter/index.tsx:20-22 | `#` and at least six more characters |
| ColorConverter.With | src/tools/converters/color-converter/index.tsx:66 | `{ ...rgb, [field]: v }`: the named channel set, the others kept; an in-range colour stays in range |
| ColorConverter.FromRgbAsWritten | src/tools/converters/color-converter/index.tsx:65-68 | `fromRgb` as written, on the number `Number()` gives: `#` and at least six more characters |
| ColorConverter.FractionalRedRejected | src/tools/converters/color-converter/index.tsx:65-68 | as written, typing 12.5 into red prints `c.8` for that channel, and the new text is no colour |
| ColorConverter.FromRgb | src/tools/converters/color-converter/index.tsx:65-68 | `fromRgb` with the typed number rounded: `#` and six hex digits |
| ColorConverter.FromRgbParses | src/tools/converters/color-converter/index.tsx:65-68 | editing a channel with any number, fractions included, gives text that parses to the current colour with that channel set to the rounded, clamped number |
| ColorConverter.FromRgbWhole | src/tools/converters/color-converter/index.tsx:65-68 | for whole numbers the rounded edit prints exactly what the component prints |
| ColorConverter.Preview | src/tools/converters/color-converter/index.tsx:82 | the swatch is always a colour, the typed one when valid |
| ColorConverter.FallbackPreview | src/tools/converters/color-converter/index.tsx:61-82 | an invalid hex shows `#3b82f6` |
| HtmlEntities.ReplaceAll | src/tools/encoders/html-entities/index.tsx:8-13 | a global replace leaves text without the character unchanged and removes it when the replacement lacks it |
| HtmlEntities.ReplaceConcat | src/tools/encoders/html-entities/index.tsx:8-13 | a global replace works piece by piece |
| HtmlEntities.EncodeChar | src/tools/encoders/html-entities/index.tsx:8-13 | each special character has its fixed reference; others are kept |
| HtmlEntities.EncodeEntities | src/tools/encoders/html-entities/index.tsx:6-14 | never shorter; text with none of the six characters comes out unchanged |
| HtmlEntities.EncodeEach | src/tools/encoders/html-entities/index.tsx:6-14 | reference encoder: never shorter, same length iff nothing special, no raw character |
| HtmlEntities.ChainConcat | src/tools/encoders/html-entities/index.tsx:6-14 | the replace chain works piece by piece |
| HtmlEntities.ChainChar | src/tools/encoders/html-entities/index.tsx:8-13 | a reference one step produces is left alone by the later steps |
| HtmlEntities.EncodeIsEach | src/tools/encoders/html-entities/index.tsx:6-14 | the chain equals the per-character encoder |
| HtmlEntities.NoRawLeft | src/tools/encoders/html-entities/index.tsx:9-13 | no raw `<`, `>`, `"`, `'` or backtick in the output |
| HtmlEntities.EncodeLength | src/tools/encoders/html-entities/index.tsx:6-14 | never shorter; same length iff none of the six occurs, and then unchanged |
| HtmlEntities.EncodeInOrder | src/tools/encoders/html-entities/index.tsx:6-14 | ordinary characters are copied in place and order |
| HtmlEntities.ReencodesEntities | src/tools/encoders/html-entities/index.tsx:8 | `&` becomes `&amp;`, and `&amp;` becomes `&amp;amp;` |
| HtmlEntities.NotIdempotent | src/tools/encoders/html-entities/index.tsx:8 | encoding twice equals encoding once iff nothing needs encoding |
| HtmlEntities.AmpersandIn | src/tools/encoders/html-entities/index.tsx:8-13 | encoding a special character leaves a `&` |
| HtmlEntities.Output | src/tools/encoders/html-entities/index.tsx:27-31 | empty input gives empty output; encode mode gives the encoding |
| RunSplit.SplitEach | src/tools/text/word-counter/index.tsx:8 | split at single class characters: at least one piece, none holding the class |
| RunSplit.SplitRuns | src/tools/text/word-counter/index.tsx:5-8 | split at runs: at least one piece, none holding the class, characters from the input |
| RunSplit.Words | src/tools/text/word-counter/index.tsx:5 | maximal non-whitespace runs, each non-empty |
| RunSplit.RunsEach | src/tools/text/word-counter/index.tsx:8 | splitting at runs and filtering empties equals splitting at characters and filtering |
| RunSplit.EachNone | src/tools/text/word-counter/index.tsx:8 | text without the class is one piece |
| RunSplit.RunsNone | src/tools/text/word-counter/index.tsx:8 | the same for run splitting |
| RunSplit.WordsSplit | src/tools/text/word-counter/index.tsx:5 | a whitespace character separates words |
| RunSplit.WordsJoin | src/tools/text/case-converter/index.tsx:11 | words joined by spaces split back into the same words |
| RunSplit.WordsTrim | src/tools/text/word-counter/index.tsx:4-5 | trimming does not change the words |
| RunSplit.RunsTrimmed | src/tools/text/word-counter/index.tsx:5 | trimmed text has no empty run pieces |
| RunSplit.RunsConcat | src/tools/text/case-converter/index.tsx:10-11 | a word, a class character and the rest split as the word followed by the rest |
| RunSplit.RunsJoin | src/tools/text/case-converter/index.tsx:10-11 | words joined by one class character split back into those words |
| RunSplit.ReplaceRunsAbsent | src/tools/text/case-converter/index.tsx:10 | `replace(/[-_]+/g, ' ')` leaves text without the class unchanged |
| CaseConverter.UpperRun | src/tools/text/case-converter/index.tsx:9 | the maximal run of capitals at the front |
| CaseConverter.SplitCamel | src/tools/text/case-converter/index.tsx:8 | the first replace keeps the first character and adds at most one space per two characters |
| CaseConverter.SplitAcronym | src/tools/text/case-converter/index.tsx:9 | the second replace never shortens the text and keeps its first character |
| CaseConverter.ToWords | src/tools/text/case-converter/index.tsx:6-13 | every word is non-empty, with no whitespace, `-` or `_` |
| CaseConverter.Capitalize | src/tools/text/case-converter/index.tsx:20 | same length, first character not lower-case, rest without capitals |
| CaseConverter.LowerAll | src/tools/text/case-converter/index.tsx:27-28 | each word lowercased |
| CaseConverter.UpperAll | src/tools/text/case-converter/index.tsx:29 | each word uppercased |
| CaseConverter.CapitalizeAll | src/tools/text/case-converter/index.tsx:20-26 | each word capitalised |
| CaseConverter.CamelWords | src/tools/text/case-converter/index.tsx:25 | first word lowercased, the rest capitalised |
| CaseConverter.NoDashWords | src/tools/text/case-converter/index.tsx:10 | the dash replacement does nothing to dash-free text |
| CaseConverter.LowerThenCapital | src/tools/text/case-converter/index.tsx:8 | a lower-to-upper boundary splits two words |
| CaseConverter.CamelBoundary | src/tools/text/case-converter/index.tsx:8 | the first replace puts a space at that boundary |
| CaseConverter.HelloWorld | src/tools/text/case-converter/index.tsx:6-13 | `helloWorld` gives `hello`, `World` |
| CaseConverter.AcronymThenCapital | src/tools/text/case-converter/index.tsx:9 | an acronym before a capitalised word splits off |
| CaseConverter.AcronymSplitsOff | src/tools/text/case-converter/index.tsx:9 | the second replace puts a space after the acronym |
| CaseConverter.XmlHttp | src/tools/text/case-converter/index.tsx:6-13 | `XMLHttp` gives `XML`, `Http` |
| CaseConverter.SeparatedWords | src/tools/text/case-converter/index.tsx:6-13 | lower-case words joined by `_` or `-` split back into those words |
| CaseConverter.SnakeIdempotent | src/tools/text/case-converter/index.tsx:27 | snake case of snake case changes nothing |
| CaseConverter.KebabIdempotent | src/tools/text/case-converter/index.tsx:28 | kebab case of kebab case changes nothing |
| CaseConverter.SnakeRecover | src/tools/text/case-converter/index.tsx:27 | snake case is the lowercased words joined by `_` |
| CaseConverter.KebabRecover | src/tools/text/case-converter/index.tsx:28 | kebab case is the lowercased words joined by `-` |
| CaseConverter.ConstantRecover | src/tools/text/case-converter/index.tsx:29 | constant case is the uppercased words joined by `_` |
| CaseConverter.NoSeparators | src/tools/text/case-converter/index.tsx:25-26 | camel and pascal insert no whitespace, `-` or `_` |
| CaseConverter.WholeText | src/tools/text/case-converter/index.tsx:18-19 | upper and lower map the whole original text, character by character |
| CaseConverter.SentenceCase | src/tools/text/case-converter/index.tsx:21-24 | same length; first character upper-cased, the rest lowercased |
| CaseConverter.Convert | src/tools/text/case-converter/index.tsx:15-31 | upper, lower and sentence case keep the length; text without words gives the empty string in every other style |
| WordCounter.SpaceRunEnd | src/tools/text/word-counter/index.tsx:9 | the end of the whitespace run |
| WordCounter.LastLineFeed | src/tools/text/word-counter/index.tsx:9 | the last line feed in a range |
| WordCounter.BreakAt | src/tools/text/word-counter/index.tsx:9 | a `\n\s*\n` match from a line feed to a line feed, all whitespace |
| WordCounter.FirstBreak | src/tools/text/word-counter/index.tsx:9 | the leftmost match, or none anywhere after |
| WordCounter.BreakSplit | src/tools/text/word-counter/index.tsx:9 | the split yields at least one piece |
| WordCounter.NonBlank | src/tools/text/word-counter/index.tsx:9 | the kept pieces are those not all whitespace |
| WordCounter.ReadingTime | src/tools/text/word-counter/index.tsx:10 | the least t at least 1 with 200t reaching the word count |
| WordCounter.WordTotal | src/tools/text/word-counter/index.tsx:4-5 | zero words exactly for blank text |
| WordCounter.SentenceTotal | src/tools/text/word-counter/index.tsx:4-8 | zero for blank text; at least one when the trimmed text does not start with a terminator |
| WordCounter.ParagraphTotal | src/tools/text/word-counter/index.tsx:4-9 | zero paragraphs exactly for blank text |
| WordCounter.CountStats | src/tools/text/word-counter/index.tsx:3-12 | `chars` is the UTF-16 length; `charsNoSpace` is the UTF-16 length with whitespace removed, which is `chars` less the number of whitespace characters; blank text counts zero with reading time 1; other text has at least one word |
| WordCounter.WordCount | src/tools/text/word-counter/index.tsx:5 | words equals the number of maximal non-whitespace runs |
| WordCounter.SentenceCount | src/tools/text/word-counter/index.tsx:8 | sentences are the non-empty pieces between terminators |
| WordCounter.OneSentence | src/tools/text/word-counter/index.tsx:8 | non-blank text without a terminator is one sentence |
| WordCounter.ParagraphExists | src/tools/text/word-counter/index.tsx:9 | text not all whitespace has a non-blank paragraph |
| WordCounter.OneParagraph | src/tools/text/word-counter/index.tsx:9 | non-blank text without a line feed is one paragraph |
| WordCounter.TwoParagraphs | src/tools/text/word-counter/index.tsx:9 | two one-line texts around a blank line are two paragraphs |
| WordCounter.BreakPair | src/tools/text/word-counter/index.tsx:9 | such a text splits into exactly the two lines |
| PasswordGenerator.Pool | src/tools/generators/password-generator/index.tsx:12-16 | empty iff no set is enabled; holds exactly the characters of the enabled sets |
| PasswordGenerator.Generate | src/tools/generators/password-generator/index.tsx:11-20 | empty when no set is enabled; otherwise the requested length, every character from the pool |
| PasswordGenerator.GenerateAt | src/tools/generators/password-generator/index.tsx:19 | position i holds the pool character at `rand(i) % pool.length` |
| PasswordGenerator.GenerateReaches | src/tools/generators/password-generator/index.tsx:17-19 | every pool string of the length is produced by some random array |
| PasswordGenerator.IndexOf | src/tools/generators/password-generator/index.tsx:19 | the index of a pool character |
| PasswordGenerator.Score | src/tools/generators/password-generator/index.tsx:24-30 | the number of criteria met, at most 6 |
| PasswordGenerator.StrengthLabel | src/tools/generators/password-generator/index.tsx:22-35 | the empty meter for an empty password; otherwise Weak for a score up to 2, Fair up to 4, Strong at 5, Very strong at 6 |
| PasswordGenerator.TopScore | src/tools/generators/password-generator/index.tsx:25-30 | full marks iff 16+ characters and all four kinds |
| PasswordGenerator.StrongNeedsLength | src/tools/generators/password-generator/index.tsx:25-33 | "Strong" needs at least 12 characters |
| PasswordGenerator.ScoreGrows | src/tools/generators/password-generator/index.tsx:24-30 | appending never lowers the score |
| PasswordGenerator.DigitsOnly | src/tools/generators/password-generator/index.tsx:11-32 | digits-only passwords score at most 3, Fair at best |
| PasswordGenerator.ClampLength | src/tools/generators/password-generator/index.tsx:55 | length in [4, 64], identity inside |
| PasswordGenerator.Flip | src/tools/generators/password-generator/index.tsx:48 | one set switched, the others kept |
| PasswordGenerator.LastSetGuard | src/tools/generators/password-generator/index.tsx:49 | a switch is refused exactly when it would turn off the only enabled set |
| PasswordGenerator.Generator.constructor | src/tools/generators/password-generator/index.tsx:38-40 | length 16, default sets, a password of that length |
| PasswordGenerator.Generator.Regen | src/tools/generators/password-generator/index.tsx:43-45 | a fresh password for the same length and sets |
| PasswordGenerator.Generator.Toggle | src/tools/generators/password-generator/index.tsx:47-52 | applies the switch unless no set would remain; some set always stays enabled |
| PasswordGenerator.Generator.HandleLengthChange | src/tools/generators/password-generator/index.tsx:54-58 | the clamped length and a password of that length |
| PomodoroTimer.Other | src/tools/generators/pomodoro-timer/index.tsx:37 | the other mode |
| PomodoroTimer.Pad2 | src/tools/generators/pomodoro-timer/index.tsx:10 | `String(v).padStart(2, '0')`: decimal digits reading back as v, at least two, exactly two below 100 |
| PomodoroTimer.Fmt | src/tools/generators/pomodoro-timer/index.tsx:9-11 | minutes (2+ digits), `:`, two digits of seconds; the parts read back as `seconds / 60` and `seconds % 60` |
| PomodoroTimer.FmtRoundTrip | src/tools/generators/pomodoro-timer/index.tsx:9-11 | reading the clock face back (`ParseClock`, 60 × minutes + seconds) gives the time shown |
| PomodoroTimer.FmtInjective | src/tools/generators/pomodoro-timer/index.tsx:9-11 | different times show different text |
| PomodoroTimer.ClampMins | src/tools/generators/pomodoro-timer/index.tsx:195 | in [1, max], identity inside, the nearer bound outside |
| PomodoroTimer.ClampMinsAsWritten | src/tools/generators/pomodoro-timer/index.tsx:195 | the clamp on the number `Number()` gives: in [1, max] and the identity inside, so 1.01 stays 1.01 |
| PomodoroTimer.FractionalFocusStalls | src/tools/generators/pomodoro-timer/index.tsx:28-35 | as written, 1.01 focus minutes load 60.6 s; the countdown passes from 0.6 to -0.4, never equals 0, and the completion effect never fires |
| PomodoroTimer.WholeMinutesComplete | src/tools/generators/pomodoro-timer/index.tsx:28-35 | a whole number of minutes counts down to exactly 0 in as many ticks as it has seconds |
| PomodoroTimer.Timer.Duration | src/tools/generators/pomodoro-timer/index.tsx:38 | a period is 1 to 120 minutes, in seconds |
| PomodoroTimer.Timer.constructor | src/tools/generators/pomodoro-timer/index.tsx:14-19 | 25/5 minutes, focus, 1500 s, stopped, no sessions |
| PomodoroTimer.Timer.Tick | src/tools/generators/pomodoro-timer/index.tsx:27-31 | one second off only while running above zero; never negative |
| PomodoroTimer.Timer.Complete | src/tools/generators/pomodoro-timer/index.tsx:34-47 | at zero while running: stop, flip mode, load its full period, count a finished focus period |
| PomodoroTimer.Timer.SwitchMode | src/tools/generators/pomodoro-timer/index.tsx:61-65 | stopped in the chosen mode with its full period |
| PomodoroTimer.Timer.Reset | src/tools/generators/pomodoro-timer/index.tsx:67-70 | stopped with the current mode's full period |
| PomodoroTimer.Timer.ToggleRunning | src/tools/generators/pomodoro-timer/index.tsx:147 | running flips, nothing else changes |
| PomodoroTimer.Timer.SetFocusMins | src/tools/generators/pomodoro-timer/index.tsx:183-195 | the typed number rounded down, then clamped to [1, 120]; the clock follows only when stopped in focus; nothing else changes |
| PomodoroTimer.Timer.SetBreakMins | src/tools/generators/pomodoro-timer/index.tsx:187-195 | the typed number rounded down, then clamped to [1, 60]; the clock follows only when stopped in break; nothing else changes |
| RegexTester.Slice | src/tools/text/regex-tester/index.tsx:52-56 | `slice` within bounds is the substring, never longer than the text |
| RegexTester.Values | src/tools/text/regex-tester/index.tsx:53 | the matched values in order |
| RegexTester.Indices | src/tools/text/regex-tester/index.tsx:49-56 | the start positions of the matches, one per match, in order |
| RegexTester.BuildSegments | src/tools/text/regex-tester/index.tsx:49-56 | matched segments are the match values in order; no two unmatched segments are neighbours; for well-formed matches the segments join back to the text, every gap is non-empty, and each matched segment starts at its match's index |
| RegexTester.Found | src/tools/text/regex-tester/index.tsx:38-46 | without `g` at most the first match; with `g` all of them |
| RegexTester.Analyze | src/tools/text/regex-tester/index.tsx:27-66 | never an empty segment list; empty pattern and invalid pattern fall back to the whole text, with the engine's message or "Invalid regex"; matched segments are the matches, no two gaps are neighbours; well-formed matches join back to the text and each matched segment starts at its index |
| RegexTester.FallbackWhole | src/tools/text/regex-tester/index.tsx:58 | the fallback segment is the whole text and holds no match |
| RegexTester.FlagStr | src/tools/text/regex-tester/index.tsx:25 | one letter per flag, in insertion order |
| RegexTester.Toggled | src/tools/text/regex-tester/index.tsx:68-74 | `f` is set afterwards exactly when it was not; every other flag keeps its membership |
| RegexTester.ToggleFlips | src/tools/text/regex-tester/index.tsx:68-74 | toggling flips only that flag, without duplicates |
| RegexTester.ToggleTwice | src/tools/text/regex-tester/index.tsx:68-74 | toggling twice restores the set |
| RegexTester.ToggleTwiceReorders | src/tools/text/regex-tester/index.tsx:25-74 | but may reorder the flag string: `gi` becomes `ig` |
| RegexTester.Tester.constructor | src/tools/text/regex-tester/index.tsx:21-23 | empty pattern, flag `g`, the sample text |
| RegexTester.Tester.ToggleFlag | src/tools/text/regex-tester/index.tsx:68-74 | the flags become the toggled set; pattern and text kept |
| RegexTester.Tester.Result | src/tools/text/regex-tester/index.tsx:27-66 | the same for the tester's pattern, flags and text: never empty; at most one match without `g`; well-formed matches join back to the text, each at its index |
| JwtDecoder.Standard | src/tools/encoders/jwt-decoder/index.tsx:8 | `-` and `_` become `+` and `/`; other characters stay |
| JwtDecoder.PadEnd | src/tools/encoders/jwt-decoder/index.tsx:8 | `padEnd`: the string, then fill up to the width |
| JwtDecoder.Normalize | src/tools/encoders/jwt-decoder/index.tsx:8 | a multiple of four, 0-3 `=` added, each character standardised |
| JwtDecoder.NormalizeAlphabet | src/tools/encoders/jwt-decoder/index.tsx:8 | no `-` or `_` remain |
| JwtDecoder.NormalizeLeast | src/tools/encoders/jwt-decoder/index.tsx:8 | the padded length is the least multiple of four at or above the length |
| JwtDecoder.NormalizeIdempotent | src/tools/encoders/jwt-decoder/index.tsx:8 | normalising again changes nothing |
| JwtDecoder.DecodeJwt | src/tools/encoders/jwt-decoder/index.tsx:3-19 | `null` unless there are exactly three parts and the first two decode; any decoding failure is `null`; header and payload are the decoded parts and the signature is the third part as written |
| JwtDecoder.TwoDots | src/tools/encoders/jwt-decoder/index.tsx:5-6 | a decoded token has exactly two dots |
| JwtDecoder.ThreeParts | src/tools/encoders/jwt-decoder/index.tsx:5-14 | `h.p.s` splits into h, p, s and the signature is s |
| JwtDecoder.Display | src/tools/encoders/jwt-decoder/index.tsx:38-58 | the token is trimmed; blank is neither decoded nor invalid; invalid iff non-blank and not decodable |
| JwtDecoder.IsExpired | src/tools/encoders/jwt-decoder/index.tsx:44 | expired only with a non-zero `exp`; then expired exactly when `exp` is below the current time in whole seconds, rounded up |
| JwtDecoder.ExpiredStays | src/tools/encoders/jwt-decoder/index.tsx:44 | once expired, a token stays expired |
| JwtDecoder.ExpiryBoundary | src/tools/encoders/jwt-decoder/index.tsx:44 | a non-zero `exp` is expired iff `exp * 1000 < now` |
| JwtDecoder.NoClaimNoExpiry | src/tools/encoders/jwt-decoder/index.tsx:44 | a missing or zero claim never expires |
| TextUtil.LowerChar | src/pages/HomePage.tsx:42-46 | a capital becomes lower case; other characters stay |
| TextUtil.UpperChar | src/tools/text/case-converter/index.tsx:18 | a lower-case letter becomes a capital; other characters stay |
| TextUtil.Lower | src/pages/HomePage.tsx:42-46 | `toLowerCase`, character by character |
| TextUtil.Upper | src/tools/text/case-converter/index.tsx:18 | `toUpperCase`, character by character |
| TextUtil.LowerIdempotent | src/pages/HomePage.tsx:42-46 | lowercasing twice is lowercasing once |
| TextUtil.TrimStart | src/tools/text/word-counter/index.tsx:4 | the leading whitespace removed: a suffix of the input, starting with a non-whitespace character |
| TextUtil.TrimEnd | src/tools/text/word-counter/index.tsx:4 | the trailing whitespace removed: a prefix of the input, ending with a non-whitespace character |
| TextUtil.Trim | src/tools/text/word-counter/index.tsx:4 | `trim`: a slice of the input with only whitespace before and after it, and no whitespace at either end |
| TextUtil.TrimEmptyIffBlank | src/tools/text/word-counter/index.tsx:4-9 | trimming empties a text iff it is all whitespace |
| TextUtil.IsSpace | src/tools/text/word-counter/index.tsx:7 | `\s`: a whitespace character is no letter and one UTF-16 code unit |
| TextUtil.RemoveSpaces | src/tools/text/word-counter/index.tsx:7 | `replace(/\s/g, '')`: no whitespace left, never longer, unchanged when there was none; one character is dropped exactly when it is whitespace |
| TextUtil.RemoveSpacesConcat | src/tools/text/word-counter/index.tsx:7 | removing whitespace works piece by piece |
| TextUtil.Utf16Length | src/tools/text/word-counter/index.tsx:6 | `length` counts UTF-16 code units: between the number of characters and twice it, equal to it when no character lies beyond U+FFFF |
| TextUtil.RemoveSpacesLength | src/tools/text/word-counter/index.tsx:6-7 | removing whitespace shortens the UTF-16 length by exactly the number of whitespace characters |
| TextUtil.SplitOn | src/tools/encoders/jwt-decoder/index.tsx:5 | `split` on one character: at least one piece, none holding it |
| TextUtil.SplitJoin | src/tools/text/case-converter/index.tsx:27-29 | joining pieces free of the separator and splitting again gives them back |
| TextUtil.SplitCount | src/tools/encoders/jwt-decoder/index.tsx:5-6 | one more piece than occurrences of the separator |
| TextUtil.Join | src/tools/text/case-converter/index.tsx:20-29 | `join`: the first piece starts the result, and no piece is longer than the result |
| TextUtil.Remove | src/hooks/useFavorites.ts:21 | `filter(x => x !== id)`: the id gone, exactly its occurrences dropped |
| TextUtil.RemoveDistinct | src/hooks/useFavorites.ts:21 | in a duplicate-free list the filter cuts out the one occurrence, keeping the order |
| TextUtil.RemoveMultiset | src/hooks/useFavorites.ts:21 | every other element keeps its count |
| TextUtil.RemovePreservesDistinct | src/hooks/useFavorites.ts:21 | removing keeps a list duplicate-free |

## Left out

- Browser I/O is not modelled: clipboard writes, the "copied" timeouts, `Notification`, `document.title`, and `React.lazy`/`Suspense` module loading. The tool page's rendered tool is reduced to the manifest it shows.
- `JSON.parse` is modelled for arrays of strings only. A stored record that is valid JSON but not an array of strings counts as a parse failure, so it is not read the way the source reads it.
- JsonList.Escape: a string holding a lone surrogate cannot be escaped, because a Dafny `char` is a Unicode scalar value and cannot be a lone surrogate. For the same reason a `\u` escape naming a lone surrogate is a parse failure in JsonList.ParseString.
- JsonList.Serialize: the same holds for a serialised list, whose strings cannot hold a lone surrogate.
- String lengths are UTF-16 code units only in WordCounter.CountStats. Elsewhere a length or position counts characters: base64url padding, `split`, `slice` and the regex match indices. Text with characters beyond U+FFFF therefore gets different numbers there than in JavaScript.
- ColorConverter.FracHex: `toString(16)` of a fractional channel is modelled with at most 13 hex digits after the point. The exact digit count JavaScript prints for a double is not modelled; FractionalRedRejected needs only the first digits.
- ColorConverter.FromRgb: rounds the typed number to the nearest whole channel before clamping. This is the corrected behaviour (see Findings); the component as written is FromRgbAsWritten.
- PomodoroTimer.Timer.SetFocusMins: rounds the typed number down before clamping. This is the corrected behaviour (see Findings); the component as written is ClampMinsAsWritten with Countdown.
- PomodoroTimer.Timer.SetBreakMins: rounds down in the same way.
- The tool registry is a parameter: a sequence of manifests with unique ids, without `icon` and `load`.
- The floating-point parts are not modelled: `rgbToHsl`, `hslToRgb` and `fromHsl` (src/tools/converters/color-converter/index.tsx:24-51, 70-74) and the pomodoro progress ring (src/tools/generators/pomodoro-timer/index.tsx:78-80).
- Integers are unbounded. `parseInt` precision loss for huge values is not modelled, nor are `NaN` from `Number()` of non-numeric text in the number inputs and `-0`. Fractional input is modelled, as a `real`.
- CsvToJson.Convert: the `catch` branch (src/tools/converters/csv-to-json/index.tsx:49-50) is not modelled, because nothing in `parseCsv` throws on strings. Object key order of the rows is not modelled either; a row is a map.
- HtmlEntities.Output: decoding (src/tools/encoders/html-entities/index.tsx:16-20) uses the DOM. It is the parameter `decode`, and nothing is proved about it.
- JwtDecoder.DecodeJwt: `atob` plus `JSON.parse` is the parameter `decode`. Reading `exp` out of the payload, and `formatTime` with `Date` (src/tools/encoders/jwt-decoder/index.tsx:21-23), are not modelled. `IsExpired` takes the claim and the current time.
- RegexTester.Analyze: the regular-expression engine, including the zero-width `lastIndex++` step (src/tools/text/regex-tester/index.tsx:41) and capture groups, is an input. The match list is what the engine reports.
- RegexTester.Analyze: "every unmatched segment is non-empty" is stated only for non-empty text. For empty text the fallback segment of line 58 is itself empty.
- PasswordGenerator.Generate: the random array is `rand: nat -> nat` from position to number. The 32-bit range of the source's numbers does not affect which character is picked, so the model does not bound them.
- PomodoroTimer.Timer.Tick: the tick and completion effects are methods that React's scheduler calls when their guards may have changed. Timing and effect ordering are not modelled.
- Case mapping is ASCII only (`IsUpper`, `IsLower`). The word splitter and the case styles are modelled for ASCII letters; Unicode case rules are not.
- The other tools are not modelled: base64, JSON formatter, Markdown preview, text diff, UUID generator, lorem ipsum and timestamp. They are wrappers around browser or library calls, randomness or `Date`. The layout components, the route table and the theme hook are not modelled either.

## Findings

| source | as written | input that shows it | evidently intended | confidence | as-written member | corrected member |
|---|---|---|---|---|---|---|
| src/tools/converters/color-converter/index.tsx:65-68 | `Number()` of a channel input (line 145) is clamped to 0..255 but not rounded, and `toString(16)` prints a fraction with a point | typing 12.5 into R while the colour is `#3b82f6`: red prints as `c.8`, the new text is `#c.882f6`, `hexToRgb` rejects it, and the edit is lost | a whole channel value, so that the text stays a six-digit colour | not executed | ColorConverter.FractionalRedRejected | ColorConverter.FromRgbParses |
| src/tools/generators/pomodoro-timer/index.tsx:183-195 | `Number()` of a minutes input is clamped but not rounded, and the clock is set to minutes × 60; the countdown of lines 28-35 stops at or below 0 and completes only at exactly 0 | 1.01 focus minutes: the clock holds 60.6 s, each tick takes 1 s off, the value goes from 0.6 to -0.4 and never equals 0, so the timer stops ticking without completing the period | a whole number of minutes, so that the countdown reaches 0 and the completion effect runs | not executed | PomodoroTimer.FractionalFocusStalls | PomodoroTimer.WholeMinutesComplete |
