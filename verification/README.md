# dev-utils converters in Dafny

This project models four React widgets of the dev-utils web tool box:

- the three-field timestamp converter, which links a date, Unix seconds and Unix milliseconds (`TimestampTools` in src/components/timestamp);
- the two-field timestamp converter, which links a date and Unix seconds (`TimestampTools` in src/components/encoding);
- the HTML formatter, minifier and validator, with its escaping highlighter (`HtmlTools`);
- the Base64 encoder and decoder (`Base64Tools`).

Each widget is a state record, pure event handlers, and the React effects that follow a render.

The timestamp widgets keep their inputs consistent through effects that write each other's inputs. `Settle` runs those effects render after render until no watched input changes. Its contract proves that this takes at most three rounds.

The model also covers the JavaScript built-ins the widgets rely on:

- `parseInt` and integer `toString` (module `JsText`);
- `Date`, with `toISOString`, and `new Date(s)` on a datetime-local string read as local time (module `JsDate`).

Both follow ECMA-262. Section 21.4.1 gives the day and year arithmetic, and section 21.4.1.32 gives the Date Time String Format. `btoa` and `atob` (module `Base64Codec`) follow the forgiving-base64 algorithms of the HTML and Infra standards over the alphabet of section 4 of RFC 4648. Section 10 of RFC 4648 supplies the test vectors.

The module layout follows the program:

| file | module | models |
|---|---|---|
| outcomes.dfy | `Outcomes` | `Option` |
| js_text.dfy | `JsText` | `parseInt`, `Number.prototype.toString` for integers, JavaScript white space |
| js_date.dfy | `JsDate` | time values, civil calendar, `toISOString`, datetime-local parsing |
| timestamp_tools.dfy | `TimestampTools` | the three-field converter |
| encoding_timestamp_tools.dfy | `EncodingTimestampTools` | the two-field converter |
| html_minify.dfy | `HtmlMinify` | `minifyHTML`, rewrite by rewrite |
| html_minify_cases.dfy | `HtmlMinifyCases` | concrete behaviour of `minifyHTML` |
| html_escape.dfy | `HtmlEscape` | the escaping passes of the highlighting effect and their inverse |
| html_tools.dfy | `HtmlTools` | the HTML widget |
| base64_codec.dfy | `Base64Codec` | `btoa` and `atob` |
| base64_tools.dfy | `Base64Tools` | the Base64 widget |

Some of what the proofs establish about the source as written:

- **Timestamps are shifted by the time-zone offset.** An edit of seconds or milliseconds fills the date with the UTC minute (`toISOString().slice(0, 16)`). The date effect then reads that minute back as local time and overwrites both timestamps. Away from UTC, a typed timestamp is therefore replaced by another instant: `SecondsEditShiftsByOffset` and `MillisEditShiftsByOffset`. Even at UTC the seconds within the minute are dropped: `SecondsEditAtUtcDropsSeconds`.
- **`minifyHTML` is not idempotent.** It collapses white space before it deletes comments, so `x <!----> y` minifies to `x  y` and only a second pass gives `x y`: `HtmlMinifyCases.MinifyNotIdempotent`.

## Model

| member | source | states |
|---|---|---|
| TimestampTools.OnDateChange | src/components/timestamp/TimestampTools.tsx:118-122 | editing the date sets it and blanks both timestamps; the displays and the error stay |
| TimestampTools.OnSecondsChange | src/components/timestamp/TimestampTools.tsx:169-173 | editing the seconds sets them and blanks the date and the milliseconds |
| TimestampTools.OnMillisChange | src/components/timestamp/TimestampTools.tsx:201-205 | editing the milliseconds sets them and blanks the date and the seconds |
| TimestampTools.OnUseCurrentTime | src/components/timestamp/TimestampTools.tsx:75-83 | "Use Current Time" writes the UTC minute of `now` as the date, formats both displays from `now`, and clears the error |
| TimestampTools.UseCurrentTimeReadsBack | src/components/timestamp/TimestampTools.tsx:78-79 | the written milliseconds parse back as `now` and the seconds as `floor(now / 1000)` |
| TimestampTools.DateEffect | src/components/timestamp/TimestampTools.tsx:18-35 | an empty or unparsable date changes nothing; a parsable one sets timestamps that parse back as its instant and its whole seconds, records the instant for the displays, and clears the error; the date is never written |
| TimestampTools.SecondsEffect | src/components/timestamp/TimestampTools.tsx:38-54 | acts only when the date is empty and the seconds parse; an out-of-range instant only sets "Invalid timestamp"; otherwise the date becomes the UTC minute of seconds × 1000 and the milliseconds parse back as that instant |
| TimestampTools.MillisEffect | src/components/timestamp/TimestampTools.tsx:57-73 | acts only when date and seconds are empty and the milliseconds parse; an out-of-range instant only sets "Invalid millisecond timestamp"; otherwise the date becomes its UTC minute and the seconds parse back as its whole seconds |
| TimestampTools.RoundLowersRank | src/components/timestamp/TimestampTools.tsx:18-73 | every round of effects after a change to a watched input lowers a rank bounded by 3, so the effect cascade cannot loop |
| TimestampTools.Round | src/components/timestamp/TimestampTools.tsx:18-73 | one commit: the date, seconds and milliseconds effects, in declaration order, each only if its input changed; `RoundLowersRank` and `Settle` state what repeated rounds reach |
| TimestampTools.Settle | src/components/timestamp/TimestampTools.tsx:18-73 | the cascade ends in a render where no watched input changed, after at most three rounds |
| TimestampTools.Dispatch | src/components/timestamp/TimestampTools.tsx:18-205 | one user event, then its effects until they settle; its outcomes are stated by `DateEditSettles`, `SecondsEditSettles`, `MillisEditSettles` and `UseCurrentTimeSettles` |
| TimestampTools.SettleWithNewDate | src/components/timestamp/TimestampTools.tsx:18-35 | once the date is non-empty, only the date effect acts, and only if the date changed |
| TimestampTools.DateEditSettles | src/components/timestamp/TimestampTools.tsx:18-35 | after a date edit the widget shows the typed date; its instant fills both timestamps when it parses, and they stay blank when it does not |
| TimestampTools.SecondsEditSettles | src/components/timestamp/TimestampTools.tsx:38-54 | the final state after a seconds edit, in every case: NaN, out of range, and in range with the UTC minute read back or not |
| TimestampTools.MillisEditSettles | src/components/timestamp/TimestampTools.tsx:57-73 | the final state after a milliseconds edit, in every case |
| TimestampTools.UseCurrentTimeSettles | src/components/timestamp/TimestampTools.tsx:75-83 | after "Use Current Time" the date effect reads the minute back and overwrites the timestamps, unless the date text did not change |
| TimestampTools.SecondsEditShiftsByOffset | src/components/timestamp/TimestampTools.tsx:38-54 | a valid seconds value in years 0 to 9999 settles on the start of its UTC minute minus the local offset |
| TimestampTools.SecondsEditAtUtcDropsSeconds | src/components/timestamp/TimestampTools.tsx:38-54 | at offset 0 the seconds value `n` settles on `n - n mod 60` |
| TimestampTools.SecondsEditOnFirstDay | src/components/timestamp/TimestampTools.tsx:38-54 | at offset 0, seconds within the first day of 1970 settle on the start of their minute |
| TimestampTools.SixtyFiveSecondsSettleOnSixty | src/components/timestamp/TimestampTools.tsx:38-54 | typing `65` as seconds from the initial state at offset 0 settles on seconds `60`, milliseconds `60000`, with no error |
| TimestampTools.MillisEditShiftsByOffset | src/components/timestamp/TimestampTools.tsx:57-73 | a valid milliseconds value in years 0 to 9999 whose shifted minute is a time value settles on the start of its UTC minute minus the local offset |
| EncodingTimestampTools.OnDateChange | src/components/encoding/TimestampTools.tsx:84-87 | editing the date sets it and blanks the timestamp |
| EncodingTimestampTools.OnSecondsChange | src/components/encoding/TimestampTools.tsx:114-117 | editing the timestamp sets it and blanks the date |
| EncodingTimestampTools.OnUseCurrentTime | src/components/encoding/TimestampTools.tsx:44-49 | "Use Current Time" writes the UTC minute of `now` as the date and clears the error |
| EncodingTimestampTools.UseCurrentTimeReadsBack | src/components/encoding/TimestampTools.tsx:47 | the written timestamp parses back as `floor(now / 1000)` |
| EncodingTimestampTools.DateEffect | src/components/encoding/TimestampTools.tsx:15-27 | an empty or unparsable date changes nothing; a parsable one sets a timestamp that parses back as the whole seconds of its instant, clears the error, and never writes the date |
| EncodingTimestampTools.SecondsEffect | src/components/encoding/TimestampTools.tsx:29-42 | acts only when the date is empty and the timestamp parses; out of range only sets "Invalid timestamp" |
| EncodingTimestampTools.RoundLowersRank | src/components/encoding/TimestampTools.tsx:15-42 | every round after a change lowers a rank bounded by 3 |
| EncodingTimestampTools.Round | src/components/encoding/TimestampTools.tsx:15-42 | one commit: the date effect, then the timestamp effect, each only if its input changed; `RoundLowersRank` and `Settle` state what repeated rounds reach |
| EncodingTimestampTools.Settle | src/components/encoding/TimestampTools.tsx:15-42 | the cascade ends where no watched input changed, after at most three rounds |
| EncodingTimestampTools.Dispatch | src/components/encoding/TimestampTools.tsx:15-117 | one user event, then its effects until they settle; its outcomes are stated by `DateEditSettles`, `SecondsEditSettles` and `UseCurrentTimeSettles` |
| EncodingTimestampTools.DateEditSettles | src/components/encoding/TimestampTools.tsx:15-27 | after a date edit, the timestamp holds the whole seconds of the parsed date, or stays blank |
| EncodingTimestampTools.SecondsEditSettles | src/components/encoding/TimestampTools.tsx:29-42 | the final state after a timestamp edit, in every case |
| EncodingTimestampTools.SecondsEditShiftsByOffset | src/components/encoding/TimestampTools.tsx:29-42 | a valid timestamp in years 0 to 9999 whose shifted minute is a time value settles on the whole seconds of its UTC minute minus the local offset |
| EncodingTimestampTools.UseCurrentTimeSettles | src/components/encoding/TimestampTools.tsx:44-49 | after "Use Current Time" the date effect overwrites the timestamp, unless the date text did not change |
| JsText.IntToString | src/components/timestamp/TimestampTools.tsx:25-26 | the decimal rendering of an integer: digits of its value, after a `-` when negative, with no leading zero except for zero itself |
| JsText.IntToStringReadsBack | src/components/timestamp/TimestampTools.tsx:41 | `parseInt` of the rendering of any integer gives it back |
| JsText.ParseInt | src/components/timestamp/TimestampTools.tsx:41 | `parseInt(s, 10)`, steps of section 19.2.5 of ECMA-262; what it returns is stated by `ParseIntSkipsSpace`, `ParseIntStopsAtNonDigit`, `ParseIntNaN`, `ParseIntOfDigits` and `IntToStringReadsBack` |
| JsText.ParseIntStopsAtNonDigit | src/components/timestamp/TimestampTools.tsx:41 | `parseInt` reads the digits up to the first non-digit and ignores the rest |
| JsText.ParseIntSkipsSpace | src/components/timestamp/TimestampTools.tsx:41 | leading white space never changes what `parseInt` returns |
| JsText.ParseIntNaN | src/components/timestamp/TimestampTools.tsx:41-42 | text whose first non-space character is not a digit or a sign is NaN |
| JsText.ParseIntOfDigits | src/components/timestamp/TimestampTools.tsx:41 | a run of digits reads as its value |
| JsText.PadDigitsOfValue | src/components/timestamp/TimestampTools.tsx:44 | a digit field is the zero-padded rendering of its value |
| JsDate.YearFromDayUnique | src/components/timestamp/TimestampTools.tsx:44 | exactly one year contains a given day number |
| JsDate.DayToDate | src/components/timestamp/TimestampTools.tsx:44 | the calendar date of a day number is a real date that denotes that day |
| JsDate.DayToDateOfMakeDay | src/components/timestamp/TimestampTools.tsx:21 | the calendar date of a real date's day number is that date |
| JsDate.ToDateTime | src/components/timestamp/TimestampTools.tsx:44 | the UTC reading of an instant is canonical and denotes that instant |
| JsDate.ToDateTimeOfTimeOf | src/components/timestamp/TimestampTools.tsx:44 | a canonical reading is the reading of its own instant |
| JsDate.YearOfTimeValue | src/components/timestamp/TimestampTools.tsx:44 | every time value falls in a year of at most six digits |
| JsDate.ToIsoString | src/components/timestamp/TimestampTools.tsx:44 | `toISOString` has 24 characters in years 0 to 9999, otherwise 27 |
| JsDate.IsoMinute | src/components/timestamp/TimestampTools.tsx:44 | `toISOString().slice(0, 16)` has sixteen characters; `IsoMinuteReadsBack` states which minute it names |
| JsDate.ParseLocalDateTime | src/components/timestamp/TimestampTools.tsx:21 | `new Date(date).getTime()` for a datetime-local value read as local time; `ParseLocalDateTimeOfFields`, `IsoMinuteReadsBack`, `LocalDateTimeFormatsBack` and `IsoMinuteOutsideFourDigitYears` state its results |
| JsDate.IsoMinuteReadsBack | src/components/timestamp/TimestampTools.tsx:18-44 | the UTC minute string, read back as local time, is the instant truncated to its minute and shifted by the offset |
| JsDate.LocalDateTimeFormatsBack | src/components/timestamp/TimestampTools.tsx:21 | at offset 0 every canonical datetime-local value parses and formats back to itself |
| JsDate.IsoMinuteOutsideFourDigitYears | src/components/timestamp/TimestampTools.tsx:44 | outside years 0 to 9999 the minute string starts with a sign and reads back as NaN |
| JsDate.ParseLocalDateTimeOfFields | src/components/timestamp/TimestampTools.tsx:21 | a datetime-local value naming an existing minute reads as that minute, in local time |
| HtmlMinify.CollapseSpaces | src/components/html/HtmlTools.tsx:27 | the collapse never lengthens, leaves only plain single spaces, and is the identity without white space |
| HtmlMinify.CollapseSpacesKeepsText | src/components/html/HtmlTools.tsx:27 | collapsing changes white space and nothing else |
| HtmlMinify.CollapseSpacesIdempotent | src/components/html/HtmlTools.tsx:27 | collapsing twice is collapsing once |
| HtmlMinify.DropTagGaps | src/components/html/HtmlTools.tsx:28 | the tag-gap rewrite never lengthens; `DropTagGapsRemovesGap` states what it deletes and the three lemmas below that it deletes nothing else |
| HtmlMinify.DropTagGapsRemovesGap | src/components/html/HtmlTools.tsx:28 | after a prefix in which no gap starts, tags included, a `>` followed by white space and `<` becomes `><`, and the rewrite resumes after that `<` |
| HtmlMinify.DropTagGapsKeepsText | src/components/html/HtmlTools.tsx:28 | the tag-gap rewrite deletes white space and nothing else |
| HtmlMinify.DropTagGapsKeepsSpacesPlain | src/components/html/HtmlTools.tsx:28 | the tag-gap rewrite keeps white space plain |
| HtmlMinify.DropTagGapsWithoutSpace | src/components/html/HtmlTools.tsx:28 | without white space the tag-gap rewrite is the identity |
| HtmlMinify.FirstClose | src/components/html/HtmlTools.tsx:29 | the first `-->` at or after a position, or none |
| HtmlMinify.StripComments | src/components/html/HtmlTools.tsx:29 | comment removal never lengthens, keeps spaces plain, and is the identity without `<!--` |
| HtmlMinify.StripCommentsPrefix | src/components/html/HtmlTools.tsx:29 | a prefix in which no comment opener starts passes through unchanged, and the rest is rewritten on its own |
| HtmlMinify.StripCommentsOfComment | src/components/html/HtmlTools.tsx:29 | after a prefix in which no opener starts, tags included, a comment `<!--c-->` is deleted through its first closer, and the text after it is rewritten on its own |
| HtmlMinify.CommentEndsAtNearestClose | src/components/html/HtmlTools.tsx:29 | comment removal is lazy: a comment ends at the nearest `-->` |
| HtmlMinify.UnclosedCommentStays | src/components/html/HtmlTools.tsx:29 | an opener without a closer is kept as text |
| HtmlMinify.Trim | src/components/html/HtmlTools.tsx:30 | the trimmed text is a slice of the text with only white space before and after it, has no white space at either end, and is unchanged without white space |
| HtmlMinify.TrimKeepsText | src/components/html/HtmlTools.tsx:30 | trimming deletes white space and nothing else |
| HtmlMinify.Minify | src/components/html/HtmlTools.tsx:25-31 | the minified text is no longer than the input, has no white space at either end, and every white space left is U+0020 |
| HtmlMinify.MinifyUntouched | src/components/html/HtmlTools.tsx:25-31 | input without white space and without `<!--` is returned unchanged |
| HtmlMinifyCases.LazyCommentExample | src/components/html/HtmlTools.tsx:29 | `<!--a-->b-->` becomes `b-->` |
| HtmlMinifyCases.CommentInsideElement | src/components/html/HtmlTools.tsx:29 | `<p><!--x--></p>` becomes `<p></p>`: the comment goes and the tags around it stay |
| HtmlMinifyCases.MinifyDropsTagGap | src/components/html/HtmlTools.tsx:25-31 | `<a> <b>` minifies to `<a><b>` |
| HtmlMinifyCases.MinifyKeepsSpacesAroundComment | src/components/html/HtmlTools.tsx:25-31 | `x <!----> y` minifies to `x  y`, with both spaces |
| HtmlMinifyCases.MinifyNotIdempotent | src/components/html/HtmlTools.tsx:25-31 | a second minification changes that result |
| HtmlEscape.EntityOf | src/components/html/HtmlTools.tsx:52-56 | a character's reference is longer than one character exactly for the five special characters |
| HtmlEscape.Escape | src/components/html/HtmlTools.tsx:51-56 | the five `replace` passes of the highlighting effect; `EscapeIsPerCharacter`, `EscapeEachShape`, `EscapeRemovesMarkup`, `EscapeIdentity` and `UnescapeEscape` state their result |
| HtmlEscape.Unescape | src/components/html/HtmlTools.tsx:205 | the browser's decoding of the five references when the escaped text is set as inner HTML; `UnescapeEscape` states that it inverts `Escape` |
| HtmlEscape.ReplaceAllMatches | src/components/html/HtmlTools.tsx:52-56 | a global replace substitutes a match at the front and continues after it |
| HtmlEscape.ReplaceAllSkips | src/components/html/HtmlTools.tsx:52-56 | a global replace copies text without the pattern's first character |
| HtmlEscape.EscapeIsPerCharacter | src/components/html/HtmlTools.tsx:51-56 | the five sequential passes equal replacing every character by its reference at once |
| HtmlEscape.EscapeEachShape | src/components/html/HtmlTools.tsx:51-56 | escaping never shortens, lengthens exactly when a special character occurs, and leaves no markup character |
| HtmlEscape.EscapeRemovesMarkup | src/components/html/HtmlTools.tsx:51-56 | the escaped text contains none of `<`, `>`, `"` and `'` |
| HtmlEscape.EscapeIdentity | src/components/html/HtmlTools.tsx:51-56 | escaping leaves a text unchanged exactly when it has no special character |
| HtmlEscape.UnescapeEscape | src/components/html/HtmlTools.tsx:51-56 | escaping is reversible: decoding the five references gives back the text |
| HtmlTools.HandleMinify | src/components/html/HtmlTools.tsx:86-100 | Minify shows the minified input, with no error, as a minify result |
| HtmlTools.HandleFormat | src/components/html/HtmlTools.tsx:66-84 | a formatted text replaces the output and clears the error; a failure blanks the output and keeps the operation |
| HtmlTools.HandleValidate | src/components/html/HtmlTools.tsx:102-123 | a valid document shows "✓ Valid HTML"; a parser error blanks the output and shows a non-empty message |
| HtmlTools.OnUseOutput | src/components/html/HtmlTools.tsx:135-139 | the output becomes the input only when there is an output and no error; nothing else changes |
| HtmlTools.HighlightOnlyWhenShown | src/components/html/HtmlTools.tsx:47-64 | the effect writes only the escaped text, and does so exactly when a dependency changed, the output is non-empty, there is no error and the operation is not validate |
| HtmlTools.HighlightEffect | src/components/html/HtmlTools.tsx:47-64 | the effect that escapes the output for display; `HighlightOnlyWhenShown` states when it runs and what it writes |
| HtmlTools.InitialConsistent | src/components/html/HtmlTools.tsx:40-45 | the initial state is consistent |
| HtmlTools.Dispatch | src/components/html/HtmlTools.tsx:47-158 | one user event, then the highlighting effect; `DispatchKeepsConsistent`, `MinifyPressedShows`, `UseOutputCopies` and `EditInputKeepsOutput` state its outcomes |
| HtmlTools.DispatchKeepsConsistent | src/components/html/HtmlTools.tsx:47-64 | whenever code is on screen, the escaped text belongs to the current output, after every event |
| HtmlTools.ShownIsOutput | src/components/html/HtmlTools.tsx:194-214 | in a consistent state the pane shows the error, or else the output itself, character for character |
| HtmlTools.MinifyPressedShows | src/components/html/HtmlTools.tsx:86-100 | after Minify the pane's escaped text is that of the minified input |
| HtmlTools.UseOutputCopies | src/components/html/HtmlTools.tsx:135-139 | "Use Output" copies the output into the input exactly when there is one and no error, and triggers no effect |
| HtmlTools.EditInputKeepsOutput | src/components/html/HtmlTools.tsx:158 | typing changes the input and nothing else |
| HtmlTools.FailureShowsMessage | src/components/html/HtmlTools.tsx:102-123 | a failed validation or format leaves an empty output, and the pane shows the message |
| Base64Codec.Btoa | src/components/base64/Base64Tools.tsx:40 | `btoa` succeeds exactly on text whose code units are all at most 0xFF |
| Base64Codec.Encode | src/components/base64/Base64Tools.tsx:40 | the Base64 encoding of section 4 of RFC 4648 over Latin-1 code units; `EncodeShape`, `EncodeLength`, `AtobBtoa` and the `Vector` lemmas state its result |
| Base64Codec.Atob | src/components/base64/Base64Tools.tsx:50 | forgiving Base64 decoding; `AtobBtoa`, `AtobUnpadded`, `AtobShape`, `AtobIgnoresWhitespace` and the `AtobRejects` lemmas state when it succeeds and what it returns |
| Base64Codec.EncodeShape | src/components/base64/Base64Tools.tsx:40 | the encoding has 4·⌈n/3⌉ characters from the alphabet of RFC 4648, then only `=` padding |
| Base64Codec.EncodeLength | src/components/base64/Base64Tools.tsx:40 | the encoding's length is 4·⌈n/3⌉, a multiple of four |
| Base64Codec.AtobBtoa | src/components/base64/Base64Tools.tsx:40-50 | decoding an encoding gives back the text |
| Base64Codec.AtobUnpadded | src/components/base64/Base64Tools.tsx:50 | decoding also accepts the encoding without its padding |
| Base64Codec.AtobShape | src/components/base64/Base64Tools.tsx:50 | a decoded text is Latin-1, three characters for every four digits |
| Base64Codec.AtobRejectsForeign | src/components/base64/Base64Tools.tsx:50 | a character outside the alphabet, white space and `=` makes `atob` throw |
| Base64Codec.AtobRejectsLength | src/components/base64/Base64Tools.tsx:50 | a length of 1 mod 4 after removing white space makes `atob` throw |
| Base64Codec.AtobRejectsInnerPadding | src/components/base64/Base64Tools.tsx:50 | an `=` before the last two characters makes `atob` throw |
| Base64Codec.AtobIgnoresWhitespace | src/components/base64/Base64Tools.tsx:50 | ASCII white space anywhere is ignored |
| Base64Codec.RemoveAsciiWhitespace | src/components/base64/Base64Tools.tsx:50 | the stripped text holds no ASCII white space and every other character as often as the text does |
| Base64Codec.RemoveAsciiWhitespaceAppend | src/components/base64/Base64Tools.tsx:50 | white-space removal of a concatenation concatenates the two removals, so order is kept |
| Base64Codec.StripPadding | src/components/base64/Base64Tools.tsx:50 | at most two trailing `=` are removed, and nothing else; when fewer than two go, no `=` is left at the end |
| Base64Codec.DecodeEncodeDigits | src/components/base64/Base64Tools.tsx:40-50 | the digits of a text decode group by group back to the text |
| Base64Codec.VectorF | src/components/base64/Base64Tools.tsx:40 | `f` encodes to `Zg==` |
| Base64Codec.VectorFo | src/components/base64/Base64Tools.tsx:40 | `fo` encodes to `Zm8=` |
| Base64Codec.VectorFoo | src/components/base64/Base64Tools.tsx:40 | `foo` encodes to `Zm9v` |
| Base64Codec.VectorFoobar | src/components/base64/Base64Tools.tsx:40 | `foobar` encodes to `Zm9vYmFy` |
| Base64Codec.BtoaRejectsWide | src/components/base64/Base64Tools.tsx:40 | `€` makes `btoa` throw |
| Base64Tools.OnEncode | src/components/base64/Base64Tools.tsx:38-46 | Encode shows the encoding with no error, or "Invalid input for Base64 encoding" with an empty output |
| Base64Tools.OnDecode | src/components/base64/Base64Tools.tsx:48-56 | Decode shows the decoded text with no error, or "Invalid Base64 string" with an empty output |
| Base64Tools.OnUseOutput | src/components/base64/Base64Tools.tsx:68-73 | a real output moves into the input and the output empties; otherwise nothing changes |
| Base64Tools.Dispatch | src/components/base64/Base64Tools.tsx:38-96 | one user event; `DispatchKeepsErrorApart`, `EncodeFailsIffWide`, `DecodeSucceeds`, `UseOutputMoves`, `ShortcutEncodes` and `EncodeUseDecode` state its outcomes |
| Base64Tools.DispatchKeepsErrorApart | src/components/base64/Base64Tools.tsx:38-73 | an error never sits beside an output, after every event |
| Base64Tools.EncodeFailsIffWide | src/components/base64/Base64Tools.tsx:38-46 | encoding fails exactly when a character is above U+00FF, and a success clears an earlier error |
| Base64Tools.EncodeOutputShape | src/components/base64/Base64Tools.tsx:38-46 | the encoded output is padded Base64 of length 4·⌈n/3⌉ |
| Base64Tools.DecodeRejects | src/components/base64/Base64Tools.tsx:48-56 | a foreign character or a bad length shows "Invalid Base64 string" and an empty output |
| Base64Tools.DecodeSucceeds | src/components/base64/Base64Tools.tsx:48-56 | decoding an encoding shows the original text and clears an earlier error |
| Base64Tools.UseOutputMoves | src/components/base64/Base64Tools.tsx:68-73 | "Use Output" changes the state exactly when there is an output and no error, and then moves the output into the input |
| Base64Tools.ShortcutEncodes | src/components/base64/Base64Tools.tsx:92-96 | Control+Enter or Meta+Enter in the input box encodes as the Encode button does; any other key press changes nothing |
| Base64Tools.EncodeUseDecode | src/components/base64/Base64Tools.tsx:38-73 | typing a Latin-1 text, then Encode, "Use Output" and Decode shows the text again, with its encoding as input |

## Left out

- Display strings: `toLocaleString` and `toUTCString` depend on the locale. The state records only the instant both are formatted from.
- The clock: `new Date()` in `useCurrentTime` is the event parameter `now`.
- The time zone: local time is UTC plus a fixed `offset` parameter. Daylight-saving changes within a session are not modelled.
- Date parsing: `new Date(s)` is modelled for the `YYYY-MM-DDTHH:mm` shape a datetime-local input produces, which the Date Time String Format of ECMA-262 reads as local time. Out-of-range fields are NaN: a month outside 1 to 12, a day above 31, a minute above 59, an hour above 23 other than `24:00`. The day is checked only against 31, not against the length of its month (engines differ here; the model takes the lenient reading): `2024-02-31T00:00` rolls over through MakeDay to 2 March 2024. `T24:00` is midnight at the end of that day. Every other string is NaN in the model. That includes shapes the Date Time String Format of ECMA-262 itself defines: a time with seconds (`THH:mm:ss`, `THH:mm:ss.sss`), a date alone (`YYYY-MM-DD`, `YYYY-MM`, `YYYY`), a time with a UTC offset or `Z`, and an expanded year (`+YYYYYY-…`). A datetime-local input with its default step produces none of these. The implementation-specific fallback formats that engines also accept are not modelled either.
- The `catch` branches "Invalid date format" and the escaping effect's fallback to the raw output cannot be reached: `new Date` and `String.prototype.replace` do not throw. The model has no such branch.
- Number rounding: `parseInt` results and products like seconds × 1000 are exact integers. Beyond 2^53 JavaScript would round them, so inputs of more than about 16 digits are not modelled faithfully.
- Strings are sequences of code points. `btoa`'s check on UTF-16 code units agrees for every character below U+10000; surrogate pairs are not modelled.
- prettier and `DOMParser`: formatting and validation are outside the model. Their outcomes arrive as event parameters (`FormatDone`, `ValidateDone`).
- The clipboard, the `copied` flag and its timer, the tab selection, and Prism highlighting are not modelled. The highlighted text is modelled as the escaped string that Prism receives.
- The other widgets of the repository (JSON, SQL, diff) and the app pages are not part of this model.
- HtmlMinify.DropTagGaps: its own contract only bounds the length. `DropTagGapsRemovesGap` states the gap it deletes, and `DropTagGapsKeepsText`, `DropTagGapsKeepsSpacesPlain` and `DropTagGapsWithoutSpace` state that nothing else changes.
