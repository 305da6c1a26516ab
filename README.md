# P1 smart-meter telegram pipeline in Dafny

This project models the acquisition pipeline of a P1 smart-meter reader, from
the character stream sent by the meter to one decoded record per telegram. The
telegram format is the one of the DSMR P1 Companion Standard (section 6.2,
"Representation of P1 telegrams"). Identifiers are OBIS codes (IEC 62056-61).

The pipeline has four stages:

1. **Framing** (`Framing`, `telegrams()` in `p1-helpers.js`).
   - One buffer lives for the whole stream, and each chunk is appended to it.
   - While the buffer holds a `!` with 4 characters after it, the extractor emits
     `(text through the '!', those 4 characters)`.
   - It then drops the 2 line-end characters that follow and keeps the rest.
   - `FrameExtractor` is the stateful extractor: a class whose `Feed` method runs
     the `while` loop.
   - `Extract` is the function that specifies one pass of that loop.
   - The lemmas show how the output depends on the way the stream is cut into
     chunks.
2. **Checksum filter** (`Checksum`, `index.js:81-84`).
   - A frame passes when `crc16(telegram) === parseInt(checksum, 16)`.
   - `ParseIntHex` follows the steps of `parseInt(string, 16)` in section 19.2.5
     of ECMA-262, with the result kept as an exact integer (see Left out).
   - The CRC is a function parameter.
3. **Value parsers** (`Values`).
   - `parseValue` reads `(number*unit)` groups. With a unit of A, kW, kWh, m3 or
     V it gives an exact decimal; otherwise it gives the integer part.
   - `parseTimestamp` reads `(YYMMDDhhmmssX)` groups: year 20YY, with a UTC
     offset of 2 hours for `S`/`s` and 1 hour for `W`/`w`.
4. **Decoding** (`Obis`, `Decoder`).
   - The rows of a telegram are its lines without the two header lines and the
     closing line.
   - Each row gives an identifier and its `(...)` groups. The `extractKeyValue`
     switch turns them into record fields.
   - The records of the known rows are merged left to right, and a later field
     overwrites an earlier one.

JavaScript throws become `Err(Fault)` values:

- a row with a known identifier but no groups (`values` is `null`); a row with an unknown identifier is dropped whatever its groups;
- a missing group;
- a group that does not match its regular expression;
- `reduce` over no records.

Each of these ends the decoding of the telegram.

## Model

| member | source | states |
|---|---|---|
| Framing.FrameExtractor.constructor | p1-helpers.js:28 | The buffer starts empty. Nothing has been fed or emitted. |
| Framing.FrameExtractor.Feed | p1-helpers.js:31-43 | Appends the chunk. Returns exactly the frames of one loop pass over the old buffer plus the chunk, and keeps what that pass leaves. Keeps `Valid`: the buffer never holds a `!` with 4 characters after it. While no chunk has ended inside a line end, the frames emitted so far and the buffer are what one pass over the whole stream gives. |
| Framing.TakeFrames | p1-helpers.js:34-43 | The `while` loop. It returns the frames and the remaining buffer of `Extract`. The remaining buffer is settled, and every frame is well formed. |
| Framing.LoopStep | p1-helpers.js:36-41 | One turn of the loop. The three `slice` calls cut the next frame and line end. The remaining buffer is the one the loop invariant expects. |
| Framing.Extract | p1-helpers.js:35-41 | Specifies one pass of the loop. There is one skipped line end per frame, and what is left is never longer than the buffer. |
| Framing.SliceStep | p1-helpers.js:39-41 | When the loop condition holds, `slice(0, pos+1)`, `slice(pos+1, pos+5)`, `slice(pos+5, pos+7)` and `slice(pos+7)` are the text through the `!`, the 4 checksum characters, the line end (up to 2 characters) and the rest. |
| Framing.CutParts | p1-helpers.js:39-41 | Those four pieces put back together give the buffer. |
| Framing.ExtractIdle | p1-helpers.js:35-37 | If no `!` has 4 characters after it, nothing is emitted and the buffer is kept as it is. |
| Framing.ExtractUnfold | p1-helpers.js:36-41 | Proof step. The first frame is the text up to and including the first `!` plus the next 4 characters. Extraction goes on from `pos + 7`, or from the empty string when the buffer is shorter. |
| Framing.ExtractFirst | p1-helpers.js:36-41 | Proof step. The same as one frame followed by the extraction of the rest. |
| Framing.ExtractWellFormed | p1-helpers.js:36-41 | Every telegram ends in `!` and has no other `!`. Every checksum has 4 characters. At most 2 characters are skipped after each checksum. When the loop stops, no `!` in the buffer has 4 characters after it. |
| Framing.ExtractConsumes | p1-helpers.js:33-42 | The buffer is exactly t1+c1+d1+…+tk+ck+dk followed by what is left. Frames come out in stream order. |
| Framing.ExtractShortLast | p1-helpers.js:37-41 | Every skipped line end except the last has 2 characters. A short last one means nothing is left in the buffer. |
| Framing.ExtractCons | p1-helpers.js:36-41 | A buffer that starts with a well-formed frame and its line end gives that frame first, then the frames of the rest. |
| Framing.ExtractAppend | p1-helpers.js:33-42 | Cutting the stream into two chunks changes nothing, as long as every frame of the first chunk found its whole line end. |
| Framing.ExtractAppendFull | p1-helpers.js:33-42 | When both parts have whole line ends, so does the stream they make together. |
| Framing.FeedKeepsAlignment | p1-helpers.js:33-42 | For an aligned extractor, a chunk whose frames all find their line ends adds to the whole-stream frames exactly what `Feed` emits. |
| Framing.AppendUnderFrame | p1-helpers.js:36-41 | Text appended after a complete frame and line end leaves that frame and its cut unchanged. |
| Framing.FullLineEndsTail | p1-helpers.js:37-41 | Whole line ends throughout imply the first frame has its 2 characters and the rest also has whole line ends. |
| Framing.ChunkBoundaryMatters | p1-helpers.js:37-41 | The as-written counterexample. A chunk that ends right after a checksum has its frame emitted with nothing skipped. The line end of the next chunk then opens the next telegram (`"\r\n" + t2`). Fed as one chunk, the same text gives `t2`. |
| Framing.FrameAtEnd | p1-helpers.js:37-41 | A frame at the very end of the buffer is emitted without waiting for its line end. |
| Framing.LineEndOpens | p1-helpers.js:36-41 | A buffer that starts with a leftover line end emits a telegram that starts with that line end. |
| Framing.TwoFrames | p1-helpers.js:36-41 | Two frames with their line ends in one chunk come out as the two intended telegrams. |
| Framing.LoopDone | p1-helpers.js:35-38 | Proof step. When the loop condition fails, what has been collected is the whole extraction, and the buffer is what is left. |
| Framing.IdleAppend | p1-helpers.js:33-37 | A buffer that emits nothing, with a chunk appended, extracts as that buffer's result followed by an extraction of the rest plus the chunk. |
| Framing.WaitingIdle | p1-helpers.js:37 | Proof step. Under the corrected condition, a buffer with no complete frame and line end emits nothing and is kept as it is. |
| Framing.WaitingFirst | p1-helpers.js:36-41 | Proof step. Under the corrected condition, the first frame and its 2-character line end come first, then the extraction of the rest. |
| Framing.WaitingLoopDone | p1-helpers.js:35-38 | Proof step. When the corrected loop stops, what has been collected is the whole corrected extraction. |
| Framing.ExtractWaiting | p1-helpers.js:37 | The corrected extraction, which waits for the line end (`pos <= length - 7`). There is one line end per frame, and what is left is never longer than the buffer. |
| Framing.ExtractWaitingAppend | p1-helpers.js:33-42 | The corrected extraction does not depend on chunking, for every split of the stream. |
| Framing.WaitingAgrees | p1-helpers.js:37 | The corrected and the as-written extraction agree on every stream in which each frame finds its whole line end. |
| Framing.TakeCompleteFrames | p1-helpers.js:34-43 | The corrected loop. It returns the frames and the remaining buffer of `ExtractWaiting`. The remaining buffer holds no complete frame. |
| Framing.WaitingLoopStep | p1-helpers.js:36-41 | One turn of the corrected loop keeps its invariant. |
| Framing.WaitingExtractor.Feed | p1-helpers.js:31-43 | The corrected extractor. For any chunking, the emitted frames and the buffer always equal one waiting extraction over the whole stream. |
| Checksum.ParseIntHex | index.js:82 | `parseInt(checksum, 16)`. Its properties are stated by `ParseParts`, `ParseHexDigits`, `ParseStopsAtNonHex`, `ParseSkipsSpace`, `ParseSignedPrefixed`, `ParseNaN` and `Hex4RoundTrip`. |
| Checksum.TrimStart | index.js:82 | Skips the leading white space and line terminators; the result is never longer than the text. `TrimStartSpec` says exactly what is skipped. |
| Checksum.Unprefixed | index.js:82 | Drops an optional sign and then an optional `0x`/`0X`; the result is never longer than the text. `ParseSignedPrefixed` states its use. |
| Checksum.HexPrefix | index.js:82 | The digits `parseInt` reads: a prefix of hexadecimal digits, never longer than the text. `HexPrefixSpec` says it is the longest such prefix. |
| Checksum.ParseParts | index.js:82 | Proof step. `parseInt(s, 16)`: skip leading white space, apply the sign, drop `0x`, read the longest hexadecimal prefix. |
| Checksum.TrimStartSpec | index.js:82 | What remains after the skipped prefix starts with a non-space, and everything skipped was white space or a line terminator. |
| Checksum.HexPrefixSpec | index.js:82 | The digits read are a prefix of the text, and the character after them is not a hexadecimal digit. |
| Checksum.HexPrefixAll | index.js:82 | A text of hexadecimal digits is read whole. |
| Checksum.HexPrefixStops | index.js:82 | Reading stops at the first character that is not a hexadecimal digit. |
| Checksum.StartsWithHex | index.js:82 | A text that starts with a hexadecimal digit (and not `0x`) loses nothing before the digits are read. |
| Checksum.ParseHexDigits | index.js:82 | A run of hexadecimal digits reads as its value. |
| Checksum.ParseStopsAtNonHex | index.js:82 | Trailing text after the digits is ignored. |
| Checksum.ParseSkipsSpace | index.js:82 | Leading white space does not change the result. |
| Checksum.ParseSignedPrefixed | index.js:82 | A sign and a `0x`/`0X` prefix are taken into account. |
| Checksum.ParseNaN | index.js:82 | Text that starts with anything else gives NaN. |
| Checksum.Hex4 | index.js:82 | A 16-bit value is written as exactly 4 hexadecimal digits. |
| Checksum.Hex4RoundTrip | index.js:82 | A 16-bit value written as 4 hexadecimal digits reads back as itself. |
| Checksum.HexValue4 | index.js:82 | The value of 4 hexadecimal digits, digit by digit. |
| Checksum.Accepts | index.js:81-83 | The filter predicate `crc16(telegram) === parseInt(checksum, 16)`. Its properties are stated by `AcceptsHex`, `AcceptsRendered` and `RejectsNaN`. |
| Checksum.AcceptsHex | index.js:81-83 | A frame with a hexadecimal checksum passes if and only if the CRC of its telegram equals the checksum's value. |
| Checksum.AcceptsRendered | index.js:81-83 | A frame whose checksum is the CRC written in 4 hexadecimal digits passes. |
| Checksum.RejectsNaN | index.js:81-83 | A checksum that `parseInt` cannot read never passes. |
| Checksum.Validated | index.js:81-84 | The filter plus `pluck(0)`. It never yields more telegrams than frames. |
| Checksum.ValidatedSound | index.js:81-84 | Every telegram that goes on comes from a frame that passes. |
| Checksum.ValidatedComplete | index.js:81-84 | Every frame that passes has its telegram go on. |
| Checksum.ValidatedAppend | index.js:81-84 | The filter works frame by frame and keeps their order. |
| Checksum.ValidatedWellFormed | index.js:80-84 | Every telegram that goes on ends in `!` and has no other `!`. |
| Values.MatchValue | p1-helpers.js:4 | `value.match(VALUE_REGEX)`. Its properties are stated by `MatchValueText` and `MatchValueIsText`, which together make it the inverse of `ValueText`. |
| Values.ParseValue | p1-helpers.js:11-24 | `parseValue`. Its properties are stated by `ParseValueDecimal`, `ParseValueWhole`, `ParseValueDotted`, `ParseValueInteger`, `IntegerPartIsFloor` and `ParseValueRejects`. |
| Values.ParseTimestamp | p1-helpers.js:6-9 | `parseTimestamp`. Its properties are stated by `TimestampRoundTrip`, `TimestampIsText` and `ParseTimestampRejects`. |
| Values.MatchValueText | p1-helpers.js:4 | `VALUE_REGEX` matches a written `(number)` or `(number*unit)` and captures that number and unit. |
| Values.MatchValueIsText | p1-helpers.js:4 | Everything the pattern matches is such a written group. |
| Values.ParseValueDecimal | p1-helpers.js:13-19 | For the units A, kW, kWh, m3 and V, every number, with or without a point, gives the exact decimal its digits denote, with as many digits after the point as were written. |
| Values.ParseValueWhole | p1-helpers.js:13-19 | A whole number under one of those units, such as `(002*A)`, gives that number with no digits after the point. |
| Values.ParseValueDotted | p1-helpers.js:13-19 | A number written `ip.fp` under one of those units gives the decimal `ip.fp` exactly. |
| Values.DotNumber | p1-helpers.js:4 | `ip.fp` is a number whose integer and fraction digits are `ip` and `fp`. |
| Values.ParseValueInteger | p1-helpers.js:20-22 | For any other unit, or none, the result is the integer part only. |
| Values.IntegerPartIsFloor | p1-helpers.js:22 | That integer is the written number rounded down. |
| Values.ParseValueRejects | p1-helpers.js:12 | A group the pattern does not match throws. |
| Values.StampText | p1-helpers.js:3 | Writes a timestamp group the way `DATE_REGEX` expects: 15 characters in parentheses, ending in the zone letter. |
| Values.TimestampRoundTrip | p1-helpers.js:3-8 | A written timestamp reads back as its fields, with year 20YY. The offset is 2 hours for `S`/`s` and 1 hour for `W`/`w`. |
| Values.TimestampIsText | p1-helpers.js:3-8 | Every group `DATE_REGEX` matches is the written form of the fields it yields. |
| Values.TwoBack | p1-helpers.js:7 | Each pair of digits is the written form of its field. |
| Values.ParseTimestampRejects | p1-helpers.js:7 | A group `DATE_REGEX` does not match throws. |
| JsString.IndexOf | index.js:23 | `indexOf` gives -1 or a position that holds the character. |
| JsString.IndexOfFirst | index.js:23 | No earlier position holds that character, and with -1 no position does. |
| JsString.Slice | index.js:19 | `slice` with in-range bounds is the substring, and with crossed bounds it is empty. |
| JsString.Position | index.js:19 | A `slice` bound is clamped into the string, and a bound inside the string is kept. |
| JsString.SliceFrom | index.js:24 | `slice(start)` with an in-range start is the suffix, and past the end it is empty. |
| JsString.IndexOfAppend | p1-helpers.js:33-36 | Appending text does not move the first `!` already in the buffer. |
| JsString.SplitCrlf | index.js:19 | `split("\r\n")` gives at least one piece. `SplitJoin`, `JoinSplit` and `SplitSingle` make it the inverse of joining with CR LF. |
| JsString.SplitPiecesNoCrlf | index.js:19 | No piece that `split("\r\n")` returns contains CR LF. |
| JsString.SplitSingle | index.js:19 | Text without CR LF splits into itself alone. |
| JsString.SplitJoin | index.js:19 | Splitting joined lines at CR LF gives back the lines. |
| JsString.JoinSplit | index.js:19 | Joining the pieces of a split gives back the text. |
| JsString.NatText | p1-helpers.js:92 | A number is written in decimal digits that denote it. |
| Obis.Code | p1-helpers.js:91 | `+key.slice(4, -5)` on a 10-character identifier: the single digit at position 4. The per-phase lemmas (`PowerIn1` to `Voltage3`) state its value for each identifier. |
| Obis.Fields | p1-helpers.js:59-121 | The switch: the fields each case builds, in the order written, with the computed tariff and phase names. `FieldsAreReference` proves it equal to the table written out by hand. |
| Obis.Apply | p1-helpers.js:62-119 | Building the object literal left to right; the first parser that throws ends it. Its properties are stated by `ApplyNone`, `ApplyNames`, `ApplyTwo` and `ApplyFirstFault`. |
| Obis.ExtractKeyValue | p1-helpers.js:59-121 | `extractKeyValue(key, values)`. Its properties are stated by `UnknownKey`, `MissingValuesThrows`, `ExtractNames`, `GasReading`, `GasTimestampFirst` and `NoMatchThrows`. |
| Obis.Group | p1-helpers.js:62 | `values[i]`. A `null` list throws; a missing group is `undefined`, and parsing it throws. |
| Obis.Tariff | p1-helpers.js:75 | The tariff is `low` if and only if the identifier ends in `1`, and `high` otherwise. |
| Obis.FieldsAreReference | p1-helpers.js:59-121 | For every identifier, the switch gives exactly the fields of a table written out by hand. |
| Obis.EnergyInLow | p1-helpers.js:73-76 | One case of `FieldsAreReference`, which is proved from these per-identifier lemmas. `1-0:1.8.1` is `energy:in:low`. |
| Obis.EnergyInHigh | p1-helpers.js:73-76 | One case of `FieldsAreReference`, which is proved from these per-identifier lemmas. `1-0:1.8.2` is `energy:in:high`. |
| Obis.EnergyOutLow | p1-helpers.js:79-82 | One case of `FieldsAreReference`, which is proved from these per-identifier lemmas. `1-0:2.8.1` is `energy:out:low`. |
| Obis.EnergyOutHigh | p1-helpers.js:79-82 | One case of `FieldsAreReference`, which is proved from these per-identifier lemmas. `1-0:2.8.2` is `energy:out:high`. |
| Obis.PowerIn1 | p1-helpers.js:88-92 | One case of `FieldsAreReference`, which is proved from these per-identifier lemmas. The digit 2 of code 21 (`key.slice(4, -5)`), halved, gives `power:in:phase-1`. |
| Obis.PowerIn2 | p1-helpers.js:88-92 | One case of `FieldsAreReference`, which is proved from these per-identifier lemmas. The digit 4 of code 41, halved, gives `power:in:phase-2`. |
| Obis.PowerIn3 | p1-helpers.js:88-92 | One case of `FieldsAreReference`, which is proved from these per-identifier lemmas. The digit 6 of code 61, halved, gives `power:in:phase-3`. |
| Obis.PowerOut1 | p1-helpers.js:98-102 | One case of `FieldsAreReference`, which is proved from these per-identifier lemmas. The digit 2 of code 22, halved, gives `power:out:phase-1`. |
| Obis.PowerOut2 | p1-helpers.js:98-102 | One case of `FieldsAreReference`, which is proved from these per-identifier lemmas. The digit 4 of code 42, halved, gives `power:out:phase-2`. |
| Obis.PowerOut3 | p1-helpers.js:98-102 | One case of `FieldsAreReference`, which is proved from these per-identifier lemmas. The digit 6 of code 62, halved, gives `power:out:phase-3`. |
| Obis.Current1 | p1-helpers.js:105-109 | One case of `FieldsAreReference`, which is proved from these per-identifier lemmas. The digit 3 of code 31 (`key.slice(4, -5)`), less one and halved, gives `current:phase-1`. |
| Obis.Current2 | p1-helpers.js:105-109 | One case of `FieldsAreReference`, which is proved from these per-identifier lemmas. The digit 5 of code 51, less one and halved, gives `current:phase-2`. |
| Obis.Current3 | p1-helpers.js:105-109 | One case of `FieldsAreReference`, which is proved from these per-identifier lemmas. The digit 7 of code 71, less one and halved, gives `current:phase-3`. |
| Obis.Voltage1 | p1-helpers.js:112-116 | One case of `FieldsAreReference`, which is proved from these per-identifier lemmas. The digit 3 of code 32, less one and halved, gives `voltage:phase-1`. |
| Obis.Voltage2 | p1-helpers.js:112-116 | One case of `FieldsAreReference`, which is proved from these per-identifier lemmas. The digit 5 of code 52, less one and halved, gives `voltage:phase-2`. |
| Obis.Voltage3 | p1-helpers.js:112-116 | One case of `FieldsAreReference`, which is proved from these per-identifier lemmas. The digit 7 of code 72, less one and halved, gives `voltage:phase-3`. |
| Obis.ReferenceKeys | p1-helpers.js:60-120 | The table lists exactly the identifiers of the switch. |
| Obis.FirstGroupZero | p1-helpers.js:60-120 | Every identifier reads its first field from group 0. |
| Obis.UnknownKey | p1-helpers.js:60-120 | `extractKeyValue` gives `undefined` if and only if the identifier is not in the switch. |
| Obis.ApplyNone | p1-helpers.js:62 | Without a group list, building the object throws. |
| Obis.MissingValuesThrows | p1-helpers.js:59-62 | A known identifier with `values === null` throws. |
| Obis.ApplyNames | p1-helpers.js:59-121 | An object whose fields all parse has exactly the names of its fields. |
| Obis.ExtractNames | p1-helpers.js:59-121 | A recognised row gives exactly the fields the table lists for it. |
| Obis.ApplyTwo | p1-helpers.js:68-71 | Two fields that both parse give both, and a later one wins a shared name. |
| Obis.GasReading | p1-helpers.js:67-71 | `0-1:24.2.1` gives both `gas:timestamp` from group 0 and `gas:in` from group 1. |
| Obis.GasTimestampFirst | p1-helpers.js:67-71 | The gas timestamp is parsed first. If it fails, that throw wins whatever group 1 holds. |
| Obis.ApplyFirstFault | p1-helpers.js:59-121 | A first field that throws stops the object being built. |
| Obis.NoMatchThrows | p1-helpers.js:7-12 | A known identifier whose group 0 does not match its pattern throws. |
| Decoder.Rows | index.js:19 | `telegram.split("\r\n").slice(2, -1)`. `RowsOfLines` and `ShortTelegram` state what it gives. |
| Decoder.RowId | index.js:23 | `row.slice(0, row.indexOf("("))`. `RowRoundTrip` and `RowWithoutParen` state what it gives. |
| Decoder.RowText | index.js:24 | `row.slice(row.indexOf("("))`. `RowRoundTrip` and `RowWithoutParen` state what it gives. |
| Decoder.AllGroups | index.js:24 | The matches of the global `/\(([^)]*)\)/g`, left to right. `FirstGroup`, `AllGroupsAreGroups`, `GroupAhead` and `GroupsRoundTrip` state what it matches. |
| Decoder.Groups | index.js:24 | `match` with a global pattern: `null` when nothing matches. `GroupsRoundTrip` and `OneCharNoGroups` state what it gives. |
| Decoder.RowGroups | index.js:22-25 | The group list of a row. `RowRoundTrip` and `RowWithoutParen` state what it gives. |
| Decoder.Lookup | index.js:26 | `extractKeyValue(...pair)` for one row. `CollectOne` and `UnknownRowIgnored` state its effect on the result. |
| Decoder.RowsOfLines | index.js:19 | A telegram made of two header lines, rows and a closing line gives back exactly those rows. |
| Decoder.TelegramLines | index.js:19 | Every text of at least three lines is its first two lines, its rows and its last line joined with CR LF, none of them holding CR LF. With `RowsOfLines` this describes `Rows` for every telegram. |
| Decoder.ShortTelegram | index.js:19 | A text with at most three lines has no rows. |
| Decoder.FirstGroup | index.js:24 | The first match runs from the first `(` to the first `)` after it, and it is a group. |
| Decoder.AllGroupsStep | index.js:24 | Proof step. After a match, the search goes on from its end. |
| Decoder.AllGroupsAreGroups | index.js:24 | Every match is `(`, text without `)`, then `)`. |
| Decoder.GroupAhead | index.js:24 | A group at the front of the text is matched first. |
| Decoder.GroupsRoundTrip | index.js:24 | Values without `)`, written as groups, are matched back one by one in order. |
| Decoder.RowRoundTrip | index.js:22-25 | A row made of an identifier without `(` followed by groups splits back into that identifier and those groups. |
| Decoder.RowWithoutParen | index.js:23-24 | A row without `(` has as its identifier the row minus its last character, and its groups are `null`. |
| Decoder.OneCharNoGroups | index.js:24 | A text of at most one character matches nothing. |
| Decoder.Results | index.js:26 | `.map` gives one lookup per row. |
| Decoder.ResultsAppend | index.js:26 | The lookups of two runs of rows are the lookups of each, one after the other. |
| Decoder.Collect | index.js:26-27 | The first throw of the `map`, otherwise the records after `.filter(Boolean)`. `CollectAppend`, `CollectOne` and `CollectNone` state its properties. |
| Decoder.Lookups | index.js:22-27 | The records of the known rows, or the first throw. `LookupsAppend`, `UnknownRowIgnored`, `FirstFaultWins` and `NoKnownRows` state its properties. |
| Decoder.CollectAppend | index.js:26-27 | Across two runs of lookups, the first throw wins. Otherwise the records of the second follow those of the first. |
| Decoder.CollectOne | index.js:26-27 | One row gives its record when it is known, nothing when it is not, and its throw when it throws. |
| Decoder.LookupsAppend | index.js:22-27 | The same for runs of rows. |
| Decoder.UnknownRowIgnored | index.js:26-27 | A row the table does not know can be inserted anywhere without changing the result. |
| Decoder.FirstFaultWins | index.js:26 | The first row that throws decides the outcome, whatever follows it. |
| Decoder.CollectNone | index.js:27 | Lookups that are all `undefined` give no records. |
| Decoder.NoKnownRows | index.js:26-28 | Rows the table does not know give no records. |
| Decoder.Fold | index.js:28 | `reduce((a, b) => Object.assign({}, a, b))` over at least one record. `FoldLastWins` proves it equal to the last-holder reference, and `FoldAppend` and `ShadowedRecord` state how it composes. |
| Decoder.Merge | index.js:28 | `reduce` without an initial value: no records is a throw, otherwise `Fold`. `DecodeLines` states both cases. |
| Decoder.LastHolder | index.js:28 | The reference for the merge: the last record that holds a field. |
| Decoder.LastHolderIsLast | index.js:28 | No later record holds that field. |
| Decoder.FoldLastWins | index.js:28 | The merge holds a field if and only if some record does, with the value from the last record that holds it. |
| Decoder.FoldAppend | index.js:28 | Merging two runs of records is merging their merges. |
| Decoder.Overwritten | index.js:28 | Fields that are all overwritten later have no effect. |
| Decoder.ShadowedRecord | index.js:28 | A record whose fields are all overwritten later does not change the merge. |
| Decoder.Decode | index.js:19-28 | The whole decoding of one telegram. `DecodeLines` states its result for every telegram made of header lines, rows and a closing line. |
| Decoder.DecodeLines | index.js:19-28 | A telegram decodes to the first row's throw. With no known rows it decodes to the `reduce` throw; otherwise it gives the last-write-wins merge of the known rows' records. |

## Left out

- The TCP socket, its lifecycle logging and the `setImmediate` reconnect loop (`index.js:90-105`) are network I/O.
- The Express routes, `app.listen` and the `meanBy` averages with `toFixed` (`index.js:32-76`) are HTTP plumbing and floating point.
- `crc16` comes from a package outside this model. It is the parameter `crc: string -> int`.
- The rxjs `ReplaySubject` window, `share` and `take` are library behaviour.
- UTF-8 decoding of each chunk (`index.js:79`) is not modelled. Chunks are strings of characters.
- Strings are sequences of Unicode characters, while JavaScript strings are UTF-16 code units. `length`, `indexOf` and `slice` (`p1-helpers.js:36-41`, `index.js:19-24`) count code units. For text with characters outside the Basic Multilingual Plane, the checksum and the skipped line end would be cut at other places than the model says. Meter telegrams are ASCII.
- `Checksum.ParseIntHex`: returns the exact integer. Section 19.2.5 of ECMA-262 returns a double: above 2^53 the value is rounded, and `"-0"` gives -0, which the model reads as 0. Neither matters for a 4-digit checksum compared with `===`.
- `Values.TimestampRoundTrip`: the model keeps the fields as written plus the UTC offset. JavaScript `Date` construction, its time zone arithmetic and what it does with out-of-range fields (month 13, say) are left out.
- `Values.ParseValueDecimal`: the model gives the exact decimal. The rounding of `parseFloat` to a binary double is left out.
- `Values.ParseValueInteger`: the model gives the exact integer. The loss of precision of `parseInt` above 2^53 is left out.
- The environment configuration (`index.js:10-16`) is not modelled.
- `Obis.FieldsAreReference`: the phase is computed with integer division. JavaScript divides as floating point, but every listed code gives an exact quotient.
- An exception that escapes the frame loop and ends the stream (`p1-helpers.js:44-46`) is not modelled. The modelled operations cannot throw.

Two places where the code does not do what a P1 meter reader would be expected to do; the model follows the code:

- **Failed lines abort the telegram.** A bad line would be expected to drop only that line. In the code a row with an unknown identifier is dropped, whatever its groups. A row with a known identifier throws when it has no groups, lacks a group or has a group its pattern rejects. A telegram with no known row also throws, from `reduce`. The model returns these throws as `Err` (`Obis.NoMatchThrows`, `Decoder.FirstFaultWins`, `Decoder.DecodeLines`).
- **Chunking changes the output.** The output should not depend on how the stream is cut into chunks. The code gives that only while no chunk ends inside a line end (see Findings).

## Findings

| source | as written | input that shows it | evidently intended | confidence | as-written member | corrected member |
|---|---|---|---|---|---|---|
| p1-helpers.js:37 | A frame is cut once 4 characters follow the `!` (`pos <= length - 5`). The buffer then continues at `pos + 7`, so a line end that has not yet arrived is not skipped. It becomes the start of the next telegram. | A chunk that ends right after a checksum (`t1 + c1`), then a chunk `"\r\n" + t2 + c2 + "\r\n"`. The second telegram comes out as `"\r\n" + t2`, so its CRC no longer matches and the telegram is lost. Sent in one chunk, the same text gives `t2`. | Wait until the 2 line-end characters are in the buffer too (`pos <= length - 7`). The output is then the same however the stream is chunked. | not executed | Framing.ChunkBoundaryMatters | Framing.ExtractWaitingAppend |
