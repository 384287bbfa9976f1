# Race data extraction engine of the karting bot, in Dafny

This project models the core of a Telegram bot for a karting track. The
core turns pages from the timing site's race archive into typed race
data:

- The **archive listing scanner** (`ArchiveParser._parse_html`, module
  `Archive`) walks the children of the `archiveData` element. It files
  race links under the date headers before them.
- The **result table scanner** (`RaceParser._parse_html`, module
  `ResultTable`) reads one `Cart` per `dataRow` of the `resultsTable`.
- The **embedded-object locator** (`_extract_js_competitors`, module
  `Locator`) finds the `jsCompetitors = {...};` literal in the page text.
  It does this with the source's two regular expressions.
- The **competitor assembler** (`_parse_competitors_json` and the
  `FullRaceInfoParser._parse_html` that feeds it, module `Assembler`)
  does four things:
  - it coerces the fields of every entry;
  - it joins each competitor with its cart's best lap;
  - it sorts the competitors stably by position;
  - it fills in the gap to the leader.
- The **binary lap decoder** (`_decode_binary_laps` and
  `_calculate_sector1`, module `BinaryLaps`) reads base64 text holding
  52-byte little-endian lap records. Base64 is decoded by module
  `Base64`, which models Python's non-validating `base64.b64decode`.
- The **time codec** (`_format_time` and `_time_string_to_ms`, module
  `TimeCodec`) converts between milliseconds and `M:SS.sss` clock text.
- The **leaderboard reduction** of `get_best_competitors` and
  `get_best_competitors_today` (module `Leaderboard`) keeps each user's
  fastest row, orders the rows by best lap and cuts the list to the limit.

Supporting modules:

- `Models` holds the records of src/models/models.py. `ParsingError`
  becomes a datatype of the error causes the core raises.
- `Wrappers` holds `Option` and `Result`, and `MapResult`, a loop that
  stops at the first failing call.
- `Text` models `str.strip()`, `str.split()` and `str.join()`.
- `Decimal` models `str(n)`, `format(n, "0wd")` and `int(text)`.
- `StableSort` models `list.sort(key=...)` and `sorted(..., key=...)` as
  a stable insertion sort. `SortByIsTheStableSort` proves that any other
  stable sort gives the same list.

The two `_parse_html` functions of the legacy top-level parsers.py are
identical to those of src/parsers/parsers.py. `Archive.ScanArchive` and
`ResultTable.ScanResultTable` model both copies.

HTML parsing is not modelled. Each scanner receives the tree already
reduced to what it reads, for example for each archive child whether it
is a date header (with the result of `strptime`), a data row (with its
first link) or something else. `json.loads` is a function parameter of
`Assembler.ParseFullRaceInfo`. Its result is a list of entries in
document order.

### Behaviour of the code worth knowing

- The start lap (number 0) gets the lap time `""`.
- Archive rows before the first date header are kept. They go into the
  first dated day.
- A header that follows a header closes an empty day, and that empty
  day is emitted. Only the final day is dropped when it has no races.
- A date header whose text does not parse still closes the open day.
  The date stays the old one, so the rows after it are filed under the
  previous date again.
- The race label is the text of the link's first child's first child
  when both exist, and the link's own text otherwise.
- The locator is not brace-depth aware. It captures from the first `{`
  to the first `}` followed by `;`. `Locator.ExtractDeclared` shows that
  nesting alone does no harm: an object literal is found whole however
  deeply its braces nest, unless a `};` occurs inside it.
- The gap is "Лидер" exactly when `pos == 1`. Every other gap is measured
  from the first competitor after sorting, whatever its position. A
  negative difference renders as `+00:00.000`, because `_format_time`
  maps every non-positive value to `00:00.000`. Nothing flags it.
- A field that `int()` rejects ends the whole call with an error, and no
  partial list is returned.
- Base64 text that does not decode gives an empty lap list, even when
  some complete blocks could have been read.
- Decoded laps are not de-duplicated. Laps with the same number stay in
  blob order.
- The best lap of a cart number comes from the last cart with that
  number in the table, because a later dictionary assignment overwrites
  an earlier one.
- `_time_string_to_ms` catches every exception, so a piece that `int()`
  rejects and a missing milliseconds piece both give 999999999. Pieces
  after the second `:`, and pieces of the seconds field after its second
  `.`, take no part in the value. A `.` that occurs only after a second
  `:` passes the `'.' in time_str` test but leaves the seconds field
  without a milliseconds piece, so the text gives 999999999.
- `int()` skips ASCII tab to carriage return, the space and non-ASCII
  whitespace around the digits, but not the separators `\x1c` to `\x1f`,
  which `str.strip()` does remove.

## Model

| member | source | states |
|---|---|---|
| TimeCodec.FormatTime | src/parsers/parsers.py:259-267 | the rendering is clock text (digits, `:`, two digits, `.`, three digits) and every non-positive duration renders as `00:00.000`; for a positive one the seconds are below 60 and the minutes have no leading zero |
| TimeCodec.FormatTimeCanonical | src/parsers/parsers.py:259-267 | the rendering is the only clock text with seconds below 60 and no leading zero in the minutes that reads back as the positive duration |
| TimeCodec.TimeStringToMs | src/database/db.py:173-195 | empty text and `-` give 999999999, and so does stripped text without both `:` and `.` |
| TimeCodec.ReadClock | src/database/db.py:180-193 | stripped text lacking `:` or `.` gives 999999999 |
| TimeCodec.ReadPieces | src/database/db.py:184-195 | a minutes or seconds piece that `int()` rejects, a missing milliseconds piece, and a milliseconds piece `int()` rejects each give 999999999 |
| TimeCodec.RejectedPiece | src/database/db.py:183-195 | text `m:s.u` with a piece that `int()` rejects gives 999999999 |
| TimeCodec.MissingMillis | src/database/db.py:183-195 | text whose `.` lies only after a second `:` has no milliseconds piece and gives 999999999 |
| TimeCodec.SeparatorInSeconds | src/database/db.py:180-195 | a field separator inside a piece makes `int()` raise, so `1:\x1c05.000` gives 999999999 |
| TimeCodec.FormatTimeRoundTrip | src/database/db.py:173-195 | reading a rendered duration back gives the duration when it is positive and 0 otherwise |
| TimeCodec.FormatTimeInjective | src/parsers/parsers.py:259-267 | distinct positive durations render as distinct texts |
| TimeCodec.ParseClock | src/database/db.py:178-191 | well-formed `m:s.u` text with digit pieces reads as `m*60000 + s*1000 + u` |
| TimeCodec.ClockPieces | src/database/db.py:184-191 | the minutes piece and the `s.u` piece of clock text give `m*60000 + s*1000 + u` |
| TimeCodec.ZeroClockReadsZero | src/database/db.py:173-195 | `00:00.000` reads back as 0 |
| Decimal.Dec | src/parsers/parsers.py:264-267 | `str(n)` is a non-empty digit string denoting `n`; it starts with `0` only when it is `"0"` |
| Decimal.DecOfMinimal | src/parsers/parsers.py:264-267 | a digit string without a leading zero is `str()` of its value |
| Decimal.ValueInjective | src/parsers/parsers.py:265-267 | digit strings of equal length and equal value are equal |
| Decimal.PyInt | src/database/db.py:185-189 | `int()` rejects blank text; what it accepts ends in a digit once its whitespace is skipped, and starts with `-` when negative |
| Decimal.PyIntRejectsStart | src/database/db.py:185-189 | text starting with a character that is not whitespace, a digit or a sign is rejected |
| Decimal.ZeroPad | src/parsers/parsers.py:265-267 | the zero-padded rendering denotes `n` and is exactly `w` long when `str(n)` is shorter |
| Decimal.ValueLeadingZeros | src/database/db.py:187-189 | leading zeros do not change the value `int()` reads |
| Decimal.PyIntOfDigits | src/database/db.py:185-189 | `int()` of any non-empty digit string is its value |
| Decimal.PyIntDec | src/database/db.py:185-189 | `int(str(n)) == n` for every `n >= 0` |
| Decimal.PyIntNegDec | src/parsers/parsers.py:212-214 | `int("-" + str(n)) == -n` |
| Text.Strip | src/parsers/parsers.py:127-129 | the strip is no longer than the text and neither starts nor ends with whitespace |
| Text.StripNotBlank | src/parsers/parsers.py:222 | text starting with a non-space character does not strip to blank |
| Text.StripSlice | src/parsers/parsers.py:127-129 | the strip is a slice of the text with only whitespace cut from each side |
| Text.StripIdempotent | src/parsers/parsers.py:127-129 | stripping twice removes nothing more than stripping once |
| Text.Split | src/database/db.py:184-187 | `split(sep)` gives one more piece than separators, and no piece holds the separator |
| Text.JoinSplit | src/database/db.py:184-187 | joining the pieces of a split on the same separator gives the text back |
| Text.SplitFirst | src/database/db.py:184-187 | the pieces of `a + sep + b` are `a` followed by the pieces of `b` when `a` has no separator |
| Base64.Decode | src/parsers/parsers.py:276 | text that decodes is ASCII, and decodes to no more bytes than it has characters |
| Base64.Run | src/parsers/parsers.py:276 | the decoding loop only appends to what it has decoded, at most one byte per character read |
| Base64.DecodeEncode | src/parsers/parsers.py:276 | decoding the encoding of any byte string gives it back |
| Base64.RunSkipsForeign | src/parsers/parsers.py:276 | a character outside the alphabet and other than `=` is ignored wherever it stands |
| Base64.DecodeRejectsNonAscii | src/parsers/parsers.py:276 | text with a non-ASCII character does not decode |
| BinaryLaps.WordRoundTrip | src/parsers/parsers.py:290-312 | a word written little-endian reads back modulo 2^32 unsigned, and as itself signed when it fits 32 bits |
| BinaryLaps.WordBytes | src/parsers/parsers.py:290-312 | any four bytes are the encoding of the word they hold, read signed or unsigned |
| BinaryLaps.ReadRecord | src/parsers/parsers.py:290-312 | every field of a record read from 52 bytes fits its 32-bit type |
| BinaryLaps.Records | src/parsers/parsers.py:280-347 | one record per complete 52-byte block, record `k` read at offset `52k` |
| BinaryLaps.TrailingBytesIgnored | src/parsers/parsers.py:283-286 | bytes after the last complete block change no record |
| BinaryLaps.ReadEncodeRecord | src/parsers/parsers.py:290-312 | reading the wire form of an in-range record gives the record back, so the reader's offsets and field order agree with the layout |
| BinaryLaps.RecordsOfEncoded | src/parsers/parsers.py:280-347 | cutting the wire form of a record list gives the list back |
| BinaryLaps.SectorSignals | src/parsers/parsers.py:321-339 | a sector is present exactly when its value is positive, and then it is canonical clock text (seconds below 60, no leading zero in the minutes) that reads back as the value |
| BinaryLaps.SignalsText | src/parsers/parsers.py:321-339 | any text with those properties is exactly the `_format_time` rendering of the value, so the sectors and lap times are pinned character for character |
| BinaryLaps.LapOf | src/parsers/parsers.py:315-340 | a start lap has lap time `""` and no first sector; another lap's time is the trusted or recomputed lap time when positive; the sectors carry exactly the positive words, each as the canonical clock text of its value |
| BinaryLaps.LapTimeSource | src/parsers/parsers.py:325-335 | a lap other than the start lap takes its time from the record when that is between 0 and 600000 ms exclusive, and from the sum of the four sectors otherwise; it is present exactly when that value is positive, and is canonical clock text that reads back as it |
| BinaryLaps.DecodeBinaryLaps | src/parsers/parsers.py:269-356 | empty or undecodable text gives no laps; otherwise one lap per complete 52-byte block, ordered by lap number |
| BinaryLaps.DecodeBinaryLapsContents | src/parsers/parsers.py:269-352 | the laps are one per complete block, ordered by lap number, a permutation of the blob's laps with equal numbers in blob order |
| BinaryLaps.DecodeFailureGivesNoLaps | src/parsers/parsers.py:354-356 | text that is not base64 gives no laps |
| BinaryLaps.DecodedStartLaps | src/parsers/parsers.py:315-324 | every decoded start lap has lap time `""` and no first sector |
| BinaryLaps.DecodedRecord | src/parsers/parsers.py:283-350 | every decoded lap is the lap of some record |
| BinaryLaps.DecodedBytes | src/parsers/parsers.py:271-276 | text that yields laps is non-empty and decodes as base64 |
| BinaryLaps.DecodeEncodedLaps | src/parsers/parsers.py:269-352 | base64 of the wire form of in-range records decodes to the records' laps, stably sorted by lap number |
| BinaryLaps.CalculateSector1 | src/parsers/parsers.py:358-367 | a first sector exists exactly when the other three are positive and the remainder is between 1000 and 120000 ms, and it is canonical clock text that reads back as that remainder |
| Locator.SkipSpaces | src/parsers/parsers.py:183 | the whitespace run from `i` ends at the first non-space character |
| Locator.OpenBrace | src/parsers/parsers.py:183 | the head of the pattern, when it matches, stops on a `{` after the start |
| Locator.OpenBraceShape | src/parsers/parsers.py:183-190 | the head matches at `p` and stops on the `{` at `b` exactly when the text between is `var`, one or more whitespace characters, `jsCompetitors`, optional whitespace, `=`, optional whitespace (without the `var` part for the bare pattern) |
| Locator.MatchAt | src/parsers/parsers.py:183-184 | the pattern matches at `p` exactly when its head finds a `{` and a `};` follows, and then the capture runs from that `{` to the first `};` |
| Locator.Search | src/parsers/parsers.py:184 | a search finds a `{...}` literal, or the pattern matches nowhere after the start |
| Locator.SearchWitness | src/parsers/parsers.py:184-187 | a search returns the match at the leftmost position where the pattern matches |
| Locator.ExtractJsCompetitors | src/parsers/parsers.py:180-196 | what the locator returns is a `{...}` literal, and it returns nothing only when neither pattern matches anywhere |
| Locator.ExtractJsCompetitorsSpec | src/parsers/parsers.py:180-196 | the locator finds nothing exactly when neither pattern matches; what it finds is a `{...}` literal, the `var` search's result when that finds one, and the bare search's result otherwise |
| Locator.ExtractFallback | src/parsers/parsers.py:189-194 | with no `var` match anywhere, a found object is the capture at the leftmost position where the bare pattern matches |
| Locator.ExtractDeclared | src/parsers/parsers.py:183-187 | a page starting `var jsCompetitors = ` yields exactly the object literal when no `}` inside it is followed by `;`, however its braces nest |
| Locator.FoundAtStart | src/parsers/parsers.py:183-187 | when the `var` pattern matches at the page start, the locator returns that capture |
| ResultTable.ScanResultTable | src/parsers/parsers.py:108-138 | a missing table is the error; otherwise one cart per data row in order, `id` empty, each field the stripped cell text or empty when the cell is missing |
| ResultTable.ReadCellStripped | parsers.py:119-121 | a field read from a cell has no surrounding whitespace |
| ResultTable.CartFieldsStripped | src/parsers/parsers.py:127-129 | every field of every scanned cart has no surrounding whitespace |
| Archive.ScanArchive | src/parsers/parsers.py:32-82 | a page without `archiveData` is the error, and a page with it scans |
| Archive.RaceNumber | src/parsers/parsers.py:64-74 | the race label has no surrounding whitespace, and is the stripped link text when the link has no child |
| Archive.Step | src/parsers/parsers.py:45-76 | one child adds exactly its linked race to the races seen so far, leaves the closed days in place, and a date is open afterwards exactly when one was before or the child is a header that parses |
| Archive.Fold | src/parsers/parsers.py:45-76 | the walk never changes a day it has closed |
| Archive.Finish | src/parsers/parsers.py:78-82 | the end of the walk keeps the closed days and adds at most one day, non-empty, holding the open races when a date is open |
| Archive.ReadAll | src/parsers/parsers.py:45-76 | each child is read on its own, in order |
| Archive.FoldKeepsRaces | src/parsers/parsers.py:45-80 | the walk loses and reorders no race; until a header parses no day is closed |
| Archive.ScanArchiveRaces | parsers.py:26-76 | once some header parses, the days hold exactly the linked rows in document order, rows before the first header included; otherwise there are no days |
| Archive.FoldRows | src/parsers/parsers.py:61-76 | a run of rows only adds their races |
| Archive.HeaderClosesDay | src/parsers/parsers.py:48-58 | a header closes the current day even when it is empty; the rows after it go under the header's date, or the old date when the text does not parse |
| Archive.FirstHeader | src/parsers/parsers.py:42-58 | the first header that parses opens the first day and closes none |
| Archive.RowsBeforeFirstHeader | parsers.py:36-74 | rows before the only header are filed with the rows after it under its date |
| Archive.TwoDaysTrailingHeader | src/parsers/parsers.py:78-82 | two dated headers with their rows and a trailing header with none give exactly two days |
| Assembler.PyStr | src/parsers/parsers.py:210-215 | `str()` of text is the text, of null `None`, of a boolean `True` or `False`, and of an integer its shortest decimal digits, with `-` when negative, which `int()` reads back as the integer |
| Assembler.IntNumText | src/parsers/parsers.py:206-218 | a numeric `num` equals a digit-string cart number exactly when that number has the same value and no leading zero, so the JSON number 7 finds the cart "7" and not "07" |
| Assembler.PyIntOf | src/parsers/parsers.py:212-214 | `int()` of an integer is itself, of a boolean 1 or 0, of text what `int()` of the text gives, and of null or a list or object raises |
| Assembler.BestLapOf | src/parsers/parsers.py:203-206 | a non-empty best lap is that of some cart with the number |
| Assembler.IntTextRoundTrip | src/parsers/parsers.py:210-214 | `int(str(i)) == i` for every integer, so a number read as `num` keeps its value |
| Assembler.BestLapOfLast | src/parsers/parsers.py:203-206 | a cart number's best lap is that of the last cart with the number |
| Assembler.BestLapOfAbsent | src/parsers/parsers.py:218 | a number no cart has gets the best lap `""` |
| Assembler.DisplayName | src/parsers/parsers.py:222 | the name when it is not blank, otherwise `Карт #` and the number |
| Assembler.Made | src/parsers/parsers.py:208-242 | an entry that is not an object fails as invalid JSON; every failure is invalid JSON or a field `int()` rejects; a competitor keeps the entry's key and has no gap yet |
| Assembler.MadeFields | src/parsers/parsers.py:208-242 | an object entry fails exactly when `int()` rejects `pos`, `laps` or `theor_lap`; otherwise those fields are what `int()` reads from the entry (0 when missing), `num`, `name` and `binary_laps` are the entry's values through `str()` (`""` when missing), and the laps are the decoding of `binary_laps` |
| Assembler.MadeBestLap | src/parsers/parsers.py:203-218 | the best lap is that of the last cart with the competitor's number, and `""` when no cart has it or there is no cart list |
| Assembler.MadeLabel | src/parsers/parsers.py:222 | the display name is never blank: it is the name unless that is blank, and `Карт #` and the number otherwise |
| Assembler.MadeTheorLap | src/parsers/parsers.py:221 | the rendered theoretical lap reads back as the lap when it is positive and as 0 otherwise, and is canonical clock text for a positive lap |
| Assembler.MadeAllSuccess | src/parsers/parsers.py:208-242 | the loop completes exactly when every entry makes a competitor, and then holds them in entry order |
| Assembler.MadeAllFailure | src/parsers/parsers.py:208-214 | a failing loop fails with the error of its first bad entry |
| Assembler.Gap | src/parsers/parsers.py:250-255 | the gap is the leader mark exactly at position 1, and otherwise starts with `+` |
| Assembler.GapReadsBack | src/parsers/parsers.py:253-255 | away from position 1 the text after the `+` reads back as the difference when it is positive and as 0 otherwise; a difference that is not positive renders as `+00:00.000` |
| Assembler.GapsFrom | src/parsers/parsers.py:250-255 | every competitor gets its gap to the given leader lap, in place and with nothing else changed |
| Assembler.FillGaps | src/parsers/parsers.py:247-255 | filling gaps changes nothing but the gap, which is measured from the first competitor |
| Assembler.GapToLeader | src/parsers/parsers.py:247-255 | every assembled competitor has its gap column: the leader mark exactly at position 1, the gap from the first competitor otherwise |
| Assembler.FillGapsSorted | src/parsers/parsers.py:245-255 | filling gaps keeps the order by position |
| Assembler.ParseCompetitorsJson | src/parsers/parsers.py:198-257 | the assembly succeeds exactly when every entry makes a competitor, and then lists one competitor per entry, ordered by position |
| Assembler.ParseCompetitorsJsonSorted | src/parsers/parsers.py:244-245 | the result is ordered by position, a permutation of the entries' competitors, with equal positions in entry order |
| Assembler.ParsedFromEntry | src/parsers/parsers.py:208-255 | every assembled competitor is the competitor of some entry with its gap filled in |
| Assembler.ParseCompetitorsJsonError | src/parsers/parsers.py:208-214 | the assembler fails only for an entry that is not an object or for a field `int()` rejects |
| Assembler.NoEntries | src/parsers/parsers.py:248 | an empty object gives an empty list |
| Assembler.ParseFullRaceInfo | src/parsers/parsers.py:164-178 | a page where the locator finds nothing fails for want of the object |
| Assembler.ParseFullRaceInfoCases | src/parsers/parsers.py:164-178 | the page fails for want of the object exactly when no assignment matches; otherwise a JSON error, or the assembly of what `json.loads` made |
| StableSort.SortBy | src/parsers/parsers.py:245 | the sort is ordered and a permutation of its input |
| StableSort.SortByStable | src/parsers/parsers.py:350 | elements of equal key keep their original order |
| StableSort.SortByIsTheStableSort | src/parsers/parsers.py:245 | any ordered list that keeps each key's elements in their original order is this sort's result |
| StableSort.SortByDistinct | src/database/db.py:221 | sorting keeps distinct tags distinct |
| Wrappers.MapResultSuccess | src/parsers/parsers.py:208-242 | a loop of fallible calls completes exactly when every call succeeds, holding their values in order |
| Wrappers.MapResultFailure | src/parsers/parsers.py:208-242 | a failing loop fails with the error of its first failing call |
| Leaderboard.Select | src/database/db.py:202-206 | the query returns at most the stored rows |
| Leaderboard.SelectMembers | src/database/db.py:202-206 | a row is selected exactly when it is stored and passes the `WHERE` test |
| Leaderboard.LapMs | src/database/db.py:214-215 | a NULL best lap sorts as 999999999 |
| Leaderboard.Find | src/database/db.py:217 | a user is found at an index holding their row, and not found only when no row is theirs |
| Leaderboard.BestOfIsBest | src/database/db.py:211-218 | the scan finds each user's best row, and finds nothing for a user without rows |
| Leaderboard.UsersDistinct | src/database/db.py:211-218 | the grouping lists each user once |
| Leaderboard.UsersHas | src/database/db.py:211-218 | a user is listed exactly when some row is theirs |
| Leaderboard.UsersPrefix | src/database/db.py:211-218 | users already seen keep their place as more rows come in |
| Leaderboard.Group | src/database/db.py:211-218 | the grouping holds no more rows than it was given |
| Leaderboard.GroupRepresents | src/database/db.py:211-218 | the loop leaves one row per user in order of first appearance, each the user's best row |
| Leaderboard.PyPrefix | src/database/db.py:223 | `s[:limit]` is a prefix of `s` of length `min(limit, len)`, and counts from the end for a negative limit |
| Leaderboard.BoardShape | src/database/db.py:220-223 | the board is ordered by best lap, one row per user, as long as the limit allows; users tied on time stay in order of first appearance |
| Leaderboard.BoardRow | src/database/db.py:210-223 | every board row is its user's best row |
| Leaderboard.BoardSelected | src/database/db.py:198-223 | every board row is a stored row the query accepts |
| Leaderboard.GetBestCompetitors | src/database/db.py:198-223 | the all-time board is ordered by best lap, lists each user at most once, and is no longer than a non-negative limit |
| Leaderboard.GetBestCompetitorsToday | src/database/db.py:226-252 | today's board is ordered by best lap, lists each user at most once, and is no longer than a non-negative limit |
| Leaderboard.BestCompetitorsListed | src/database/db.py:198-223 | the all-time board lists only stored rows whose best lap is not NULL, empty or `-` |
| Leaderboard.BestCompetitorsTodayListed | src/database/db.py:226-252 | today's board lists only stored rows dated today whose best lap is not NULL, empty or `-` |

## Left out

- The page fetch wrappers (`parse` of each parser) are left out. They only do network I/O and turn every exception into a `ParsingError`. The model returns a `Result`, whose error value names the cause.
- BeautifulSoup parsing is left out because it is an HTML library. The scanners receive the tree reduced to the parts they read.
- `datetime.strptime` of a date header becomes the optional date the header carries, because it is a library call.
- `json.loads` becomes the `loads` parameter of `Assembler.ParseFullRaceInfo`. Decoding JSON is not part of this core.
- Python floats are abstracted. A float field carries what `int()` makes of it and its `str()` text, with no floating-point arithmetic.
- Python's `int()` of a string is modelled for ASCII digits only. Unicode decimal digits and the limit of 4300 digits are not modelled.
- The `struct.error` handler in `_decode_binary_laps` is left out. It cannot fire, because the loop only reads complete 52-byte blocks.
- The log messages printed on a bad date header and on a decode failure are left out. They are output only.
- The SQL query is left out. Its `WHERE` clause becomes the `Listed` predicate, and its rows are taken in the order the database returns them.
- Stored rows: `user_id` is taken as an integer and `best_lap` as text or NULL, as the schema stores them. Other column types are not modelled.
- The default `limit` of 20 is left out because Dafny has no default arguments. The limit is always passed.
- The bot's user interface, the database writes and the scripts are left out. They only call the core.
