# Duration strings of `Time` (timeutils.py), in Dafny

`Time` represents time values as whole milliseconds. This project models its
duration-string codec and proves it correct:

- the unit table: the magnitudes `MS`, `S`, `M`, `H`, `D`, `W`, the suffix map
  `_FORMATTERS` and its descending ordering `_FMT_ARR`;
- the parser `from_duration_string`, which reads strings such as `"3h 5m"` or
  `"2d,8h,49m,3s"`;
- the formatter `format_duration`, which writes a millisecond count as
  `"1h 45m"`.

Modules:

- `Text` (text.dfy). The string operations the codec is built on:
  - Python's `str.strip()`, `str.split(d)` for a one-character separator,
    `d.join(...)`;
  - `int(digits)` and `'%d' % n`;
  - a scanner counting the leading characters of one class (whitespace,
    ASCII digit, ASCII letter).
- `Units` (units.dfy). The unit table:
  - the suffix lookup `Lookup`, shown to answer exactly as the map
    `Formatters` does;
  - `FmtArr`, shown to be that map's pairs sorted by descending magnitude.
- `DurationParse` (parse.dfy). The parser:
  - the specification function `Parse`, which is strip, split, then a
    left-to-right `Total` over the segment outcomes;
  - the method `FromDurationString`, with the source's loop, proved equal
    to it;
  - lemmas for the accept and reject conditions, order independence, and
    parsing of joined tokens.
- `DurationFormat` (format.dfy). The formatter:
  - the greedy decomposition `Decompose` and the formatted string `Format`;
  - the method `FormatDuration`, with the source's loop over the unit table,
    proved equal to `Format` and to read back as the absolute value;
  - lemmas for the shape of the output;
  - `FormatDurationAsWritten`, the code exactly as written, which fails on
    every input (see Findings).
- `DurationExamples` (examples.dfy). The docstring examples and the refused
  inputs, each proved.

A parse error is a value rather than an exception. It carries one of three
kinds, which follow the three `raise` statements:

- `NoMatch(segment)`: the pattern does not match at the start of the segment
  (the message at timeutils.py:142 names the input and the segment; the
  model keeps only the segment);
- `PartialMatch(segment)`: the match does not cover the whole segment, the
  "Check delimiter" case. The model keeps the segment here, while the
  message at timeutils.py:144 names only the whole input;
- `UnknownUnit(unit)`: the letters are not a suffix of the table.

In the code, only the partial match gives the delimiter hint. A segment that
does not match at all gets its own message. The model follows the code.

## Model

| member | source | states |
|---|---|---|
| Units.Magnitudes | timeutils.py:21-35 | The magnitudes are exactly ms=1, s=1000, m=60000, h=3600000, d=86400000, w=604800000, and the map's keys are the six suffixes. |
| Units.LookupIsFormatters | timeutils.py:28-35 | The suffix lookup answers exactly as `_FORMATTERS.get` does on every string: the magnitude for a key, nothing otherwise (exact, so case-sensitive, comparison). |
| Units.FmtArrIsFormatters | timeutils.py:39-41 | `_FMT_ARR` has six entries, each a pair of the map with its magnitude, and every suffix of the map occurs in it. |
| Units.FmtArrDescending | timeutils.py:39-41 | `_FMT_ARR` is in strictly descending magnitude, each magnitude divides the one before it, and the last is 1 ms. |
| Units.FmtArrValues | timeutils.py:39-41 | `_FMT_ARR` written out: w, d, h, m, s, ms with their millisecond values, in that order. |
| Units.FmtArrEntry | timeutils.py:39-41 | Every entry of `_FMT_ARR` has a positive magnitude and is found by the lookup with that magnitude. |
| Units.FmtArrStep | timeutils.py:39-41 | Proof helper: neighbouring entries of `_FMT_ARR` strictly decrease. |
| Units.SuffixShape | timeutils.py:28-37 | Every suffix is a non-empty run of ASCII letters without a space, so the pattern can match it and the formatter's separator never occurs in a token; every magnitude is positive. |
| Text.CountLeadingIs | timeutils.py:37 | A run of `k` characters of a class, followed by the end or a character outside it, is the longest such prefix (the greedy `\d+` and `[a-zA-Z]+`). |
| Text.StripSlice | timeutils.py:139 | `strip()` keeps a slice of the input with only whitespace before and after it, and the result neither starts nor ends with whitespace. |
| Text.StripUnchanged | timeutils.py:139 | `strip()` leaves a string without whitespace at either end unchanged. |
| Text.SplitPieces | timeutils.py:139 | No piece of `split(d)` contains `d`. |
| Text.JoinSplit | timeutils.py:139 | Joining the pieces of `split(d)` with `d` gives back the string. |
| Text.SplitJoin | timeutils.py:139 | `split(d)` undoes joining with `d` when no piece contains `d`. |
| Text.SplitWithout | timeutils.py:139 | A string without the separator splits into itself alone. |
| Text.SplitAfter | timeutils.py:139 | The first piece of a split ends at the first separator. |
| Text.JoinSnoc | timeutils.py:107 | Joining one more piece appends the separator and the piece. |
| Text.JoinEnds | timeutils.py:107 | A joined string starts with the first piece's first character and ends with the last piece's last character. |
| Text.NatToString | timeutils.py:104 | `'%d' % v` is a non-empty run of ASCII digits that `int()` reads back as `v`, with a leading zero only for 0. |
| Units.Lookup | timeutils.py:147 | `_FORMATTERS.get(unit_str)`: the magnitude of the suffix, or nothing (see `Units.LookupIsFormatters`). |
| Text.TrimEnd | timeutils.py:139 | The string without its trailing whitespace: a prefix of it, followed only by whitespace, not ending in whitespace. |
| Text.Strip | timeutils.py:139 | `str.strip()`: the string without the whitespace at either end (see `Text.StripSlice`). |
| Text.Split | timeutils.py:139 | `str.split(d)` for a one-character `d`: the pieces between separators, empty ones included, at least one (see `Text.JoinSplit`, `Text.SplitJoin`). |
| Text.Join | timeutils.py:107 | `d.join(ts)`: the pieces with one `d` between neighbours. |
| Text.DecimalValue | timeutils.py:149 | `int(value_str)` on ASCII digits: the decimal value (see `Text.NatToString`, which it reads back). |
| DurationParse.SegmentValue | timeutils.py:141-149 | One turn of the loop: the no-match error, the wrong-delimiter error, the unknown-unit error, or `int(digits) * magnitude` (see `DurationParse.SegmentErrorKinds`, `DurationParse.SegmentOfToken`). |
| DurationParse.Parse | timeutils.py:139-150 | `from_duration_string(s, delim=delim)`: strip, split, and the first failing segment's error or the sum of the values (see `DurationParse.TotalOutcome`). |
| DurationFormat.Abs | timeutils.py:95-96 | The absolute value the corrected line 96 takes. |
| DurationFormat.Decompose | timeutils.py:97-104 | The greedy parts: for each unit from `FmtArr[t]` on, the count `n // value` when positive, continuing with `n % value` (see `DurationFormat.DecomposeSum`, `DurationFormat.DecomposeDescending`, `DurationFormat.DecomposeParts`). |
| DurationFormat.Render | timeutils.py:104 | The token `f"{'%d' % v}{unit}"` of one part. |
| DurationFormat.Terminated | timeutils.py:98-104 | The buffer after the loop: each part's token followed by a space (see `DurationFormat.TerminatedIsJoin`). |
| DurationFormat.Format | timeutils.py:93-107 | What the corrected `format_duration` returns: "0ms" without parts, else the tokens joined by single spaces (see `DurationFormat.RoundTrip`, `DurationFormat.FormatTokens`). |
| DurationParse.MatchPrefix | timeutils.py:37 | A match of `(\d+)([a-zA-Z]+)` has non-empty groups and ends within the segment. |
| DurationParse.MatchPrefixGroups | timeutils.py:37 | The pattern matches exactly when the segment starts with digits followed by a letter; group 1 is all digits, group 2 all letters, and group 2 stops at the first non-letter. |
| DurationParse.SegmentErrorKinds | timeutils.py:140-144 | A segment is refused with the no-match error exactly when the pattern does not match its start, and with the wrong-delimiter error exactly when it matches but not the whole segment; an accepted segment is one full match. |
| DurationParse.SegmentValueShape | timeutils.py:140-149 | An accepted segment starts with a digit and ends with a letter; a match error names the segment; an unknown-unit error names the segment's trailing letters, which are not a suffix of the table. |
| DurationParse.SegmentOfToken | timeutils.py:145-149 | A segment of digits then letters is worth `int(digits)` times the magnitude when the letters are a suffix (compared exactly), and is refused with that unit otherwise. |
| DurationParse.TokenValue | timeutils.py:145-149 | The token `'%d' % n` followed by a suffix of magnitude `m` is accepted with value `n * m`. |
| DurationParse.TokenIsClean | timeutils.py:104 | Such a token contains no space and has no whitespace at either end. |
| DurationParse.FromDurationString | timeutils.py:115-150 | The loop returns exactly `Parse`: the first failing segment's error, else the sum of the segments' values. |
| DurationParse.TotalStep | timeutils.py:139-149 | One pass of the loop: the running total after one more segment is the segment's error, or the total plus `int(digits) * magnitude`. |
| DurationParse.SumStep | timeutils.py:149 | Adding one more outcome to a successful running total. |
| DurationParse.SumAppend | timeutils.py:139-149 | Accumulating two runs of outcomes one after the other: the first run's error, else the second's, else the sum. |
| DurationParse.SumOk | timeutils.py:139-150 | The accumulation succeeds exactly when every outcome does, and its result is then at least each outcome's value (so it is non-negative and never decreases). |
| DurationParse.FirstError | timeutils.py:139-148 | When every earlier outcome succeeded, the first failing one is the error reported. |
| DurationParse.SumError | timeutils.py:139-148 | A failed accumulation reports the error of the first failing outcome: every outcome before it succeeds. |
| DurationParse.TotalOutcome | timeutils.py:139-150 | Parsing segments succeeds exactly when every segment is accepted; otherwise it fails with the first refused segment's error. |
| DurationParse.TotalAppend | timeutils.py:139-149 | Parsing concatenated segment lists: the first list's error, else the second's, else the sum of both totals. |
| DurationParse.TotalPermutation | timeutils.py:139-149 | The segments' order does not matter: any reordering succeeds exactly when the original does, with the same total. |
| DurationParse.ParseReorder | timeutils.py:139-149 | Two strings whose split segments are the same multiset both parse or both fail, and give the same total. |
| DurationParse.ParseJoined | timeutils.py:139 | Segments joined by the delimiter, with nothing to strip, parse as the total of those segments. |
| DurationParse.TotalSingle | timeutils.py:139-149 | A single segment parses to its own outcome. |
| DurationParse.TotalCons | timeutils.py:139-149 | A first segment and then the rest: the first segment's error, else the rest's outcome plus its value. |
| DurationParse.ParseSingle | timeutils.py:139-149 | A string without the delimiter and with nothing to strip parses as that one segment. |
| DurationParse.ParseCons | timeutils.py:139-149 | A first segment, the delimiter and a rest: the first segment's error, else the rest's outcome plus its value. |
| DurationParse.TotalValues | timeutils.py:139-150 | Accepted segments have as total the sum of their values. |
| DurationParse.ParseValues | timeutils.py:139-150 | Accepted tokens joined by the delimiter parse to the sum of their values. |
| DurationFormat.FormatDuration | timeutils.py:93-107 | The loop returns exactly `Format` (the greedy parts joined by single spaces, or "0ms"), and the result reads back as the absolute value of the duration. |
| DurationFormat.FormatStep | timeutils.py:99-104 | Proof helper for the loop invariant: one turn of the loop: the parts found so far, then the decomposition of what is left, stay equal to the whole decomposition. |
| DurationFormat.TerminatedSnoc | timeutils.py:104 | Proof helper: `buf += f"{v}{unit} "` appends the part and a space. |
| DurationFormat.TerminatedIsJoin | timeutils.py:105-107 | The buffer is empty exactly when there are no parts, and `buf[:-1]` is the parts joined by single spaces. |
| DurationFormat.DecomposeParts | timeutils.py:99-104 | Every part has a count of at least 1 and a suffix of the table with its magnitude, none larger than the unit the scan starts at. |
| DurationFormat.DecomposeDescending | timeutils.py:99-104 | The parts' magnitudes strictly decrease, so each suffix occurs at most once and in table order. |
| DurationFormat.DescendingPairs | timeutils.py:99-104 | In a descending list every earlier part is larger than every later one. |
| DurationFormat.DescendingCons | timeutils.py:99-104 | Proof helper: a part larger than every part of a descending list extends it. |
| DurationFormat.DecomposeSum | timeutils.py:99-104 | The counts times the magnitudes sum to the input. |
| DurationFormat.DecomposeStep | timeutils.py:100-101 | The first unit's part is worth `duration // value * value`, and the rest is the decomposition of `duration % value`. |
| DurationFormat.DivMod | timeutils.py:100-101 | Proof helper about Dafny's `/` and `%`, which agree with Python's `//` and `%` on a non-negative duration and a positive magnitude: `n == n / m * m + n % m` with a non-negative quotient. |
| DurationFormat.DecomposeZero | timeutils.py:105-106 | Zero has no parts. |
| DurationFormat.ParseZero | timeutils.py:106 | The placeholder "0ms" reads back as 0. |
| DurationFormat.FormatZero | timeutils.py:105-106 | The result is "0ms" exactly when the duration is 0. |
| DurationFormat.FormatNegative | timeutils.py:95-96 | A negative duration formats as its absolute value. |
| DurationFormat.FormatTokens | timeutils.py:104-107 | The result splits on spaces into the rendered parts ("0ms" alone for zero) and has no whitespace at either end. |
| DurationFormat.RenderedTokens | timeutils.py:104 | Each rendered part is a token the parser accepts with the part's value, with no space in it. |
| DurationFormat.JoinedSplits | timeutils.py:107 | The parts joined by spaces split back into the rendered parts. |
| DurationFormat.JoinedParses | timeutils.py:107 | The parts joined by spaces parse to the parts' total. |
| DurationFormat.RoundTrip | timeutils.py:93-107 | For every duration, parsing the formatted string with the default delimiter gives its absolute value. |
| DurationFormat.FormatDurationAsWritten | timeutils.py:93-107 | The code as written raises (`None`) on every input: through `abs(time)` for negatives, `0 + str` when a part is found, and `len(0)` for zero. |
| DurationExamples.ParseOneHour | timeutils.py:133 | "1h" parses to 3600000. |
| DurationExamples.ParseHoursMinutes | timeutils.py:134 | "3h 5m" parses to 11100000. |
| DurationExamples.ParseCommaSeparated | timeutils.py:135 | "2d,8h,49m,3s" with the delimiter "," parses to 204543000. |
| DurationExamples.ParseOneWeek | timeutils.py:136 | "1w" parses to 604800000. |
| DurationExamples.WeekRoundTrip | timeutils.py:136 | `format_duration(from_duration_string("1w"))` is "1w". |
| DurationExamples.ParseEitherOrder | timeutils.py:139-149 | "5m 1h" and "1h 5m" both parse to 3900000. |
| DurationExamples.ParseRepeatedUnit | timeutils.py:149 | A repeated unit accumulates: "1h 2h" parses as "3h" does, to 10800000. |
| DurationExamples.ParseMissingDelimiter | timeutils.py:143-144 | "1h2m" with the space delimiter is refused with the wrong-delimiter error. |
| DurationExamples.ParseLetterFirst | timeutils.py:141-142 | "h5" is refused with the no-match error. |
| DurationExamples.ParseEmpty | timeutils.py:139-142 | The empty string is one empty segment, refused with the no-match error, whatever the delimiter. |
| DurationExamples.ParseBlank | timeutils.py:139-142 | A string of spaces strips to the empty string and is refused the same way. |
| DurationExamples.ParseDoubledDelimiter | timeutils.py:139-142 | "1h  5m" leaves an empty segment, refused with the no-match error. |
| DurationExamples.ParseUnknownUnit | timeutils.py:147-148 | "5x" is refused naming the unit "x". |
| DurationExamples.ParseUpperCaseUnit | timeutils.py:147-148 | "5H" is refused naming the unit "H": suffixes are case-sensitive. |
| DurationExamples.FormatOneWeek | timeutils.py:136 | One week formats as "1w". |
| DurationExamples.FormatHourQuarters | timeutils.py:94 | 6300000 formats as "1h 45m", the docstring's example. |
| DurationExamples.FormatOneHour | timeutils.py:97-107 | 3600000 formats as "1h". |
| DurationExamples.FormatNegativeMillis | timeutils.py:95-96 | -5 formats as "5ms". |

## Left out

- The calendar helpers `_iso8601_to_datetime`, `_datetime_to_local`, `_datetime_format`, `_datetime_to_unix_s`, `_datetime_from_unix_s`, `format`, `to_datetime` and `from_datetime` (timeutils.py:43-66, 81-90, 109-112). They wrap dateutil, tz and strftime, and the timezone data is not part of this model.
- `abs_now` (timeutils.py:68-71). It reads the wall clock and rounds a float.
- `sleep_until_sync` and `sleep_until` (timeutils.py:73-79). They block or suspend, which is concurrency and I/O.
- The `re` engine (timeutils.py:37). It is replaced by a scanner for `\d+` and `[a-zA-Z]+`. `\d` is taken as the ASCII digits only: Python's `\d` also accepts other Unicode decimal digits, which `int()` would read.
- The text of the three error messages (timeutils.py:142, 144, 148). An error is a value with its kind and the segment or unit it names.
- The `Literal[" ", ",", ":"]` hint on the delimiter (timeutils.py:116). It is not enforced at run time, so the delimiter is any single character.
- The arithmetic on durations is unbounded, as Python's `int` is, so there is no fixed-width overflow to model. The conversions between integers and decimal strings are not unbounded in the source, though; see the next line.
- Text.DecimalValue, Text.NatToString and DurationFormat.RoundTrip: from Python 3.10.7 on, `int(value_str)` (timeutils.py:149) and `'%d' % v` (timeutils.py:104) raise ValueError beyond `sys.get_int_max_str_digits()` digits (4300 by default). The model has no such limit. So a segment of more than 4300 digits parses in the model but raises in the source, and a duration with a part count of more than 4300 digits formats in the model but raises in the source. The round trip is proved for every duration of the model, and holds for the program only below that limit.
- `_FMT_ARR` is computed in the source with `sorted(..., reverse=True)`. Here it is written out as a constant, and `Units.FmtArrIsFormatters` and `Units.FmtArrDescending` prove it is that sort's result.
- The `parts < len(Time._FMT_ARR)` guard (timeutils.py:102) is modelled as written. It never fails, because each unit adds at most one part.
- `math.floor(duration // value)` (timeutils.py:100) is integer division of a non-negative duration. The model uses Dafny's `/`, which agrees with it there.

## Findings

| source | as written | input that shows it | evidently intended | confidence | as-written member | corrected member |
|---|---|---|---|---|---|---|
| timeutils.py:96 | `duration = abs(time)` takes the absolute value of the module `time`, which raises TypeError | `format_duration(-5)` | `abs(duration)`, so -5 formats as "5ms" | high; not executed | DurationFormat.FormatDurationAsWritten | DurationFormat.FormatDuration |
| timeutils.py:98,104 | `buf = 0` is an int, and `buf += f"..."` adds a str to it, which raises TypeError | `format_duration(3600000)` | `buf = ""`, so 3600000 formats as "1h" | high; not executed | DurationFormat.FormatDurationAsWritten | DurationFormat.FormatDuration |
| timeutils.py:105-106 | `len(buf)` on the int 0 raises TypeError, and `"$dms" & time` would raise as well | `format_duration(0)` | return the placeholder "0ms" | high; not executed | DurationFormat.FormatDurationAsWritten | DurationFormat.FormatDuration |
