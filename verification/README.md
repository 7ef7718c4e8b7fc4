# plotter core in Dafny

A model of the parsing and aggregation half of `plotter/plotter.py`. This is
the script that turns an event log into a timeline of high-level activities.

- **`parseDate`.** It reads a `datime(y,m,d,h,mi,s,us,...)` tuple. The tuple is
  split on `(`, `)` and `,`. Only the all-digit pieces are kept, and the last
  of them is dropped. The rest are passed to `datetime.datetime`.
- **`extractData`.** It turns each log line into one comma-joined text line.
  - Blank lines are skipped.
  - Lines whose first character is `%` are skipped.
  - Any other line must hold two date tuples.
  - The stripped line is cut on `( ) , [ ]` into tokens.
  - Tokens 1..3 and 5..6 are kept.
  - Each date is shifted by three hours and appended as Unix seconds, printed
    like `str(float)` prints them.
  - A line that raises aborts the whole run.
- **The high-level branch of `plotEventStream`.** The extracted lines are read
  back as seven columns. The aggregation below is the intended one, not the
  one as written: `Activity.Aggregate` uses the corrected `Representative`
  and `MinStart`. The code as written differs from it in two ways, shown
  under "## Findings".
  - The `hla` rows are grouped by (type, user, value, start).
  - Each group's representative is its longest row. Ties go to the earliest
    row.
  - The earliest representative start becomes the origin of the time axis.
  - Representatives are filed under the key `type(user, value)`, and each list
    is sorted by start time.

Modules, one file each:

| file | module | contents |
|---|---|---|
| `wrappers.dfy` | `Wrappers` | `Option`, `Result` |
| `text.dfy` | `Text` | Python's `strip` and `isdigit`; `re.split` on a character class and `join`, with both round trips; clamped slicing; `str(float)` of whole seconds and its reading back; "pieces occur in order" |
| `datime.dfy` | `Datime` | the non-greedy `findall`; `parseDate`; the arity and range rules of `datetime.datetime`; the proleptic Gregorian ordinal; adding three hours with its overflow; Unix seconds |
| `extract.dfy` | `Extract` | tokens; one line of `extractData`; the generator drained by its reader |
| `activity.dfy` | `Activity` | the `hla` filter, grouping, representative choice, running minimum, per-key lists, aggregation; both source quirks as written |
| `pipeline.dfy` | `Pipeline` | reading extracted lines back as rows; the whole high-level path |

Treatment of the environment:

- `time.mktime` converts local time, and the time zone is a parameter of the
  environment. Here it is taken to be UTC, so Unix seconds count from
  1970-01-01 00:00 in the proleptic Gregorian calendar.
- Python 2.7's `time.mktime` also applies its year rule, with
  `time.accept2dyear` at its default (set):
  - years 100..1899 raise `ValueError`;
  - years 0..68 are read as 2000..2068, and 69..99 as 1969..1999;
  - years from 1900 on are taken as they are.
  `Datime.MktimeYear` states this rule and `Datime.ShiftedTimestamp` applies
  it, with its own error for the rejected years.
- The file being read is a sequence of lines.
- `np.genfromtxt` is modelled as a reader that demands seven comma-separated
  columns whose last two are numbers.

## Model

| member | source | states |
|---|---|---|
| Text.Strip | plotter/plotter.py:16 | the result is a window of the input: only whitespace lies before and after it, and it neither starts nor ends with whitespace |
| Text.StripEmptyIff | plotter/plotter.py:23 | a line is blank after `strip` exactly when every character is whitespace |
| Text.Split | plotter/plotter.py:28 | `re.split` on a character class, as at lines 16 and 28: one piece more than there are delimiters, and no piece holds a delimiter; `Text.SplitNoDelimiter` and `Text.SplitAtDelimiter` fix every piece |
| Text.SplitNoDelimiter | plotter/plotter.py:28 | a text without delimiters splits into itself alone |
| Text.SplitAtDelimiter | plotter/plotter.py:28 | a delimiter-free text, one delimiter, then the rest split into that text followed by the pieces of the rest |
| Text.JoinSplit | plotter/plotter.py:42-43 | joining the pieces of `re.split` on one delimiter with that delimiter gives back the text |
| Text.SplitJoin | plotter/plotter.py:34 | splitting a join of delimiter-free pieces gives back exactly those pieces |
| Text.PySlice | plotter/plotter.py:30-31 | a Python slice clamps to the sequence: its length is `min(b,len)-a` (0 past the end), and element i is `xs[a+i]` |
| Text.TimestampTextRoundTrip | plotter/plotter.py:32-33 | the printed timestamp reads back as the same number, including negative seconds |
| Datime.FindFrom | plotter/plotter.py:24-25 | every match is `datime(`, then text without `)` or newline, then `)`; there is no match exactly when the pattern matches at no position |
| Datime.FindFromScan | plotter/plotter.py:24-25 | the matches from position p are the texts at increasing, non-overlapping offsets where the pattern matches, each running to the first `)` after it; every position from p where the pattern matches is one of them or lies inside one |
| Datime.FindAllScan | plotter/plotter.py:24-25 | `findall` scans leftmost: no match starts before the first one, between the end of a match and the start of the next, or after the last one |
| Datime.ScannedLeftmost | plotter/plotter.py:24-25 | any scan that passes over no match position has no match position in front of its first match, in a gap between matches, or after its last match |
| Datime.FindAllInOrder | plotter/plotter.py:24-25 | the matches are non-overlapping pieces of the line, in the order they occur |
| Datime.DigitPiecesIndices | plotter/plotter.py:16 | the kept texts are the stripped pieces that are all digits, in the order of the pieces: kept text t comes from piece idx[t], the idx increase, and every all-digit piece is among them |
| Datime.KeepDigitsIndices | plotter/plotter.py:16 | the same for keeping the pieces whose image under any mapping is all digits |
| Datime.FindAll | plotter/plotter.py:24-25 | `findall` over the whole line: every match has the pattern's shape, and there is none exactly when the pattern matches nowhere |
| Datime.ParseDate | plotter/plotter.py:15-18 | `parseDate` gives a valid datetime only from 3 to 7 components, and each of its fields is the component at that place, or 0 when omitted |
| Datime.ComponentsOfDatimeText | plotter/plotter.py:15-18 | `Datime.Components` (line 16 with the `[:-1]` of line 17): for any tuple `datime(x1,..,xn,last)`, the components passed on are exactly x1..xn: the last number is dropped |
| Datime.NegativePieceSkipped | plotter/plotter.py:16 | a piece written with a minus sign is not a digit piece, so it is dropped rather than passed on |
| Datime.FromComponents | plotter/plotter.py:17 | success means 3 to 7 arguments, a valid date and time, and each field equal to its argument (0 when omitted); more than 8 arguments is an arity error; otherwise a given field among the first seven above 2147483647 (a C `int`) is an overflow error; otherwise fewer than 3 arguments is an arity error; a range error needs 3 to 8 fitting arguments; the tzinfo error happens only with 8 arguments |
| Datime.WideFieldOverflows | plotter/plotter.py:17 | `datime(3000000000,1)` and `datime(2024,1,3000000000)` raise the overflow error, not an arity or a range error, while nine arguments are an arity error whatever their width |
| Datime.TzinfoCheckedLast | plotter/plotter.py:17 | with 8 integers the eighth is taken as tzinfo and checked after the ranges: a first seven that overflow or are out of range fail the same way, a good date and time is the tzinfo type error |
| Datime.FromComponentsOfFields | plotter/plotter.py:17 | every valid date and time is produced from its own fields |
| Datime.ParseDateRoundTrip | plotter/plotter.py:15-18 | a tuple that writes out all seven fields of a valid datetime, then one more number, parses back to that datetime |
| Datime.NextDay | plotter/plotter.py:32-33 | the next calendar day has ordinal plus one and the same time of day; it fails only on 9999-12-31 |
| Datime.AddThreeHours | plotter/plotter.py:32-33 | adding three hours gives a valid datetime exactly 10800 seconds later; it overflows exactly from 9999-12-31 21:00 onwards |
| Datime.MktimeYear | plotter/plotter.py:32-33 | `time.mktime` rejects negative years and years 100..1899; it reads 0..68 as 2000..2068 and 69..99 as 1969..1999, and keeps years from 1900 on |
| Datime.TwoDigitYear | plotter/plotter.py:32-33 | a two-digit year is read as a year 2000 or 1900 years later with the same leap rule, so its day count moves by exactly those years' days |
| Datime.TwoDigitYearDate | plotter/plotter.py:32-33 | a valid date in a two-digit year stays valid when its year is read that way, and its Unix seconds move by the days of 2000 or 1900 years |
| Datime.ShiftedTimestamp | plotter/plotter.py:32-33 | the shift overflows exactly from 9999-12-31 21:00; `mktime` fails exactly when the shifted year is 100..1899; otherwise the result is the date's Unix seconds plus 10800, plus the 2000 or 1900 years added to a two-digit year |
| Datime.ShiftedTimestampModern | plotter/plotter.py:32-33 | for years 1900..9998 the shifted timestamp is the date's Unix seconds plus 10800 |
| Datime.EpochOrdinalIsEpoch | plotter/plotter.py:32-33 | 1970-01-01 00:00 is Unix second 0 |
| Datime.YearLength | plotter/plotter.py:32-33 | the day count before a year grows by 365, or by 366 in a leap year |
| Datime.UnixSecondsMonotone | plotter/plotter.py:32-33 | a strictly earlier valid date and time has strictly smaller Unix seconds |
| Extract.Tokens | plotter/plotter.py:28 | every token is non-empty, contains no `( ) , [ ]` and has no edge whitespace |
| Extract.TokensInLineOrder | plotter/plotter.py:28 | the tokens are non-overlapping pieces of the line, in line order |
| Extract.PieceTokenOffsets | plotter/plotter.py:28 | the non-empty stripped pieces of a split text lie at offsets in it; every character that is neither whitespace nor a delimiter lies inside one of them; a delimiter lies between any two consecutive ones |
| Extract.TokensLayout | plotter/plotter.py:28 | the same for the tokens of a line: they cover every such character of the line, and consecutive tokens are separated by a delimiter |
| Extract.TokensNonEmpty | plotter/plotter.py:28-29 | a line holding a character that is neither whitespace nor a delimiter has a token |
| Extract.Fields | plotter/plotter.py:30-31 | the kept fields are tokens 1..3 then 5..6; there are at most five, and exactly five iff there are at least seven tokens |
| Extract.ExtractLine | plotter/plotter.py:22-34 | a line yields nothing exactly when it is skipped (`Extract.IsSkipped`, line 23): blank after strip, or its raw first character is `%` |
| Extract.ExtractLineRow | plotter/plotter.py:25-34 | a yielded row holds the line's kept tokens and the shifted Unix seconds of the line's first two date tuples, and every field is a token |
| Extract.ExtractLineYields | plotter/plotter.py:25-34 | the converse of `ExtractLineRow`: a processed line yields exactly the row it describes |
| Extract.ExtractLineSucceeds | plotter/plotter.py:25-34 | a processed line is extracted exactly when it has two date tuples that parse and whose timestamps can be made, and then it yields a row |
| Extract.ExtractLineErrors | plotter/plotter.py:25-33 | a processed line raises the error of the first statement that fails, in source order: missing first tuple, bad first date, missing second tuple, bad second date, start timestamp, end timestamp |
| Extract.ExtractLineNeedsTwoDates | plotter/plotter.py:25-27 | a processed line with fewer than two tuples fails: no tuple gives the first-date error, and one tuple gives the second-date error unless it is itself malformed |
| Extract.IndentedPercentIsNotComment | plotter/plotter.py:23 | ` %x` is not a comment: it is processed and fails on its missing date |
| Extract.ExtractText | plotter/plotter.py:22-34 | a line yields nothing iff it is skipped; it fails exactly when the line's extraction fails; a yielded text is `Extract.RowText` of the line's row: the comma-joined fields and timestamps, then a newline |
| Extract.Drain | plotter/plotter.py:20-34 | reading the generator succeeds iff no line raises; otherwise it fails with the first raising line's error; on success it yields one text per yielding line, each from some line |
| Extract.DrainOrder | plotter/plotter.py:20-34 | on success text k is what line idx[k] yields, the idx increase, and every yielding line is among them: the texts come in file order, one per yielding line |
| Extract.YieldingCounts | plotter/plotter.py:22-23 | when a line yields nothing exactly when it is skipped, the lines that yield are the processed ones |
| Extract.ExtractData | plotter/plotter.py:20-34 | on success there is one text per processed line, and each ends in a newline |
| Extract.ExtractDataFails | plotter/plotter.py:20-34 | the run succeeds iff every line's extraction succeeds; a failure carries the error of the first failing line |
| Extract.ExtractDataSucceeds | plotter/plotter.py:20-34 | the whole file is extracted exactly when every processed line is well formed |
| Extract.ExtractDataOrder | plotter/plotter.py:20-34 | on success text k is the row of processed line idx[k], joined and ended by a newline; the idx increase and cover every processed line |
| Pipeline.ReadRow | plotter/plotter.py:42-43 | a row that is read joins back, with commas, to the line without its newline |
| Pipeline.RecordOf | plotter/plotter.py:42-44 | seven columns give a record exactly when both timestamps parse, and that record's columns are the seven texts |
| Pipeline.RowTextColumns | plotter/plotter.py:30-34 | an extracted line's columns are its fields, then the two timestamps |
| Pipeline.ExtractedColumns | plotter/plotter.py:30-34 | an extracted line has at most seven columns, and exactly seven iff the log line has at least seven tokens |
| Pipeline.ReadRowOfRowText | plotter/plotter.py:34-44 | reading back an extracted line with five fields gives the record it was written from; with fewer fields the row is rejected |
| Pipeline.AllRead | plotter/plotter.py:42-43 | all rows are read, in order, or the error names the first line that is not a row |
| Pipeline.ReadRows | plotter/plotter.py:42-44 | the same for the text lines: on success record i is what line i reads as |
| Pipeline.ReadExtracted | plotter/plotter.py:28-44 | an extracted line is read back as a record exactly when its log line has at least seven tokens, and that record holds tokens 1..3 and 5..6 and the two shifted timestamps |
| Pipeline.Plot | plotter/plotter.py:42-99 | the plot fails only on a column mismatch or on no activity; a column mismatch happens exactly when some text is not a row; when all are rows, the result is the aggregation of the records they read as |
| Pipeline.HighLevel | plotter/plotter.py:41-99 | an extraction error is passed through unchanged; otherwise the extracted texts are plotted; success needs at least one processed line |
| Pipeline.HighLevelColumnMismatch | plotter/plotter.py:28-44 | after a good extraction, the reader rejects the file exactly when some processed line has fewer than seven tokens |
| Pipeline.HighLevelRecords | plotter/plotter.py:20-99 | when every processed line has seven tokens, record k is the record of processed line idx[k], in file order and covering them all, and the result is the aggregation of those records; the only failure left is no activity |
| Pipeline.HighLevelNoActivity | plotter/plotter.py:42-99 | when every processed line has seven tokens, the run fails for lack of activity exactly when no processed line has `hla` as its token 1, the input type |
| Pipeline.NoneProcessed | plotter/plotter.py:22-23 | no line is processed exactly when every line is skipped |
| Activity.HlaRows | plotter/plotter.py:52 | the filtered rows are all `hla`, every `hla` row is kept, and nothing else is added |
| Activity.HlaRowsIndices | plotter/plotter.py:52 | the filtered rows are the rows at the `hla` positions, picked in increasing order: the filter keeps the file order |
| Activity.HlaRowsOfAllHla | plotter/plotter.py:52 | filtering rows that are all `hla` changes nothing |
| Activity.Distinct | plotter/plotter.py:52 | the distinct keys have no duplicates and the same elements as the input |
| Activity.Positions | plotter/plotter.py:56-61 | a key's positions are exactly the rows with that key, in increasing order |
| Activity.SortBy | plotter/plotter.py:71 | the sort returns a permutation of its input, ordered by the key |
| Activity.SortSorted | plotter/plotter.py:99 | sorting an already ordered list changes nothing |
| Activity.FirstLongest | plotter/plotter.py:71-74 | the chosen row is a longest one, and every row before it is strictly shorter |
| Activity.HeadOfLongestFirst | plotter/plotter.py:71-74 | the head of the stable sort by decreasing duration is the first longest row |
| Activity.RepresentativeIsFirstLongest | plotter/plotter.py:66-74 | `Activity.Representative`, the head of the group sorted by decreasing duration: a group's representative has the group's key and maximal duration; every earlier row of the group is strictly shorter |
| Activity.RepresentativeInFile | plotter/plotter.py:52-74 | a group's representative is the record at some position of the file with the group's key; no record with that key lasts longer, and every one earlier in the file lasts strictly less |
| Activity.FirstLongestInFile | plotter/plotter.py:52-74 | a first longest row among the `hla` rows of a group is a first longest row of that group in the whole file |
| Activity.RepresentativesPerGroup | plotter/plotter.py:56-74 | there is one representative per distinct group key, in key order; no row is kept twice; there are none iff there are no `hla` rows |
| Activity.MinStart | plotter/plotter.py:64-78 | the minimum is absent iff there are no starts; it is one of the starts and at most every start |
| Activity.MinStartAsWrittenAgrees | plotter/plotter.py:75-78 | without a zero start, the running minimum as written equals the true minimum |
| Activity.MinStartZeroIsLost | plotter/plotter.py:75-78 | for starts 0 then 5, the code as written ends with 5 while the minimum is 0 |
| Activity.Collect | plotter/plotter.py:83-87 | the key is `Activity.KeyName`, `type(user, value)`; the dictionary has a key iff some representative carries that name, and holds that name's representatives in order |
| Activity.Instances | plotter/plotter.py:83-99 | each key's list is sorted by start and is a permutation of the representatives that carry the key |
| Activity.EachRepresentativeOnce | plotter/plotter.py:83-87 | each distinct representative appears exactly once in its key's list |
| Activity.InstancesTotal | plotter/plotter.py:83-87 | the lists together hold as many rows as there are representatives |
| Activity.SomeRepresentativeIff | plotter/plotter.py:52-74 | there is a representative iff some record is `hla` |
| Activity.Aggregate | plotter/plotter.py:49-99 | aggregation fails exactly when no record is `hla`; on success the lists are the representatives filed by key |
| Activity.AggregateInstances | plotter/plotter.py:49-99 | each group's representative is filed exactly once, every key has a list, the total list length equals the number of groups, and every list is sorted by start |
| Activity.AggregateMinStartBound | plotter/plotter.py:64-78 | the time origin is at most every representative's start |
| Activity.AggregateMinStartAttained | plotter/plotter.py:64-78 | the time origin is some representative's start |
| Activity.RepresentativeAsWritten | plotter/plotter.py:52-68 | the code as written: group positions computed among the `hla` rows are used to index all rows |
| Activity.AsWrittenAgreesWhenAllHla | plotter/plotter.py:52-68 | when every row is `hla`, the code as written picks the intended representative |
| Activity.AsWrittenPicksForeignRow | plotter/plotter.py:52-68 | with a `pos` row in front of an `hla` row, the code as written picks the `pos` row for the `hla` group |

## Left out

- Drawing. This means `timelines`, the colours, the tick lists, and the
  `hlines` calls that follow line 99. They are rendering and compute nothing
  that is returned.
- The `isInput` branch (the low-level plot). It is drawing and falls outside
  this core.
- `main` and the `Process` plumbing. They are process management.
- File I/O. The log file is given as a sequence of lines.
- The time zone of `time.mktime`. Local time is taken to be UTC, because the
  zone depends on the environment.
- Floating point. Timestamps are whole seconds. `str(float)` is modelled as
  the integer text followed by `.0`. Python 2.7 prints a float with 12
  significant digits, so this is exact whenever the timestamp has at most 12
  digits. That holds for every timestamp `mktime` accepts here (years
  1900..9999, and two-digit years read as 1969..2068).
- `np.genfromtxt`, modelled only partly:
  - Its type inference is left out, as are its handling of `#` comments and
    surrounding whitespace in columns.
  - The single-row file is left out. There numpy returns a 0-d array rather
    than a one-element one.
  - A row is accepted when it has seven comma-separated columns and its last
    two parse as timestamps.
- Iteration order of `np.unique` and of `dict`:
  - Groups are visited in first-occurrence order, where `np.unique` sorts its
    keys.
  - The per-key lists and the minimum do not depend on this order.
  - The order of the keys in the dictionary is left out.
- Two behaviours of the code worth noting:
  - The comment test is made on the raw line, not the stripped one (see
    `Extract.IndentedPercentIsNotComment`).
  - A line with too few tokens does not fail. Slicing clamps, so it yields a
    shorter line (see `Extract.Fields`). The reader then rejects that line.
- The empty-token branch at line 29 cannot be reached once two dates were
  found, because the word `datime` is a token. The model proves this
  (`Extract.DateMeansTokens`) instead of modelling a branch.
- Keys are compared as whole strings. Two different (type, user, value)
  triples whose `type(user, value)` texts coincide share a list, exactly as in
  the source.

## Findings

| source | as written | input that shows it | evidently intended | confidence | as-written member | corrected member |
|---|---|---|---|---|---|---|
| plotter/plotter.py:52-68 | group positions are computed over the `hla` rows only (line 52), then used to index all rows (line 68) | a `pos` row, then one `hla` row: the `hla` group's position 0 selects the `pos` row | index the `hla` rows with their own positions | high (not executed) | Activity.RepresentativeAsWritten, Activity.AsWrittenPicksForeignRow | Activity.Representative, Activity.RepresentativeIsFirstLongest |
| plotter/plotter.py:75-78 | `if not min_start_time` also treats a minimum of 0.0 as "no minimum yet" | representative starts 0 then 5: the result is 5 | test `min_start_time is None` | medium (not executed) | Activity.MinStartAsWritten, Activity.MinStartZeroIsLost | Activity.MinStart, Activity.MinStartAsWrittenAgrees |
