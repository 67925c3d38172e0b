# Test Time Calculator — a Dafny model of its core

The Test Time Calculator reads a folder of CSV test logs. It finds the
`Test Start Time:` and `Test End Time:` timestamps written in each log and
computes each file's test duration. It then adds the durations up, prints
one line per test, and can work out a "float time" from a clock time the
operator types in. This project models the logic of `test_time_calculator.py`
and proves properties about it:

- **Extraction** (`extraction.dfy`, module `Extraction`) covers
  `extract_time_from_string` and `extract_time`. It models the regular
  expression `<label>:\s*(\d{2}/\d{2}/\d{4} \d{2}:\d{2}:\d{2})` as a leftmost
  search. The captured text is parsed month first with
  `strptime("%m/%d/%Y %H:%M:%S")`. Only the first match is looked at. No match,
  or a first match that is not a real date-time, gives `None`.
- **Civil time** (`civil.dfy`, module `Civil`) holds the `datetime` values the
  constructor accepts: years 1–9999 with Gregorian month lengths. It counts
  seconds from 0001-01-01 using Python's ordinal. Durations are differences of
  these instants.
- **Aggregation** (`aggregation.dfy`, module `Aggregation`) covers
  `extract_test_times` and `calculate_total_test_time`, run over the sequence
  of files the folder walk yields. Each file is its text, or `None` when
  reading it raised `FileNotFoundError`. A file counts if and only if both of
  its timestamps resolve.
- **Report** (`report.dfy`, module `Report`, with the generic stable sort in
  `stable_sort.dfy`) covers `format_test_times`. It sorts the records in place
  by start, stably, and writes one numbered line per record. Start and end are
  shown as `HH:MM:SS`. The test time is the last token of `str(timedelta)`,
  which is the duration modulo one day.
- **Float time** (`float_time.dfy`, module `FloatTime`) covers
  `calculate_float_time`:
  - a four-character `HHMM` entry is rewritten as `HH:MM:00`;
  - the entry is read with `strptime("%H:%M:%S")`, with one- or two-digit
    fields;
  - a non-empty completion time gives `completion − total`;
  - otherwise a start time gives `start + total`.
- Supporting modules:
  - `text.dfy` (`Text`): digits, padding, Python whitespace and `split()[-1]`;
  - `sequences.dfy` (`Sequences`): filtering a sequence through a partial map,
    and permutations.

Some behaviour of the code is narrower than a reader might expect, and the
model keeps it so:
- There is one timestamp pattern, month first. A log whose timestamps are
  laid out another way (year first, say) yields `None`; nothing falls back to
  a second pattern.
- Only the first match is consulted (`FirstMatchDecides`).
- The float time uses one input: the completion time when one is given, and
  the start time only otherwise. It never combines the two, so a completion
  earlier than the start is not moved to the next day. For a start of 08:00,
  a completion of 17:00 and 8 hours of tests, the result is
  completion − total = 9 hours (`CompletionWinsOverStart`).

## Model

| member | source | states |
|---|---|---|
| Extraction.MatchAt | test_time_calculator.py:58 | the pattern tried at one position matches exactly when the label, a colon, a (greedy) whitespace run and a `\d{2}/\d{2}/\d{4} \d{2}:\d{2}:\d{2}` capture follow; when it does not, no capture start at that position satisfies the pattern |
| Extraction.MatchUnique | test_time_calculator.py:58 | a match at a given position has only one possible capture, since `\s*` can never swallow a digit |
| Extraction.Search | test_time_calculator.py:37 | `re.search` finds the leftmost matching position: the one returned matches, none between the start and it does, and `None` means no position matches |
| Extraction.ExtractTime | test_time_calculator.py:36-41 | the result is `None` when the pattern matches nowhere; otherwise it is the `strptime` parse of the capture of the first match, `None` when that capture is not a valid date-time |
| Extraction.ExtractFound | test_time_calculator.py:36-41 | a resolved timestamp always comes from the first real match of the pattern |
| Extraction.ExtractRoundTrip | test_time_calculator.py:58-59 | text beginning with `<label>:`, any whitespace and a rendered `mm/dd/yyyy HH:MM:SS` timestamp yields exactly that timestamp, whatever follows |
| Extraction.FirstMatchDecides | test_time_calculator.py:37-41 | a first match whose capture is not a real date-time gives `None`, even if a valid timestamp follows later |
| Extraction.ExtractAbsent | test_time_calculator.py:37-41 | text without `<label>:` yields `None` |
| Extraction.ParseStamp | test_time_calculator.py:38 | a well-shaped capture is accepted exactly when its fields, read as month, day, year, hour, minute, second, make a real date-time; it is read as a given date-time exactly when that date-time prints as the capture with `%m/%d/%Y %H:%M:%S` |
| Extraction.StampRoundTrip | test_time_calculator.py:38 | every `datetime` rendered as `%m/%d/%Y %H:%M:%S` has the captured shape and parses back to itself |
| Extraction.StampParseRender | test_time_calculator.py:38 | a capture whose fields make a real date-time is exactly the rendering of that date-time: every digit is read and nothing else |
| Extraction.StampFieldDigits | test_time_calculator.py:38 | fields are read positionally: month from characters 0–1, day from 3–4, year from 6–9, hour from 11–12, minute from 14–15, second from 17–18 |
| Extraction.MonthFirst | test_time_calculator.py:38 | `02/03/2024 10:00:00` is 3 February 2024 (month first) |
| Extraction.MonthThirteenRejected | test_time_calculator.py:38-41 | a first field of 13 is rejected, not read as a day |
| Extraction.LeapDay | test_time_calculator.py:38 | 29 February parses in 2024 and is rejected in 2023 |
| Extraction.YearZeroAndHour24Rejected | test_time_calculator.py:38-41 | year 0000 and hour 24 are rejected |
| Civil.InstantOrder | test_time_calculator.py:122 | seconds-since-epoch order agrees with Python's field-by-field `datetime` comparison, and equal instants mean equal date-times |
| Civil.InstantRange | test_time_calculator.py:38 | every valid `datetime` lies between 0001-01-01 00:00:00 and 9999-12-31 23:59:59 |
| Civil.InstantTimeOfDay | test_time_calculator.py:126 | an instant's remainder modulo a day is the time of day that `strftime('%H:%M:%S')` shows, and its quotient is the date's ordinal less one |
| Aggregation.ExtractTestTimes | test_time_calculator.py:72-79 | a file yields a pair of timestamps exactly when it can be read, and the pair is what extraction finds for the start label and for the end label, each possibly absent |
| Aggregation.Elapsed | test_time_calculator.py:103 | `end - start` is negative exactly when the end comes before the start, zero exactly when they are the same date-time, and positive exactly when the end comes after |
| Aggregation.FileRecord | test_time_calculator.py:99-106 | a file contributes a record if and only if it was read and both labels resolve; the record holds those two timestamps and `end - start`, signed |
| Aggregation.Kept | test_time_calculator.py:98-106 | the records kept are no more than the files; each is well formed and comes from some file, and every file that yields a record has it kept |
| Aggregation.CalculateTotalTestTime | test_time_calculator.py:93-108 | the loop returns the contributing files' records in walk order, a count equal to their number and a total equal to the sum of their durations |
| Aggregation.KeptAppend | test_time_calculator.py:98-106 | walking `a` then `b` gives `a`'s records followed by `b`'s: order is preserved |
| Aggregation.SkippedFileIsInvisible | test_time_calculator.py:99-102 | an unreadable file, or one missing a timestamp, changes neither the records, the count nor the total, wherever it sits |
| Aggregation.ResolvedFileContributes | test_time_calculator.py:102-106 | a resolving file adds exactly one record at its own position, and its `end - start` to the total |
| Aggregation.SumDurationsPermutation | test_time_calculator.py:104 | the sum of durations does not depend on the order of the records |
| Aggregation.TotalOrderIndependent | test_time_calculator.py:98-108 | the total and the count are the same in whatever order the walk yields the files |
| Sequences.FilterMapPermutation | test_time_calculator.py:98-106 | permuting the files permutes the kept records |
| StableSort.SortBy | test_time_calculator.py:122 | `list.sort(key=...)` leaves the list ordered by key and a permutation of the input, and records with equal keys keep their relative order |
| StableSort.StableSortUnique | test_time_calculator.py:122 | two key-ordered lists that agree on the order of every group of equal keys are equal, so the stable sort modelled is the one Python performs |
| Report.SortsReversedPair | test_time_calculator.py:122 | two records given latest-start first come out earliest-start first |
| Report.ClockText | test_time_calculator.py:126 | `strftime('%H:%M:%S')` of a time of day is eight characters, colons at positions 2 and 5, three two-digit fields of at most 23, 59 and 59 whose hours, minutes and seconds add back up to the time of day |
| Report.TimedeltaStr | test_time_calculator.py:125 | `str(timedelta)` of a duration within one day is its `H:MM:SS` clock alone; any other duration ends with the clock of its remainder modulo a day and begins with its signed number of days |
| Report.DurationText | test_time_calculator.py:125 | the shown test time, the last word of `str(timedelta)`, is the duration modulo one day as `H:MM:SS`: whole days are dropped and negative durations wrap |
| Report.DurationTextExamples | test_time_calculator.py:125 | −60 s is shown as `23:59:00`, and 1 day 1 h 1 min 1 s as `1:01:01` |
| Report.LineBody | test_time_calculator.py:126 | a report line, before its newline, holds no newline of its own, opens with `[n]` and closes with the test time shown as the duration modulo one day |
| Report.SplitJoinLines | test_time_calculator.py:123-126 | newline-terminated lines without inner newlines split back into the same lines |
| Report.FormatTestTimes | test_time_calculator.py:122-127 | the caller's list ends up ordered by start, a stable permutation of the input, and the text read back line by line is the list's lines numbered from 1; the text is empty exactly when there are no records, and otherwise ends with a newline |
| Report.LinesReadBack | test_time_calculator.py:123-127 | the returned text splits back into exactly one line per record |
| Report.ReportLines | test_time_calculator.py:124-126 | there are as many lines as records, and line `i` (from 0) shows record `i` of the sorted list, numbered `i + 1` |
| Report.EarliestReportedFirst | test_time_calculator.py:122-126 | of two records, the one starting earlier is line `[1] Start Time: …, End Time: …, Test Time: …` |
| FloatTime.ParseClock | test_time_calculator.py:150-151 | an accepted entry is a time of day, at least 0 and under 86400 seconds; which entries are accepted, and as what, is stated by `ParseClockFields` and `ParseClockShape` |
| FloatTime.ParseClockFields | test_time_calculator.py:150-151 | an entry of three colon-free fields is accepted exactly when the hour ≤ 23, minute ≤ 59 and second ≤ 59 fields are each one or two digits, and denotes h·3600 + m·60 + s |
| FloatTime.ParseClockShape | test_time_calculator.py:150-151 | whatever is accepted is three fields joined by two colons, read as above |
| FloatTime.ParseClockText | test_time_calculator.py:150-151 | every `HH:MM:SS` rendering of a time of day is read back as that time |
| FloatTime.ParseClockUnpadded | test_time_calculator.py:150-151 | unpadded fields are accepted: `9:5:7` is 09:05:07 |
| FloatTime.ParseClockEmpty | test_time_calculator.py:159 | the empty entry is not a clock time |
| FloatTime.ExpandHHMM | test_time_calculator.py:148-149 | a four-character entry becomes its first two characters, a colon, its last two characters and `:00`; an entry of any other length is kept as typed |
| FloatTime.ClockEntry | test_time_calculator.py:148-151 | an accepted entry is a time of day; a four-character entry is accepted exactly when it is four digits forming an hour ≤ 23 and a minute ≤ 59, and is then that hour and minute on the dot; an entry of any other length is read with `%H:%M:%S` as typed |
| FloatTime.ClockEntryHHMM | test_time_calculator.py:148-151 | a four-digit `HHMM` entry with hour ≤ 23 and minute ≤ 59 is that hour and minute, on the dot |
| FloatTime.ClockEntryText | test_time_calculator.py:148-151 | an eight-character `HH:MM:SS` entry is read as typed |
| FloatTime.ClockEntryShortColon | test_time_calculator.py:148-151 | a four-character entry that is not `HHMM` (`9:30`) is rewritten to `9::30:00` and refused |
| FloatTime.ClockEntryOutOfRange | test_time_calculator.py:150-151 | `25:99:00` is refused |
| FloatTime.DefaultDayIsNineteenHundred | test_time_calculator.py:159-163 | the date `strptime` gives a bare clock time, 1900-01-01, starts at the instant the start-branch range condition uses |
| FloatTime.CalculateFloatTime | test_time_calculator.py:142-167 | success exactly when a float time is returned. With neither entry there is no float time. A non-empty completion entry succeeds exactly when it is a clock time, and the float time plus the total equals that time. Otherwise the start entry is used the same way, and the float time minus the total equals the start time |
| FloatTime.IgnoresStart | test_time_calculator.py:146-154 | when a completion time is given, the start entry does not affect the result |
| FloatTime.StartAtFloatTimeFinishesOnTime | test_time_calculator.py:146-163 | the two branches are inverse: the float time computed from a completion time, entered as a start time, gives back the completion time |
| FloatTime.CompletionWinsOverStart | test_time_calculator.py:146-154 | start 08:00:00, completion 17:00:00 and 8 h of tests give a float time of 9 h |
| FloatTime.NothingGiven | test_time_calculator.py:142-143 | with neither time there is no float time and no success |
| FloatTime.UnreadableEntry | test_time_calculator.py:166-167 | `25:99:00`, or empty entries for both times, give no float time and no success |

## Left out

- Reading files is outside the model: `read_file` with `errors='replace'` decoding, and the `glob('*.csv')` walk. Each file is given as its decoded text, or as absent when opening it raised `FileNotFoundError`.
- Read errors other than `FileNotFoundError`, such as `PermissionError` or a directory named `*.csv`, propagate out of the source uncaught. The model has no case for them. The `TypeError` caught at line 77 cannot arise from a successful read of text.
- The order of the folder walk is left to the caller. `TotalOrderIndependent` shows that the total and the count do not depend on it.
- The `print` diagnostics, the `__main__` block and its `input()` prompts are not modelled: they are I/O only.
- The re-raise of `re.error` is not modelled. The pattern is built from two fixed labels and is always valid.
- Python's `\d` and `strptime` also accept non-ASCII decimal digits. The model accepts ASCII digits only.
- `timedelta` is limited to ±999,999,999 days, beyond which Python raises `OverflowError`. The model's durations and totals are unbounded integers.
- FloatTime.CalculateFloatTime: its precondition excludes the two inputs on which the source raises.
  - An empty completion entry with no start entry makes `len(None)` raise `TypeError`.
  - A start-branch finish outside the years 1–9999 makes the `datetime + timedelta` addition raise `OverflowError`.
- The float time's printed form, and what the caller does with it, are outside the core.
