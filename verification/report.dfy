/** The human-readable listing of the per-file records (`format_test_times`):
    the records are stably sorted by start time (in the caller's list), then
    rendered one numbered line each, with start and end as `HH:MM:SS` times
    of day and the test time as the last token of `str(timedelta)`. */
module Report {
  import opened Text
  import opened Civil
  import opened Aggregation
  import opened StableSort
  import opened Sequences

  // ---------------------------------------------------------------------
  // Rendering times and durations

  /** `strftime('%H:%M:%S')` of a time of day given in seconds: eight
      characters, three two-digit fields that read back as the hours, minutes
      and seconds of `t`. */
  function ClockText(t: int): (r: string)
    requires 0 <= t < SecondsPerDay
    ensures |r| == 8 && r[2] == ':' && r[5] == ':'
    ensures AllDigits(r[..2]) && AllDigits(r[3..5]) && AllDigits(r[6..])
    ensures DigitsValue(r[..2]) <= 23 && DigitsValue(r[3..5]) <= 59 && DigitsValue(r[6..]) <= 59
    ensures DigitsValue(r[..2]) * 3600 + DigitsValue(r[3..5]) * 60 + DigitsValue(r[6..]) == t
  {
    var hs, ms, ss := Pad2(t / 3600), Pad2(t / 60 % 60), Pad2(t % 60);
    Pad2RoundTrip(t / 3600);
    Pad2RoundTrip(t / 60 % 60);
    Pad2RoundTrip(t % 60);
    ClockDigits(t);
    var r := hs + ":" + ms + ":" + ss;
    assert r[..2] == hs && r[3..5] == ms && r[6..] == ss;
    r
  }

  /** Hours, minutes and seconds of a time of day add back up to it. */
  lemma ClockDigits(t: int)
    requires 0 <= t < SecondsPerDay
    ensures t / 3600 <= 23
    ensures (t / 3600) * 3600 + (t / 60 % 60) * 60 + t % 60 == t
  {
  }

  /** `"%d:%02d:%02d" % (hh, mm, ss)`: the clock part of `str(timedelta)`,
      hours not padded. */
  function DayClock(t: int): string
    requires 0 <= t < SecondsPerDay
  {
    NatStr(t / 3600) + ":" + Pad2(t / 60 % 60) + ":" + Pad2(t % 60)
  }

  /** `str(timedelta(seconds=d))`: Python normalises to whole days (rounded
      towards minus infinity) plus 0..86399 seconds, and prints the days,
      when there are any, as `"<n> day, "` or `"<n> days, "` before the clock.
      A duration within one day is its clock alone; any other ends with the
      clock of its remainder and begins with its (signed) number of days. */
  function TimedeltaStr(d: int): (r: string)
    ensures 0 <= d < SecondsPerDay ==> r == DayClock(d)
    ensures |DayClock(d % SecondsPerDay)| <= |r|
    ensures r[|r| - |DayClock(d % SecondsPerDay)|..] == DayClock(d % SecondsPerDay)
    ensures !(0 <= d < SecondsPerDay) ==>
              |IntStr(d / SecondsPerDay)| <= |r| && r[..|IntStr(d / SecondsPerDay)|] == IntStr(d / SecondsPerDay)
  {
    var days := d / SecondsPerDay;
    var clock := DayClock(d % SecondsPerDay);
    if days == 0 then clock
    else
      var prefix := IntStr(days) + (if days == 1 || days == -1 then " day" else " days") + ",";
      var r := prefix + [' '] + clock;
      assert r[..|IntStr(days)|] == IntStr(days);
      assert r[|prefix| + 1..] == clock;
      r
  }

  /** `str(test_time).split()[-1]`, the test time shown in a report line:
      the duration modulo one day as `H:MM:SS`, so whole days are dropped and
      negative durations wrap around. */
  function DurationText(d: int): (r: string)
    ensures r == DayClock(d % SecondsPerDay)
  {
    ShownClock(d);
    LastWord(TimedeltaStr(d))
  }

  lemma DigitsHaveNoSpace(s: string)
    requires AllDigits(s)
    ensures NoSpace(s)
  {
  }

  lemma DayClockIsToken(t: int)
    requires 0 <= t < SecondsPerDay
    ensures |DayClock(t)| >= 1 && NoSpace(DayClock(t))
  {
    DigitsHaveNoSpace(NatStr(t / 3600));
    DigitsHaveNoSpace(Pad2(t / 60 % 60));
    DigitsHaveNoSpace(Pad2(t % 60));
  }

  /** The last word of `str(timedelta)` is the clock of the remainder. */
  lemma ShownClock(d: int)
    ensures LastWord(TimedeltaStr(d)) == DayClock(d % SecondsPerDay)
  {
    DayClockIsToken(d % SecondsPerDay);
    if d / SecondsPerDay == 0 {
      ShownClockWithinDay(d);
    } else {
      ShownClockWithDays(d);
    }
  }

  lemma ShownClockWithinDay(d: int)
    requires d / SecondsPerDay == 0
    requires |DayClock(d % SecondsPerDay)| >= 1 && NoSpace(DayClock(d % SecondsPerDay))
    ensures LastWord(TimedeltaStr(d)) == DayClock(d % SecondsPerDay)
  {
    var clock := DayClock(d % SecondsPerDay);
    assert TimedeltaStr(d) == clock;
    LastWordOfToken(clock);
  }

  lemma ShownClockWithDays(d: int)
    requires d / SecondsPerDay != 0
    requires |DayClock(d % SecondsPerDay)| >= 1 && NoSpace(DayClock(d % SecondsPerDay))
    ensures LastWord(TimedeltaStr(d)) == DayClock(d % SecondsPerDay)
  {
    var clock := DayClock(d % SecondsPerDay);
    var days := d / SecondsPerDay;
    var unit := if days == 1 || days == -1 then " day" else " days";
    var prefix := IntStr(days) + unit + ",";
    var text := TimedeltaStr(d);
    assert text == prefix + [' '] + clock;
    LastWordOf(prefix, ' ', clock);
    assert LastWord(text) == clock;
  }

  /** Minus one minute is shown as `23:59:00`; one day, one hour, one minute
      and one second as `1:01:01`. */
  lemma DurationTextExamples()
    ensures DurationText(-60) == "23:59:00"
    ensures DurationText(90061) == "1:01:01"
  {
    assert DurationText(-60) == DayClock(86340);
    ElevenFiftyNine();
    assert DurationText(90061) == DayClock(3661);
    OneOhOneOhOne();
  }

  lemma OneOhOneOhOne()
    ensures DayClock(3661) == "1:01:01"
  {
    assert DayClock(3661) == NatStr(1) + ":" + Pad2(1) + ":" + Pad2(1);
  }

  lemma ElevenFiftyNine()
    ensures DayClock(86340) == "23:59:00"
  {
    assert DayClock(86340) == NatStr(23) + ":" + Pad2(59) + ":" + Pad2(0);
    assert NatStr(23) == "23" by {
      assert NatStr(2) == "2";
    }
  }

  // ---------------------------------------------------------------------
  // Sorting by start time

  /** The sort key: the start instant, which orders exactly as Python
      compares the start `datetime` values (see `Civil.InstantOrder`). */
  function Key(t: TestTime): int {
    Instant(t.start)
  }

  /** Two records given in reverse start order come out earliest first. */
  lemma SortsReversedPair(a: TestTime, b: TestTime)
    requires Key(a) < Key(b)
    ensures SortBy([b, a], Key) == [a, b]
  {
    assert [b, a][1..] == [a];
    assert [a][1..] == [];
  }

  // ---------------------------------------------------------------------
  // Report lines

  /** The layout of a report line, given its rendered fields. */
  function LineText(n: nat, start: string, end: string, testTime: string): string {
    "[" + NatStr(n) + "] Start Time: " + start + ", End Time: " + end + ", Test Time: " + testTime
  }

  /** One report line without its terminating newline, for the `n`-th
      record: it holds no newline, opens with `[n]` and closes with the
      record's test time. */
  function LineBody(n: nat, t: TestTime): (r: string)
    ensures NoNewline(r)
    ensures StartsWith(r, "[" + NatStr(n) + "]")
    ensures EndsWith(r, DayClock(t.duration % SecondsPerDay))
  {
    var start, end, testTime := ClockText(TimeOfDay(t.start)), ClockText(TimeOfDay(t.end)), DurationText(t.duration);
    ClockTextNoNewline(TimeOfDay(t.start));
    ClockTextNoNewline(TimeOfDay(t.end));
    DurationTextNoNewline(t.duration);
    LineTextNoNewline(n, start, end, testTime);
    LineTextEnds(n, start, end, testTime);
    LineText(n, start, end, testTime)
  }

  /** The bodies of the lines for `rs`, numbered from 1. */
  function LineBodies(rs: seq<TestTime>): seq<string> {
    Numbered(rs, LineBody)
  }

  /** The lines joined, each terminated by a newline. */
  function JoinLines(lines: seq<string>): string {
    if |lines| == 0 then "" else lines[0] + "\n" + JoinLines(lines[1..])
  }

  datatype Formatted = Formatted(records: seq<TestTime>, text: string)

  /** `format_test_times(test_times)`: `records` is the caller's list after
      the in-place sort, `text` the returned string.  The records come out
      ordered by start, as a stable permutation of the input, and reading
      `text` back line by line gives one numbered line per sorted record. */
  function FormatTestTimes(rs: seq<TestTime>): (r: Formatted)
    ensures SortedBy(r.records, Key)
    ensures multiset(r.records) == multiset(rs)
    ensures forall k :: WithKey(r.records, Key, k) == WithKey(rs, Key, k)
    ensures SplitLines(r.text) == LineBodies(r.records)
    ensures |r.text| > 0 <==> |rs| > 0
    ensures |r.text| > 0 ==> r.text[|r.text| - 1] == '\n'
  {
    var sorted := SortBy(rs, Key);
    assert |sorted| == |multiset(sorted)| == |rs|;
    LinesReadBack(sorted);
    JoinLinesTerminated(LineBodies(sorted));
    Formatted(sorted, JoinLines(LineBodies(sorted)))
  }

  /** Joined lines are empty only when there are no lines, and otherwise end
      with the newline that terminates the last one. */
  lemma {:induction false} JoinLinesTerminated(lines: seq<string>)
    ensures |JoinLines(lines)| > 0 <==> |lines| > 0
    ensures |lines| > 0 ==> JoinLines(lines)[|JoinLines(lines)| - 1] == '\n'
    decreases |lines|
  {
    if |lines| > 0 {
      JoinLinesTerminated(lines[1..]);
    }
  }

  /** The joined report lines split back into the same lines. */
  lemma LinesReadBack(rs: seq<TestTime>)
    ensures SplitLines(JoinLines(LineBodies(rs))) == LineBodies(rs)
  {
    SplitJoinLines(LineBodies(rs));
  }

  /** The report has one line per record, the `i`-th (from 0) being the
      record at that position of the sorted list, numbered `i + 1`. */
  lemma ReportLines(rs: seq<TestTime>, i: nat)
    requires i < |rs|
    ensures |SplitLines(FormatTestTimes(rs).text)| == |rs|
    ensures SplitLines(FormatTestTimes(rs).text)[i] == LineBody(i + 1, FormatTestTimes(rs).records[i])
  {
    var r := FormatTestTimes(rs);
    var lines := LineBodies(r.records);
    assert |r.records| == |multiset(r.records)| == |rs|;
    assert SplitLines(r.text) == lines;
    assert lines[i] == LineBody(i + 1, r.records[i]);
  }

  predicate NoNewline(s: string) {
    forall i :: 0 <= i < |s| ==> s[i] != '\n'
  }

  /** Index of the first newline at or after `k`, or `|s|`. */
  function NextNewline(s: string, k: nat): (p: nat)
    requires k <= |s|
    ensures k <= p <= |s| && (p < |s| ==> s[p] == '\n')
    ensures forall i :: k <= i < p ==> s[i] != '\n'
    decreases |s| - k
  {
    if k == |s| || s[k] == '\n' then k else NextNewline(s, k + 1)
  }

  /** The lines of `s`: the pieces between newlines, a final newline
      not opening an empty last line. */
  function SplitLines(s: string): seq<string>
    decreases |s|
  {
    if |s| == 0 then []
    else
      var p := NextNewline(s, 0);
      if p == |s| then [s] else [s[..p]] + SplitLines(s[p + 1..])
  }

  lemma SplitLinesCons(b: string, rest: string)
    requires NoNewline(b)
    ensures SplitLines(b + "\n" + rest) == [b] + SplitLines(rest)
  {
    var s := b + "\n" + rest;
    assert s[|b|] == '\n';
    assert forall i :: 0 <= i < |b| ==> s[i] == b[i];
    assert NextNewline(s, 0) == |b|;
    assert s[..|b|] == b;
    assert s[|b| + 1..] == rest;
  }

  /** Splitting joined lines gives the lines back, provided none of them
      holds a newline of its own. */
  lemma {:induction false} SplitJoinLines(lines: seq<string>)
    requires forall i :: 0 <= i < |lines| ==> NoNewline(lines[i])
    ensures SplitLines(JoinLines(lines)) == lines
    decreases |lines|
  {
    if |lines| > 0 {
      SplitLinesCons(lines[0], JoinLines(lines[1..]));
      SplitJoinLines(lines[1..]);
      assert lines == [lines[0]] + lines[1..];
    }
  }

  lemma DigitsNoNewline(s: string)
    requires AllDigits(s)
    ensures NoNewline(s)
  {
  }

  lemma ClockTextNoNewline(t: int)
    requires 0 <= t < SecondsPerDay
    ensures NoNewline(ClockText(t))
  {
    Pad2RoundTrip(t / 3600);
    Pad2RoundTrip(t / 60 % 60);
    Pad2RoundTrip(t % 60);
  }

  lemma DurationTextNoNewline(d: int)
    ensures NoNewline(DurationText(d))
  {
    var t := d % SecondsPerDay;
    assert DurationText(d) == DayClock(t);
    DayClockNoNewline(t);
  }

  lemma DayClockNoNewline(t: int)
    requires 0 <= t < SecondsPerDay
    ensures NoNewline(DayClock(t))
  {
    DigitsNoNewline(NatStr(t / 3600));
    Pad2RoundTrip(t / 60 % 60);
    Pad2RoundTrip(t % 60);
  }

  lemma LineTextNoNewline(n: nat, start: string, end: string, testTime: string)
    requires NoNewline(start) && NoNewline(end) && NoNewline(testTime)
    ensures NoNewline(LineText(n, start, end, testTime))
  {
    DigitsNoNewline(NatStr(n));
  }

  /** A line opens with its number in brackets and closes with its test time. */
  lemma LineTextEnds(n: nat, start: string, end: string, testTime: string)
    ensures StartsWith(LineText(n, start, end, testTime), "[" + NatStr(n) + "]")
    ensures EndsWith(LineText(n, start, end, testTime), testTime)
  {
    var head := "[" + NatStr(n) + "]";
    var middle := " Start Time: " + start + ", End Time: " + end + ", Test Time: ";
    var line := LineText(n, start, end, testTime);
    assert line == head + (middle + testTime);
    assert line[..|head|] == head;
    assert line == (head + middle) + testTime;
    assert line[|line| - |testTime|..] == testTime;
  }

  /** The earliest-starting of two records is reported first, as `[1]`. */
  lemma EarliestReportedFirst(a: TestTime, b: TestTime)
    requires Key(a) < Key(b)
    ensures SplitLines(FormatTestTimes([b, a]).text)[0]
            == "[1] Start Time: " + ClockText(TimeOfDay(a.start))
               + ", End Time: " + ClockText(TimeOfDay(a.end))
               + ", Test Time: " + DurationText(a.duration)
  {
    SortsReversedPair(a, b);
    ReportLines([b, a], 0);
    var start, end, testTime := ClockText(TimeOfDay(a.start)), ClockText(TimeOfDay(a.end)), DurationText(a.duration);
    assert LineBody(1, a) == LineText(1, start, end, testTime);
    FirstLineText(start, end, testTime);
  }

  lemma FirstLineText(start: string, end: string, testTime: string)
    ensures LineText(1, start, end, testTime)
            == "[1] Start Time: " + start + ", End Time: " + end + ", Test Time: " + testTime
  {
    assert NatStr(1) == "1";
  }
}
