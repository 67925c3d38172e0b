/** The float time (`calculate_float_time`): given the total test time and a
    clock time typed by the user, either the latest start that still finishes
    by a completion time, or the finish reached from a start time.  Clock
    times are read with `datetime.strptime(..., "%H:%M:%S")`, after a
    four-character `HHMM` entry has been rewritten as `HH:MM:00`.  Durations
    and clock times are whole seconds. */
module FloatTime {
  import opened Text
  import opened Civil
  import opened Report

  // ---------------------------------------------------------------------
  // Reading a clock time

  /** `s.split(c)`: the pieces between the occurrences of `c`, empty pieces
      included, so there is always one more piece than separators. */
  function Split(s: string, c: char): (r: seq<string>)
    ensures |r| >= 1
    decreases |s|
  {
    if |s| == 0 then [""]
    else
      var rest := Split(s[1..], c);
      if s[0] == c then [""] + rest else [[s[0]] + rest[0]] + rest[1..]
  }

  /** The pieces joined back with `c` between them. */
  function Join(pieces: seq<string>, c: char): string
    requires |pieces| >= 1
    decreases |pieces|
  {
    if |pieces| == 1 then pieces[0] else pieces[0] + [c] + Join(pieces[1..], c)
  }

  predicate Without(s: string, c: char) {
    forall i :: 0 <= i < |s| ==> s[i] != c
  }

  /** Splitting loses nothing: the pieces joined with the separator give the
      string back, and no piece holds the separator. */
  lemma SplitJoin(s: string, c: char)
    ensures Join(Split(s, c), c) == s
    ensures forall k :: 0 <= k < |Split(s, c)| ==> Without(Split(s, c)[k], c)
  {
    JoinSplit(s, c);
    SplitPiecesWithout(s, c);
  }

  lemma {:induction false} JoinSplit(s: string, c: char)
    ensures Join(Split(s, c), c) == s
    decreases |s|
  {
    if |s| > 0 {
      JoinSplit(s[1..], c);
      var rest := Split(s[1..], c);
      if s[0] == c {
        assert ([""] + rest)[1..] == rest;
        assert s == [c] + s[1..];
      } else {
        var r := Split(s, c);
        assert r[0] == [s[0]] + rest[0];
        assert r[1..] == rest[1..];
        if |rest| == 1 {
          assert s == [s[0]] + rest[0];
        } else {
          assert Join(rest, c) == rest[0] + [c] + Join(rest[1..], c);
          assert s == [s[0]] + s[1..];
        }
      }
    }
  }

  lemma {:induction false} SplitPiecesWithout(s: string, c: char)
    ensures forall k :: 0 <= k < |Split(s, c)| ==> Without(Split(s, c)[k], c)
    decreases |s|
  {
    if |s| > 0 {
      SplitPiecesWithout(s[1..], c);
      var rest := Split(s[1..], c);
      var r := Split(s, c);
      forall k | 0 <= k < |r| ensures Without(r[k], c) {
        if s[0] == c {
          if k > 0 {
            assert r[k] == rest[k - 1];
          }
        } else if k == 0 {
          assert r[0] == [s[0]] + rest[0];
        } else {
          assert r[k] == rest[k];
        }
      }
    }
  }

  /** A piece free of the separator is split off whole. */
  lemma {:induction false} SplitFirst(a: string, c: char, b: string)
    requires Without(a, c)
    ensures Split(a + [c] + b, c) == [a] + Split(b, c)
    decreases |a|
  {
    if |a| == 0 {
      assert a + [c] + b == [c] + b;
      assert ([c] + b)[1..] == b;
    } else {
      var s := a + [c] + b;
      assert s[1..] == a[1..] + [c] + b;
      SplitFirst(a[1..], c, b);
      assert [a[0]] + a[1..] == a;
    }
  }

  lemma {:induction false} SplitWhole(a: string, c: char)
    requires Without(a, c)
    ensures Split(a, c) == [a]
    decreases |a|
  {
    if |a| > 0 {
      SplitWhole(a[1..], c);
      assert [a[0]] + a[1..] == a;
    }
  }

  /** One `%H`, `%M` or `%S` field: one or two ASCII digits, at most `max`. */
  function Field(f: string, max: nat): (r: Option<nat>)
    ensures r.Some? <==> 1 <= |f| <= 2 && AllDigits(f) && DigitsValue(f) <= max
    ensures r.Some? ==> r.value == DigitsValue(f)
  {
    if 1 <= |f| <= 2 && AllDigits(f) && DigitsValue(f) <= max then Some(DigitsValue(f)) else None
  }

  /** `datetime.strptime(s, "%H:%M:%S")`, as seconds past midnight.  The
      whole string must be three colon-separated fields; an hour above 23 or
      a minute or second above 59 is refused (a second of 60 or 61 passes the
      pattern but not the `datetime` constructor). */
  function ParseClock(s: string): (r: Option<int>)
    ensures r.Some? ==> 0 <= r.value < SecondsPerDay
  {
    var fs := Split(s, ':');
    if |fs| != 3 then None else ClockOf(fs[0], fs[1], fs[2])
  }

  /** The clock time denoted by three fields, when each is in range. */
  function ClockOf(hs: string, ms: string, ss: string): (r: Option<int>)
    ensures r.Some? ==> 0 <= r.value < SecondsPerDay
  {
    match (Field(hs, 23), Field(ms, 59), Field(ss, 59))
    case (Some(h), Some(m), Some(sec)) => Some(h * 3600 + m * 60 + sec)
    case _ => None
  }

  /** A string with exactly two colons is read field by field. */
  lemma ParseClockFields(hs: string, ms: string, ss: string)
    requires Without(hs, ':') && Without(ms, ':') && Without(ss, ':')
    ensures ParseClock(hs + ":" + ms + ":" + ss) == ClockOf(hs, ms, ss)
  {
    SplitFirst(ms, ':', ss);
    SplitWhole(ss, ':');
    assert hs + ":" + ms + ":" + ss == hs + [':'] + (ms + [':'] + ss);
    SplitFirst(hs, ':', ms + [':'] + ss);
  }

  /** Whatever is accepted is three in-range fields joined by colons. */
  lemma ParseClockShape(s: string)
    requires ParseClock(s).Some?
    ensures |Split(s, ':')| == 3
    ensures s == Split(s, ':')[0] + ":" + Split(s, ':')[1] + ":" + Split(s, ':')[2]
    ensures ParseClock(s) == ClockOf(Split(s, ':')[0], Split(s, ':')[1], Split(s, ':')[2])
  {
    var fs := Split(s, ':');
    SplitJoin(s, ':');
    assert fs[1..][1..] == [fs[2]];
    assert Join(fs[1..], ':') == fs[1] + [':'] + fs[2];
    assert Join(fs, ':') == fs[0] + [':'] + Join(fs[1..], ':');
  }

  /** A zero-padded field within range is read back as its value. */
  lemma FieldPad2(n: nat, max: nat)
    requires n <= max < 100
    ensures Without(Pad2(n), ':') && Field(Pad2(n), max) == Some(n)
  {
    Pad2RoundTrip(n);
  }

  /** What `strftime('%H:%M:%S')` writes is read back as the same time. */
  lemma ParseClockText(t: int)
    requires 0 <= t < SecondsPerDay
    ensures ParseClock(ClockText(t)) == Some(t)
  {
    var h, m, sec := t / 3600, t / 60 % 60, t % 60;
    FieldPad2(h, 23);
    FieldPad2(m, 59);
    FieldPad2(sec, 59);
    var hs, ms, ss := Pad2(h), Pad2(m), Pad2(sec);
    assert ClockText(t) == hs + ":" + ms + ":" + ss;
    ParseClockFields(hs, ms, ss);
    ClockDigits(t);
    assert ClockOf(hs, ms, ss) == Some(t);
  }

  /** Unpadded fields are accepted too: `9:5:7` is 09:05:07. */
  lemma ParseClockUnpadded()
    ensures ParseClock("9:5:7") == Some(9 * 3600 + 5 * 60 + 7)
  {
    assert "9:5:7" == "9" + ":" + "5" + ":" + "7";
    ParseClockFields("9", "5", "7");
    assert ClockOf("9", "5", "7") == Some(9 * 3600 + 5 * 60 + 7) by {
      assert DigitsValue("9") == 9 && DigitsValue("5") == 5 && DigitsValue("7") == 7;
    }
  }

  /** An empty entry is not a clock time. */
  lemma ParseClockEmpty()
    ensures ParseClock("") == None
  {
  }

  // ---------------------------------------------------------------------
  // The float time

  /** A four-character entry is taken as `HHMM` and rewritten `HH:MM:00`;
      any other entry is kept as typed. */
  function ExpandHHMM(s: string): (r: string)
    ensures |s| == 4 ==> |r| == 8 && r[..2] == s[..2] && r[3..5] == s[2..]
    ensures |s| == 4 ==> r[2] == ':' && r[5..] == ":00"
    ensures |s| != 4 ==> r == s
  {
    if |s| == 4 then s[..2] + ":" + s[2..] + ":00" else s
  }

  /** Four ASCII digits that make an in-range hour and minute. */
  predicate HHMM(s: string) {
    |s| == 4 && AllDigits(s) && DigitsValue(s[..2]) <= 23 && DigitsValue(s[2..]) <= 59
  }

  /** The clock time an entry denotes, if it is one: an `HHMM` entry is
      that hour and minute on the dot, any other four-character entry is
      refused, and any entry not four characters long is read as
      `%H:%M:%S`. */
  function ClockEntry(s: string): (r: Option<int>)
    ensures r.Some? ==> 0 <= r.value < SecondsPerDay
    ensures HHMM(s) ==> r == Some(DigitsValue(s[..2]) * 3600 + DigitsValue(s[2..]) * 60)
    ensures |s| == 4 ==> (r.Some? <==> HHMM(s))
    ensures |s| != 4 ==> r == ParseClock(s)
  {
    ExpandedHHMM(s);
    ExpandedOnlyHHMM(s);
    ParseClock(ExpandHHMM(s))
  }

  /** A four-character entry is accepted, once expanded, only if it is
      `HHMM`: the three fields of the expansion can only be its first two
      characters, its last two and `00`. */
  lemma ExpandedOnlyHHMM(s: string)
    ensures |s| == 4 && ParseClock(ExpandHHMM(s)).Some? ==> HHMM(s)
  {
    if |s| != 4 || ParseClock(ExpandHHMM(s)).None? {
      return;
    }
    var e := ExpandHHMM(s);
    ParseClockShape(e);
    var fs := Split(e, ':');
    assert Field(fs[0], 23).Some? && Field(fs[1], 59).Some? && Field(fs[2], 59).Some?;
    assert |e| == |fs[0]| + |fs[1]| + |fs[2]| + 2;
    assert |fs[0]| == 2 && |fs[1]| == 2;
    assert e[..2] == fs[0] && e[3..5] == fs[1];
    var hs, ms := s[..2], s[2..];
    assert hs == fs[0] && ms == fs[1];
    forall i | 0 <= i < |s| ensures IsDigit(s[i]) {
      if i < 2 {
        assert s[i] == hs[i];
      } else {
        assert s[i] == ms[i - 2];
      }
    }
  }

  /** An `HHMM` entry, once expanded, reads as its hour and minute. */
  lemma ExpandedHHMM(s: string)
    ensures HHMM(s) ==> ParseClock(ExpandHHMM(s)) == Some(DigitsValue(s[..2]) * 3600 + DigitsValue(s[2..]) * 60)
  {
    if !HHMM(s) {
      return;
    }
    var hs, ms := s[..2], s[2..];
    assert AllDigits(hs) && AllDigits(ms);
    FieldPad2(0, 59);
    var ss := Pad2(0);
    assert ss == "00";
    assert Without(hs, ':') && Without(ms, ':');
    assert ExpandHHMM(s) == hs + ":" + ms + ":" + ss;
    ParseClockFields(hs, ms, ss);
  }

  /** `HHMM` reads as that hour and minute, on the dot. */
  lemma ClockEntryHHMM(h: nat, m: nat)
    requires h <= 23 && m <= 59
    ensures ClockEntry(Pad2(h) + Pad2(m)) == Some(h * 3600 + m * 60)
  {
    FieldPad2(h, 23);
    FieldPad2(m, 59);
    FieldPad2(0, 59);
    var hs, ms, ss := Pad2(h), Pad2(m), Pad2(0);
    var s := hs + ms;
    assert s[..2] == hs && s[2..] == ms;
    assert ss == "00";
    assert ExpandHHMM(s) == hs + ":" + ms + ":" + ss;
    ParseClockFields(hs, ms, ss);
    assert ClockOf(hs, ms, ss) == Some(h * 3600 + m * 60);
  }

  /** An eight-character `HH:MM:SS` entry is read as typed. */
  lemma ClockEntryText(t: int)
    requires 0 <= t < SecondsPerDay
    ensures ClockEntry(ClockText(t)) == Some(t)
  {
    ParseClockText(t);
  }

  /** A four-character entry that is not `HHMM` is mangled and refused:
      `9:30` becomes `9::30:00`. */
  lemma ClockEntryShortColon()
    ensures ExpandHHMM("9:30") == "9::30:00"
    ensures ClockEntry("9:30") == None
  {
    assert "9:30"[..2] == "9:" && "9:30"[2..] == "30";
    var s := ExpandHHMM("9:30");
    assert s == "9" + [':'] + ("" + [':'] + ("30" + [':'] + "00"));
    SplitWhole("00", ':');
    SplitFirst("30", ':', "00");
    SplitFirst("", ':', "30" + [':'] + "00");
    SplitFirst("9", ':', "" + [':'] + ("30" + [':'] + "00"));
    assert |Split(s, ':')| == 4;
  }

  /** `25:99:00` is refused. */
  lemma ClockEntryOutOfRange()
    ensures ClockEntry("25:99:00") == None
  {
    assert "25:99:00" == "25" + ":" + "99" + ":" + "00";
    ParseClockFields("25", "99", "00");
    DigitsValue2("25");
  }

  /** The instant of `1900-01-01 00:00:00`, the date `strptime` gives a bare
      clock time. */
  const DefaultDay: int := 693595 * SecondsPerDay

  lemma DefaultDayIsNineteenHundred()
    ensures Instant(DateTime(1900, 1, 1, 0, 0, 0)) == DefaultDay
  {
    NineteenHundredOrdinal();
    MidnightOf(DateTime(1900, 1, 1, 0, 0, 0));
  }

  lemma MidnightOf(dt: Stamp)
    requires Ordinal(dt) == 693596 && TimeOfDay(dt) == 0
    ensures Instant(dt) == DefaultDay
  {
    InstantTimeOfDay(dt);
  }

  /** `date(1900, 1, 1).toordinal()` */
  lemma NineteenHundredOrdinal()
    ensures Ordinal(DateTime(1900, 1, 1, 0, 0, 0)) == 693596
  {
    assert DaysBeforeYear(1900) == 693595 by {
      assert 1899 * 365 == 693135;
      assert 1899 / 4 == 474 && 1899 / 100 == 18 && 1899 / 400 == 4;
    }
  }

  /** `if completion_time:` — a non-empty entry. */
  predicate Given(entry: Option<string>) {
    entry.Some? && entry.value != ""
  }

  /** The calls the source completes without raising: the start branch is
      taken only with a start entry (otherwise `len(None)` raises
      `TypeError`), and the finish reached from it is a representable
      `datetime` (otherwise adding the total raises `OverflowError`). */
  predicate Completes(total: int, completion: Option<string>, start: Option<string>) {
    || (completion.None? && start.None?)
    || Given(completion)
    || (start.Some? && (ClockEntry(start.value).Some? ==>
          0 <= DefaultDay + ClockEntry(start.value).value + total <= MaxInstant))
  }

  /** `(float_time, success)`, the float time in seconds. */
  datatype FloatResult = FloatResult(floatTime: Option<int>, success: bool)

  /** `calculate_float_time(total_test_time, completion_time, start_time)`. */
  function CalculateFloatTime(total: int, completion: Option<string>, start: Option<string>): (r: FloatResult)
    requires Completes(total, completion, start)
    ensures r.success <==> r.floatTime.Some?
    ensures completion.None? && start.None? ==> !r.success
    ensures Given(completion) ==>
              && (r.success <==> ClockEntry(completion.value).Some?)
              && (r.success ==> r.floatTime.value + total == ClockEntry(completion.value).value)
    ensures !Given(completion) && start.Some? ==>
              && (r.success <==> ClockEntry(start.value).Some?)
              && (r.success ==> r.floatTime.value - total == ClockEntry(start.value).value)
  {
    if completion.None? && start.None? then FloatResult(None, false)
    else if Given(completion) then
      match ClockEntry(completion.value)
      case Some(t) => FloatResult(Some(t - total), true)
      case None => FloatResult(None, false)
    else
      match ClockEntry(start.value)
      case Some(t) =>
        // (1900-01-01 + t + total) - 1900-01-01, both instants in range
        var finish := DefaultDay + t + total;
        FloatResult(Some(finish - DefaultDay), true)
      case None => FloatResult(None, false)
  }

  /** A completion time, when given, decides the result: the start time is
      not looked at. */
  lemma IgnoresStart(total: int, completion: string, s1: Option<string>, s2: Option<string>)
    requires completion != ""
    ensures CalculateFloatTime(total, Some(completion), s1)
            == CalculateFloatTime(total, Some(completion), s2)
  {
  }

  /** The two branches are inverse: starting at the float time computed for
      a completion time finishes exactly at that completion time. */
  lemma StartAtFloatTimeFinishesOnTime(total: int, c: int)
    requires 0 <= c < SecondsPerDay && 0 <= c - total < SecondsPerDay
    ensures CalculateFloatTime(total, Some(ClockText(c)), None) == FloatResult(Some(c - total), true)
    ensures CalculateFloatTime(total, None, Some(ClockText(c - total))) == FloatResult(Some(c), true)
  {
    FloatFromCompletion(total, c);
    FinishFromStart(total, c - total, c);
  }

  lemma FloatFromCompletion(total: int, c: int)
    requires 0 <= c < SecondsPerDay
    ensures CalculateFloatTime(total, Some(ClockText(c)), None) == FloatResult(Some(c - total), true)
  {
    ClockEntryText(c);
  }

  lemma FinishFromStart(total: int, t: int, c: int)
    requires 0 <= t < SecondsPerDay && c == t + total && 0 <= c < SecondsPerDay
    ensures CalculateFloatTime(total, None, Some(ClockText(t))) == FloatResult(Some(c), true)
  {
    ClockEntryText(t);
  }

  /** Start 08:00, completion 17:00, eight hours of tests: the completion
      time wins, giving a float time of nine hours. */
  lemma CompletionWinsOverStart()
    ensures CalculateFloatTime(8 * 3600, Some("17:00:00"), Some("08:00:00"))
            == FloatResult(Some(9 * 3600), true)
  {
    FiveInTheAfternoon();
    assert Given(Some("17:00:00"));
  }

  /** `17:00:00` is read as typed. */
  lemma FiveInTheAfternoon()
    ensures ClockEntry("17:00:00") == Some(17 * 3600)
  {
    ClockEntryText(17 * 3600);
    assert ClockText(17 * 3600) == "17:00:00" by {
      assert Pad2(17) == "17" && Pad2(0) == "00";
    }
  }

  /** Neither time given: no float time. */
  lemma NothingGiven(total: int)
    ensures CalculateFloatTime(total, None, None) == FloatResult(None, false)
  {
  }

  /** An entry that is not a clock time gives no float time, in either
      branch. */
  lemma UnreadableEntry(total: int)
    ensures CalculateFloatTime(total, Some("25:99:00"), None) == FloatResult(None, false)
    ensures CalculateFloatTime(total, Some(""), Some("")) == FloatResult(None, false)
  {
    ClockEntryOutOfRange();
    ParseClockEmpty();
  }
}
