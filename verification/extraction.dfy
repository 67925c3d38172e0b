/** Finding a labelled timestamp in free text (`extract_time`,
    `extract_time_from_string`).  The source searches for the regular
    expression `<label>:\s*(\d{2}/\d{2}/\d{4} \d{2}:\d{2}:\d{2})` and parses
    the captured text with `strptime(..., "%m/%d/%Y %H:%M:%S")`; either a
    missing match or a capture that is not a real date-time gives `None`. */
module Extraction {
  import opened Text
  import opened Civil

  const StartLabel: string := "Test Start Time"
  const EndLabel: string := "Test End Time"

  /** Length of the captured `mm/dd/yyyy HH:MM:SS` text. */
  const StampLength: nat := 19

  /** Positions of the separators inside the captured text. */
  predicate IsSeparatorPos(k: int) {
    k == 2 || k == 5 || k == 10 || k == 13 || k == 16
  }

  /** `s` is exactly `\d{2}/\d{2}/\d{4} \d{2}:\d{2}:\d{2}`. */
  predicate StampShape(s: string) {
    && |s| == StampLength
    && s[2] == '/' && s[5] == '/' && s[10] == ' ' && s[13] == ':' && s[16] == ':'
    && forall k :: 0 <= k < StampLength && !IsSeparatorPos(k) ==> IsDigit(s[k])
  }

  lemma ShapeFields(s: string)
    requires StampShape(s)
    ensures AllDigits(s[0..2]) && AllDigits(s[3..5]) && AllDigits(s[6..10])
    ensures AllDigits(s[11..13]) && AllDigits(s[14..16]) && AllDigits(s[17..19])
  {
    assert forall k :: 0 <= k < 2 ==> s[0..2][k] == s[k];
    assert forall k :: 0 <= k < 2 ==> s[3..5][k] == s[3 + k];
    assert forall k :: 0 <= k < 4 ==> s[6..10][k] == s[6 + k];
    assert forall k :: 0 <= k < 2 ==> s[11..13][k] == s[11 + k];
    assert forall k :: 0 <= k < 2 ==> s[14..16][k] == s[14 + k];
    assert forall k :: 0 <= k < 2 ==> s[17..19][k] == s[17 + k];
  }

  /** The date-time the fields of a well-shaped capture denote, read
      month first, then day, then year. */
  function StampFields(s: string): DateTime
    requires StampShape(s)
  {
    ShapeFields(s);
    DateTime(DigitsValue(s[6..10]), DigitsValue(s[0..2]), DigitsValue(s[3..5]),
             DigitsValue(s[11..13]), DigitsValue(s[14..16]), DigitsValue(s[17..19]))
  }

  /** `strptime(s, "%m/%d/%Y %H:%M:%S")` on a well-shaped capture: the
      fields are read month first, the capture is accepted exactly when they
      make a real calendar date-time, and it is read as `dt` exactly when
      `dt` prints as the capture. */
  function ParseStamp(s: string): (r: Option<Stamp>)
    requires StampShape(s)
    ensures r.Some? <==> Valid(StampFields(s))
    ensures r.Some? ==> r.value == StampFields(s)
    ensures forall dt: Stamp {:trigger RenderStamp(dt)} :: r == Some(dt) <==> RenderStamp(dt) == s
  {
    var dt := StampFields(s);
    RenderedFields(s);
    if Valid(dt) then Some(dt) else None
  }

  /** `strftime("%m/%d/%Y %H:%M:%S")`: the text the pattern expects. */
  function RenderStamp(dt: Stamp): string {
    Pad2(dt.month) + "/" + Pad2(dt.day) + "/" + Pad4(dt.year) + " "
      + Pad2(dt.hour) + ":" + Pad2(dt.minute) + ":" + Pad2(dt.second)
  }

  /** Rendering a date-time gives a well-shaped capture that parses back to it. */
  lemma StampRoundTrip(dt: Stamp)
    ensures StampShape(RenderStamp(dt))
    ensures ParseStamp(RenderStamp(dt)) == Some(dt)
  {
    RenderFields(dt);
  }

  /** A rendering is well shaped and its fields are the date-time rendered. */
  lemma RenderFields(dt: Stamp)
    ensures StampShape(RenderStamp(dt)) && StampFields(RenderStamp(dt)) == dt
  {
    Pad2RoundTrip(dt.month);
    Pad2RoundTrip(dt.day);
    Pad4RoundTrip(dt.year);
    Pad2RoundTrip(dt.hour);
    Pad2RoundTrip(dt.minute);
    Pad2RoundTrip(dt.second);
    var s := RenderStamp(dt);
    Assemble(Pad2(dt.month), Pad2(dt.day), Pad4(dt.year), Pad2(dt.hour), Pad2(dt.minute), Pad2(dt.second));
    assert StampFields(s) == dt;
  }

  /** Digit runs of the right lengths, joined with the pattern's separators,
      make a well-shaped capture whose fields are those runs. */
  lemma Assemble(mo: string, d: string, y: string, h: string, mi: string, se: string)
    requires |mo| == 2 && |d| == 2 && |y| == 4 && |h| == 2 && |mi| == 2 && |se| == 2
    requires AllDigits(mo) && AllDigits(d) && AllDigits(y)
    requires AllDigits(h) && AllDigits(mi) && AllDigits(se)
    ensures var s := mo + "/" + d + "/" + y + " " + h + ":" + mi + ":" + se;
            && StampShape(s)
            && s[0..2] == mo && s[3..5] == d && s[6..10] == y
            && s[11..13] == h && s[14..16] == mi && s[17..19] == se
  {
    var date, time := mo + "/" + d + "/" + y, h + ":" + mi + ":" + se;
    var s := mo + "/" + d + "/" + y + " " + h + ":" + mi + ":" + se;
    Joined(mo, '/', d, '/', y);
    Joined(h, ':', mi, ':', se);
    Joined(date, ' ', time, ' ', "");
    assert s == date + [' '] + time;
    assert s[0..10] == date && s[11..19] == time;
    assert s[0..2] == date[0..2] && s[3..5] == date[3..5] && s[6..10] == date[6..10];
    assert s[11..13] == time[0..2] && s[14..16] == time[3..5] && s[17..19] == time[6..8];
    forall k | 0 <= k < StampLength && !IsSeparatorPos(k) ensures IsDigit(s[k]) {
      if k < 2 { assert s[k] == mo[k]; }
      else if k < 5 { assert s[k] == d[k - 3]; }
      else if k < 10 { assert s[k] == y[k - 6]; }
      else if k < 13 { assert s[k] == h[k - 11]; }
      else if k < 16 { assert s[k] == mi[k - 14]; }
      else { assert s[k] == se[k - 17]; }
    }
  }

  /** The pieces of `a`, `x`, `b`, `y`, `c` joined sit where their lengths
      put them. */
  lemma Joined(a: string, x: char, b: string, y: char, c: string)
    ensures var t := a + [x] + b + [y] + c;
            && |t| == |a| + |b| + |c| + 2
            && t[..|a|] == a && t[|a|] == x && t[|a| + 1..|a| + 1 + |b|] == b
            && t[|a| + 1 + |b|] == y && t[|a| + 2 + |b|..] == c
  {
    var t := a + [x] + b + [y] + c;
    var u := a + [x] + b;
    assert t == u + [y] + c;
    assert t[..|u|] == u;
    assert u[..|a|] == a && u[|a| + 1..] == b;
    assert t[|a| + 1..|a| + 1 + |b|] == u[|a| + 1..];
  }

  /** The date-times that render as a capture are exactly its fields,
      when those are valid. */
  lemma RenderedFields(s: string)
    requires StampShape(s)
    ensures forall dt: Stamp {:trigger RenderStamp(dt)} ::
              Valid(StampFields(s)) && StampFields(s) == dt <==> RenderStamp(dt) == s
  {
    forall dt: Stamp
      ensures Valid(StampFields(s)) && StampFields(s) == dt <==> RenderStamp(dt) == s
    {
      RenderFields(dt);
      StampParseRender(s);
    }
  }

  /** A capture that parses is exactly the rendering of what it parses to:
      the parser reads every digit and nothing else. */
  lemma StampParseRender(s: string)
    requires StampShape(s)
    ensures Valid(StampFields(s)) ==> RenderStamp(StampFields(s)) == s
  {
    if !Valid(StampFields(s)) {
      return;
    }
    ShapeFields(s);
    Pad2OfDigits(s[0..2]);
    Pad2OfDigits(s[3..5]);
    Pad4OfDigits(s[6..10]);
    Pad2OfDigits(s[11..13]);
    Pad2OfDigits(s[14..16]);
    Pad2OfDigits(s[17..19]);
    assert s == s[0..2] + "/" + s[3..5] + "/" + s[6..10] + " " + s[11..13] + ":" + s[14..16] + ":" + s[17..19];
  }

  /** `<label>:` occurs at position `i`. */
  predicate LabelAt(s: string, name: string, i: int) {
    0 <= i && i + |name| < |s| && s[i..i + |name|] == name && s[i + |name|] == ':'
  }

  predicate SpacesBetween(s: string, a: int, b: int)
    requires 0 <= a <= b <= |s|
  {
    forall k :: a <= k < b ==> IsSpace(s[k])
  }

  /** The regular expression matches at position `i` with its capture group
      starting at `j`: name, colon, whitespace up to `j`, then the stamp shape. */
  predicate MatchesAt(s: string, name: string, i: int, j: int) {
    && LabelAt(s, name, i)
    && i + |name| + 1 <= j && j + StampLength <= |s|
    && SpacesBetween(s, i + |name| + 1, j)
    && StampShape(s[j..j + StampLength])
  }

  /** No match of the pattern starts before position `i`. */
  ghost predicate NoEarlierMatch(s: string, name: string, i: int) {
    forall i', j' :: i' < i ==> !MatchesAt(s, name, i', j')
  }

  /** The end of the whitespace run that starts at `k` (`\s*` is greedy). */
  function SkipSpaces(s: string, k: nat): (j: nat)
    requires k <= |s|
    ensures k <= j <= |s| && SpacesBetween(s, k, j)
    ensures j == |s| || !IsSpace(s[j])
    decreases |s| - k
  {
    if k < |s| && IsSpace(s[k]) then SkipSpaces(s, k + 1) else k
  }

  /** Whether, and where, the pattern matches when tried at position `i`.
      Since a digit is never whitespace, the greedy `\s*` never needs to
      give characters back, so at most one capture start is possible. */
  function MatchAt(s: string, name: string, i: nat): (r: Option<nat>)
    ensures r.Some? ==> MatchesAt(s, name, i, r.value)
    ensures r.None? ==> forall j :: !MatchesAt(s, name, i, j)
  {
    if LabelAt(s, name, i) then
      var j := SkipSpaces(s, i + |name| + 1);
      if j + StampLength <= |s| && StampShape(s[j..j + StampLength]) then Some(j)
      else
        assert forall j' :: MatchesAt(s, name, i, j') ==> j' == j by {
          forall j' | MatchesAt(s, name, i, j') ensures j' == j {
            assert s[j'..j' + StampLength][0] == s[j'];
          }
        }
        None
    else None
  }

  /** `re.search` from position `i`: the leftmost match at or after `i`,
      as (match start, capture start). */
  function Search(s: string, name: string, i: nat): (r: Option<(nat, nat)>)
    ensures r.Some? ==> i <= r.value.0 && MatchesAt(s, name, r.value.0, r.value.1)
    ensures r.Some? ==> forall i', j' :: i <= i' < r.value.0 ==> !MatchesAt(s, name, i', j')
    ensures r.None? ==> forall i', j' :: i <= i' ==> !MatchesAt(s, name, i', j')
    decreases |s| - i
  {
    if i > |s| then None
    else match MatchAt(s, name, i)
      case Some(j) => Some((i, j))
      case None => Search(s, name, i + 1)
  }

  /** Two matches at the same position capture the same text. */
  lemma MatchUnique(s: string, name: string, i: int, j1: int, j2: int)
    requires MatchesAt(s, name, i, j1) && MatchesAt(s, name, i, j2)
    ensures j1 == j2
  {
    assert s[j1..j1 + StampLength][0] == s[j1];
    assert s[j2..j2 + StampLength][0] == s[j2];
  }

  /** `extract_time(text, name)`: the timestamp captured by the FIRST match
      of the pattern, if that capture is a valid date-time; `None` when there
      is no match or when the first match does not parse (later matches are
      never consulted). */
  function ExtractTime(s: string, name: string): (r: Option<Stamp>)
    ensures (forall i, j :: !MatchesAt(s, name, i, j)) ==> r == None
    ensures forall i, j :: MatchesAt(s, name, i, j) && NoEarlierMatch(s, name, i) ==>
              r == ParseStamp(s[j..j + StampLength])
  {
    SearchFindsFirst(s, name);
    match Search(s, name, 0)
    case None => None
    case Some((i0, j0)) => ParseStamp(s[j0..j0 + StampLength])
  }

  /** The search from the start finds the first match, whichever it is. */
  lemma SearchFindsFirst(s: string, name: string)
    ensures forall i, j :: MatchesAt(s, name, i, j) && NoEarlierMatch(s, name, i) ==>
              Search(s, name, 0) == Some((i, j))
  {
    var r := Search(s, name, 0);
    forall i, j | MatchesAt(s, name, i, j) && NoEarlierMatch(s, name, i)
      ensures r == Some((i, j))
    {
      MatchUnique(s, name, i, j, r.value.1);
    }
  }

  /** Any match found is a real one, and a resolved timestamp is valid. */
  lemma ExtractFound(s: string, name: string)
    requires ExtractTime(s, name).Some?
    ensures exists i, j :: MatchesAt(s, name, i, j) && NoEarlierMatch(s, name, i)
                           && ExtractTime(s, name) == ParseStamp(s[j..j + StampLength])
  {
    var r := Search(s, name, 0);
    assert r.Some?;
    var (i, j) := r.value;
    assert MatchesAt(s, name, i, j) && NoEarlierMatch(s, name, i);
  }

  /** Text that starts with `<label>:`, whitespace and a rendered date-time
      yields exactly that date-time, whatever follows. */
  lemma ExtractRoundTrip(name: string, gap: string, dt: Stamp, rest: string)
    requires forall k :: 0 <= k < |gap| ==> IsSpace(gap[k])
    ensures ExtractTime(name + ":" + gap + RenderStamp(dt) + rest, name) == Some(dt)
  {
    var s := name + ":" + gap + RenderStamp(dt) + rest;
    var j := |name| + 1 + |gap|;
    StampRoundTrip(dt);
    assert s[0..|name|] == name;
    assert s[j..j + StampLength] == RenderStamp(dt);
    assert SpacesBetween(s, |name| + 1, j) by {
      forall k | |name| + 1 <= k < j ensures IsSpace(s[k]) {
        assert s[k] == gap[k - |name| - 1];
      }
    }
    assert MatchesAt(s, name, 0, j);
  }

  /** Only the first match counts: if it is well-shaped but not a valid
      date-time (month 13, February 30th, year 0000, hour 24, ...), the
      result is `None` even when a valid timestamp follows. */
  lemma FirstMatchDecides(name: string, bad: string, rest: string)
    requires StampShape(bad) && ParseStamp(bad) == None
    ensures ExtractTime(name + ":" + bad + rest, name) == None
  {
    var s := name + ":" + bad + rest;
    var j := |name| + 1;
    assert s[0..|name|] == name;
    assert s[j..j + StampLength] == bad;
    assert MatchesAt(s, name, 0, j);
  }

  /** Extraction is blind to a name that is absent from the text. */
  lemma ExtractAbsent(s: string, name: string)
    requires forall i :: !LabelAt(s, name, i)
    ensures ExtractTime(s, name) == None
  {
  }

  /** The fields of a capture, digit by digit. */
  lemma StampFieldDigits(s: string)
    requires StampShape(s)
    ensures StampFields(s).month == DigitValue(s[0]) * 10 + DigitValue(s[1])
    ensures StampFields(s).day == DigitValue(s[3]) * 10 + DigitValue(s[4])
    ensures StampFields(s).year == DigitValue(s[6]) * 1000 + DigitValue(s[7]) * 100
                                   + DigitValue(s[8]) * 10 + DigitValue(s[9])
    ensures StampFields(s).hour == DigitValue(s[11]) * 10 + DigitValue(s[12])
    ensures StampFields(s).minute == DigitValue(s[14]) * 10 + DigitValue(s[15])
    ensures StampFields(s).second == DigitValue(s[17]) * 10 + DigitValue(s[18])
  {
    ShapeFields(s);
    DigitsValue2(s[0..2]);
    DigitsValue2(s[3..5]);
    DigitsValue4(s[6..10]);
    DigitsValue2(s[11..13]);
    DigitsValue2(s[14..16]);
    DigitsValue2(s[17..19]);
  }

  /** Fields are read month first: `02/03/2024` is February 3rd. */
  lemma MonthFirst()
    ensures ParseStamp("02/03/2024 10:00:00") == Some(DateTime(2024, 2, 3, 10, 0, 0))
  {
    StampFieldDigits("02/03/2024 10:00:00");
  }

  /** A first field above 12 is rejected rather than read as a day. */
  lemma MonthThirteenRejected()
    ensures ParseStamp("13/01/2024 00:00:00") == None
  {
    StampFieldDigits("13/01/2024 00:00:00");
  }

  /** February 29th exists only in leap years. */
  lemma LeapDay()
    ensures ParseStamp("02/29/2023 00:00:00") == None
    ensures ParseStamp("02/29/2024 00:00:00") == Some(DateTime(2024, 2, 29, 0, 0, 0))
  {
    NoLeapDay2023();
    LeapDay2024();
  }

  lemma NoLeapDay2023()
    ensures ParseStamp("02/29/2023 00:00:00") == None
  {
    StampFieldDigits("02/29/2023 00:00:00");
  }

  lemma LeapDay2024()
    ensures ParseStamp("02/29/2024 00:00:00") == Some(DateTime(2024, 2, 29, 0, 0, 0))
  {
    StampFieldDigits("02/29/2024 00:00:00");
  }

  /** Year 0000 and hour 24 are outside what `datetime` accepts. */
  lemma YearZeroAndHour24Rejected()
    ensures ParseStamp("01/01/0000 00:00:00") == None
    ensures ParseStamp("01/01/2024 24:00:00") == None
  {
    StampFieldDigits("01/01/0000 00:00:00");
    StampFieldDigits("01/01/2024 24:00:00");
  }
}
