/** Per-file start/end extraction and the totals over a folder of files
    (`extract_test_times`, `calculate_total_test_time`).  The directory walk
    is abstracted to the sequence of files it yields, each either its text or
    `None` when reading it raised `FileNotFoundError`. */
module Aggregation {
  import opened Text
  import opened Civil
  import opened Extraction
  import opened Sequences

  /** One entry of `test_times`: `(start_time, end_time, test_time)`. */
  datatype TestTime = TestTime(start: Stamp, end: Stamp, duration: int)

  /** `end - start` in whole seconds: signed, never clamped.  It is
      negative exactly when the end comes before the start, and zero exactly
      when they are the same date-time. */
  function Elapsed(start: Stamp, end: Stamp): (r: int)
    ensures r < 0 <==> Before(end, start)
    ensures r == 0 <==> start == end
    ensures r > 0 <==> Before(start, end)
  {
    InstantOrder(end, start);
    InstantOrder(start, end);
    Instant(end) - Instant(start)
  }

  predicate WellFormed(t: TestTime) {
    t.duration == Elapsed(t.start, t.end)
  }

  /** A file as read: its text, or `None` when the read failed. */
  type File = Option<string>

  /** `extract_test_times`: both labelled timestamps of a file that could be
      read, `None` for a file that could not. */
  function ExtractTestTimes(f: File): (r: Option<(Option<Stamp>, Option<Stamp>)>)
    ensures r.Some? <==> f.Some?
    ensures f.Some? ==> r.value == (ExtractTime(f.value, StartLabel), ExtractTime(f.value, EndLabel))
  {
    match f
    case None => None
    case Some(text) => Some((ExtractTime(text, StartLabel), ExtractTime(text, EndLabel)))
  }

  /** The record a file contributes to the aggregate, if any. */
  function FileRecord(f: File): (r: Option<TestTime>)
    ensures r.Some? <==> f.Some? && ExtractTime(f.value, StartLabel).Some?
                                  && ExtractTime(f.value, EndLabel).Some?
    ensures r.Some? ==> && r.value.start == ExtractTime(f.value, StartLabel).value
                        && r.value.end == ExtractTime(f.value, EndLabel).value
                        && WellFormed(r.value)
  {
    match ExtractTestTimes(f)
    case Some((Some(start), Some(end))) => Some(TestTime(start, end, Elapsed(start, end)))
    case _ => None
  }

  /** The records of the files that resolve both timestamps, in file order:
      every record kept comes from some file, and every file that yields a
      record has it kept. */
  function Kept(files: seq<File>): (r: seq<TestTime>)
    ensures |r| <= |files|
    ensures forall k :: 0 <= k < |r| ==> WellFormed(r[k])
    ensures forall k :: 0 <= k < |r| ==>
              exists i :: 0 <= i < |files| && FileRecord(files[i]) == Some(r[k])
    ensures forall i :: 0 <= i < |files| && FileRecord(files[i]).Some? ==>
              FileRecord(files[i]).value in r
  {
    FilterMapFrom(files, FileRecord);
    FilterMapKeeps(files, FileRecord);
    FilterMap(files, FileRecord)
  }

  function SumDurations(rs: seq<TestTime>): int {
    if |rs| == 0 then 0 else rs[0].duration + SumDurations(rs[1..])
  }

  /** `(total_time, file_count, test_times)`. */
  datatype Summary = Summary(total: int, count: nat, records: seq<TestTime>)

  /** `calculate_total_test_time` over the files the folder yields, in the
      order it yields them. */
  method CalculateTotalTestTime(files: seq<File>) returns (s: Summary)
    ensures s.records == Kept(files)
    ensures s.count == |s.records|
    ensures s.total == SumDurations(s.records)
  {
    var total := 0;
    var count := 0;
    var records := [];
    for i := 0 to |files|
      invariant records == FilterMap(files[..i], FileRecord)
      invariant count == |records|
      invariant total == SumDurations(records)
    {
      FilterMapSnoc(files, i, FileRecord);
      var record := FileContribution(files[i]);
      if record.Some? {
        SumAppend(records, [record.value]);
        total := total + record.value.duration;
        count := count + 1;
        records := records + [record.value];
      }
    }
    assert files[..|files|] == files;
    return Summary(total, count, records);
  }

  /** The body of the folder loop for one file: extract both timestamps
      and, when both resolve, build the record `(start, end, end - start)`. */
  method FileContribution(f: File) returns (record: Option<TestTime>)
    ensures record == FileRecord(f)
  {
    var times := ExtractTestTimes(f);
    if times.Some? {
      var (start, end) := times.value;
      if start.Some? && end.Some? {
        RecordOfResolved(f, start.value, end.value);
        return Some(TestTime(start.value, end.value, Elapsed(start.value, end.value)));
      }
    }
    RecordOfUnresolved(f);
    return None;
  }

  /** A file whose two timestamps both resolve contributes their record. */
  lemma RecordOfResolved(f: File, start: Stamp, end: Stamp)
    requires ExtractTestTimes(f) == Some((Some(start), Some(end)))
    ensures FileRecord(f) == Some(TestTime(start, end, Elapsed(start, end)))
  {
  }

  /** Any other file contributes nothing. */
  lemma RecordOfUnresolved(f: File)
    requires ExtractTestTimes(f).None? || ExtractTestTimes(f).value.0.None?
             || ExtractTestTimes(f).value.1.None?
    ensures FileRecord(f) == None
  {
  }

  /** One more file appends that file's records. */
  lemma KeptSnoc(files: seq<File>, i: nat)
    requires i < |files|
    ensures Kept(files[..i + 1]) == Kept(files[..i]) + Present(FileRecord(files[i]))
  {
    FilterMapSnoc(files, i, FileRecord);
  }

  lemma {:induction false} SumAppend(a: seq<TestTime>, b: seq<TestTime>)
    ensures SumDurations(a + b) == SumDurations(a) + SumDurations(b)
    decreases |a|
  {
    if |a| == 0 {
      assert a + b == b;
    } else {
      assert (a + b)[1..] == a[1..] + b;
      SumAppend(a[1..], b);
    }
  }

  /** Processing files one after another keeps their records in order:
      the records of `a + b` are those of `a` followed by those of `b`. */
  lemma KeptAppend(a: seq<File>, b: seq<File>)
    ensures Kept(a + b) == Kept(a) + Kept(b)
  {
    FilterMapAppend(a, b, FileRecord);
  }

  /** A file missing either timestamp (or unreadable) changes neither the
      records, nor therefore the count or the total, wherever it appears. */
  lemma SkippedFileIsInvisible(a: seq<File>, f: File, b: seq<File>)
    requires FileRecord(f).None?
    ensures Kept(a + [f] + b) == Kept(a + b)
  {
    KeptAppend(a + [f], b);
    KeptAppend(a, [f]);
    KeptAppend(a, b);
    FilterMapSingle(f, FileRecord);
  }

  /** A file resolving both timestamps adds exactly one record, whose
      duration is its `end - start`, at its own position. */
  lemma ResolvedFileContributes(a: seq<File>, f: File, b: seq<File>)
    requires FileRecord(f).Some?
    ensures Kept(a + [f] + b) == Kept(a) + [FileRecord(f).value] + Kept(b)
    ensures SumDurations(Kept(a + [f] + b))
            == SumDurations(Kept(a)) + Elapsed(FileRecord(f).value.start, FileRecord(f).value.end)
               + SumDurations(Kept(b))
  {
    KeptAppend(a + [f], b);
    KeptAppend(a, [f]);
    FilterMapSingle(f, FileRecord);
    SumAppend(Kept(a) + [FileRecord(f).value], Kept(b));
    SumAppend(Kept(a), [FileRecord(f).value]);
  }

  /** The total does not depend on the order of the records. */
  lemma {:induction false} SumDurationsPermutation(a: seq<TestTime>, b: seq<TestTime>)
    requires multiset(a) == multiset(b)
    ensures SumDurations(a) == SumDurations(b)
    decreases |a|
  {
    if |a| == 0 {
      assert |b| == |multiset(b)| == 0;
    } else {
      var k := PermutationSplit(a, b);
      SumDurationsPermutation(a[1..], b[..k] + b[k + 1..]);
      SumAppend(b[..k], [a[0]] + b[k + 1..]);
      SumAppend([a[0]], b[k + 1..]);
      SumAppend(b[..k], b[k + 1..]);
      assert b[..k] + [a[0]] + b[k + 1..] == b[..k] + ([a[0]] + b[k + 1..]);
    }
  }

  /** The total and the count are independent of the order in which the
      files are processed. */
  lemma TotalOrderIndependent(a: seq<File>, b: seq<File>)
    requires multiset(a) == multiset(b)
    ensures SumDurations(Kept(a)) == SumDurations(Kept(b))
    ensures |Kept(a)| == |Kept(b)|
  {
    FilterMapPermutation(a, b, FileRecord);
    SumDurationsPermutation(Kept(a), Kept(b));
    assert |Kept(a)| == |multiset(Kept(a))|;
    assert |Kept(b)| == |multiset(Kept(b))|;
  }
}
