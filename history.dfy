/**
 * The archive of inspected frames, where each file name is the record:
 * `img_<YYYYMMDD>_<HHMMSS>_<result>.jpg`. Covers the name the upload handler
 * writes, the parser shared by the full-history and export handlers, their
 * scan, sort and row numbering, and the short recent-images list. The
 * directory listing is an input sequence of names, in listing order.
 */
module History {
  import opened Wrappers
  import opened PyStr
  import opened Order

  // ---------------------------------------------------------------- writing

  /** Local time as `time.strftime` sees it. */
  datatype Clock = Clock(year: nat, month: nat, day: nat, hour: nat, minute: nat, second: nat)

  /** Calendar fields in range, with a four-digit year. */
  predicate ValidClock(c: Clock) {
    1000 <= c.year <= 9999 && 1 <= c.month <= 12 && 1 <= c.day <= 31 &&
    c.hour < 24 && c.minute < 60 && c.second <= 61
  }

  predicate IsDigits(s: string) {
    forall i :: 0 <= i < |s| ==> '0' <= s[i] <= '9'
  }

  function Digit(n: nat): (c: char)
    requires n < 10
    ensures '0' <= c <= '9'
  {
    ('0' as int + n) as char
  }

  /** Zero-padded decimal of `width` digits, as `%m`, `%d`, `%H`, ... and `%Y` print. */
  function Padded(n: nat, width: nat): (r: string)
    ensures |r| == width && IsDigits(r)
  {
    if width == 0 then [] else Padded(n / 10, width - 1) + [Digit(n % 10)]
  }

  function Pow10(k: nat): nat {
    if k == 0 then 1 else 10 * Pow10(k - 1)
  }

  /** The number a string of decimal digits spells. */
  function DecimalValue(s: string): nat
    requires IsDigits(s)
  {
    if s == [] then 0
    else DecimalValue(s[..|s| - 1]) * 10 + (s[|s| - 1] as int - '0' as int)
  }

  /** A padded field reads back as its number whenever the number fits the width. */
  lemma {:induction false} PaddedReadsBack(n: nat, width: nat)
    requires n < Pow10(width)
    ensures DecimalValue(Padded(n, width)) == n
  {
    if width > 0 {
      PaddedReadsBack(n / 10, width - 1);
      var p := Padded(n / 10, width - 1);
      assert (p + [Digit(n % 10)])[..|p|] == p;
    }
  }

  /** `time.strftime("%Y%m%d_%H%M%S")`: the date, an underscore, the time. */
  function Timestamp(c: Clock): (r: string)
    requires ValidClock(c)
    ensures |r| == 15 && r[8] == '_' && IsDigits(r[..8]) && IsDigits(r[9..])
  {
    var date := Padded(c.year, 4) + Padded(c.month, 2) + Padded(c.day, 2);
    var time := Padded(c.hour, 2) + Padded(c.minute, 2) + Padded(c.second, 2);
    assert (date + "_" + time)[..8] == date && (date + "_" + time)[9..] == time;
    date + "_" + time
  }

  /** The fields of the timestamp, read as decimal numbers, are the clock's fields. */
  lemma TimestampSpellsClock(c: Clock)
    requires ValidClock(c)
    ensures var t := Timestamp(c);
      DecimalValue(t[..4]) == c.year && DecimalValue(t[4..6]) == c.month &&
      DecimalValue(t[6..8]) == c.day && DecimalValue(t[9..11]) == c.hour &&
      DecimalValue(t[11..13]) == c.minute && DecimalValue(t[13..]) == c.second
  {
    var y, mo, d := Padded(c.year, 4), Padded(c.month, 2), Padded(c.day, 2);
    var h, mi, se := Padded(c.hour, 2), Padded(c.minute, 2), Padded(c.second, 2);
    TimestampSlices(Timestamp(c), y, mo, d, h, mi, se);
    assert Pow10(2) == 100 && Pow10(4) == 10000;
    PaddedReadsBack(c.year, 4);
    PaddedReadsBack(c.month, 2);
    PaddedReadsBack(c.day, 2);
    PaddedReadsBack(c.hour, 2);
    PaddedReadsBack(c.minute, 2);
    PaddedReadsBack(c.second, 2);
  }

  /** The six fields of a `%Y%m%d_%H%M%S` string sit at fixed offsets. */
  lemma TimestampSlices(t: string, y: string, mo: string, d: string, h: string, mi: string, se: string)
    requires |y| == 4 && |mo| == 2 && |d| == 2 && |h| == 2 && |mi| == 2 && |se| == 2
    requires t == y + mo + d + "_" + h + mi + se
    ensures t[..4] == y && t[4..6] == mo && t[6..8] == d
    ensures t[9..11] == h && t[11..13] == mi && t[13..] == se
  {
  }

  /** Distinct valid clock readings get distinct timestamps. */
  lemma TimestampInjective(c1: Clock, c2: Clock)
    requires ValidClock(c1) && ValidClock(c2)
    requires Timestamp(c1) == Timestamp(c2)
    ensures c1 == c2
  {
    TimestampSpellsClock(c1);
    TimestampSpellsClock(c2);
  }

  /** The archive name the upload handler writes for a frame: `img_{timestamp}_{result}.jpg`. */
  function ArchiveName(timestamp: string, result: string): (r: string)
    ensures StartsWith(r, "img_") && EndsWith(r, ".jpg")
    ensures |r| == |timestamp| + |result| + 9
    ensures r[4..4 + |timestamp|] == timestamp && r[4 + |timestamp|] == '_'
    ensures r[5 + |timestamp|..|r| - 4] == result
  {
    var r := "img_" + timestamp + "_" + result + ".jpg";
    assert r[..4] == "img_" && r[|r| - 4..] == ".jpg";
    r
  }

  // ---------------------------------------------------------------- reading

  /** One history entry: the file, its day-first date, its time and its result. */
  datatype Record = Record(file: string, date: string, time: string, result: string)

  /** `YYYYMMDD` shown day-first as `DD/MM/YYYY`, with Python's clamped slices. */
  function DayFirst(d: string): (r: string)
    ensures |r| == |d| + 2
    ensures |d| == 8 ==> r == d[6..] + "/" + d[4..6] + "/" + d[..4]
  {
    Slice(d, 6, |d|) + "/" + Slice(d, 4, 6) + "/" + Slice(d, 0, 4)
  }

  /** `HHMMSS` shown as `HH:MM:SS`, with Python's clamped slices. */
  function Colons(t: string): (r: string)
    ensures |r| == |t| + 2
    ensures |t| == 6 ==> r == t[..2] + ":" + t[2..4] + ":" + t[4..]
  {
    Slice(t, 0, 2) + ":" + Slice(t, 2, 4) + ":" + Slice(t, 4, |t|)
  }

  /**
   * The parser of the history and export handlers. A name must start with
   * `img_` and end with `.jpg`; every `.jpg` is removed and the rest split on
   * `_`. A name with fewer than three parts makes `parts[2]` fail and is
   * skipped; no other name is, whatever its characters. The result is the
   * fourth part, or "Unknown" when there is none.
   */
  function ParseName(f: string): (r: Option<Record>)
    ensures r.Some? <==>
      StartsWith(f, "img_") && EndsWith(f, ".jpg") && |Split(RemoveAll(f, ".jpg"), '_')| >= 3
    ensures r.Some? ==> r.value.file == f
  {
    if EndsWith(f, ".jpg") && StartsWith(f, "img_") then
      var parts := Split(RemoveAll(f, ".jpg"), '_');
      if |parts| < 3 then None
      else
        var result := if |parts| > 3 then parts[3] else "Unknown";
        Some(Record(f, DayFirst(parts[1]), Colons(parts[2]), result))
    else None
  }

  /** The body of an archive name splits into its prefix, date, time and the result's own parts. */
  lemma SplitArchiveBody(date: string, time: string, result: string)
    requires '_' !in date && '_' !in time
    ensures Split("img_" + date + "_" + time + "_" + result, '_') == ["img", date, time] + Split(result, '_')
  {
    var tr := time + "_" + result;
    SplitField(time, '_', result);
    var dtr := date + "_" + tr;
    SplitField(date, '_', tr);
    var whole := "img" + "_" + dtr;
    SplitField("img", '_', dtr);
    ArchiveBodyRegrouped(date, time, result);
  }

  lemma ArchiveBodyRegrouped(date: string, time: string, result: string)
    ensures "img" + "_" + (date + "_" + (time + "_" + result)) == "img_" + date + "_" + time + "_" + result
  {
    assert "img" + "_" == "img_";
  }

  /** An archive name is `img_` and a body free of dots, then `.jpg`. */
  lemma ArchiveNameShape(date: string, time: string, result: string)
    requires '.' !in date && '.' !in time && '.' !in result
    ensures StartsWith(ArchiveName(date + "_" + time, result), "img_")
    ensures EndsWith(ArchiveName(date + "_" + time, result), ".jpg")
    ensures RemoveAll(ArchiveName(date + "_" + time, result), ".jpg") == "img_" + date + "_" + time + "_" + result
  {
    var body := "img_" + date + "_" + time + "_" + result;
    var f := ArchiveName(date + "_" + time, result);
    assert f == body + ".jpg";
    assert f[..4] == "img_";
    assert f[|f| - 4..] == ".jpg";
    assert forall i :: 0 <= i < |body| ==> body[i] != '.' by {
      forall i | 0 <= i < |body| ensures body[i] != '.' {
        if i < 4 {
        } else if i < 4 + |date| {
          assert body[i] == date[i - 4];
        } else if i == 4 + |date| {
        } else if i < 5 + |date| + |time| {
          assert body[i] == time[i - 5 - |date|];
        } else if i == 5 + |date| + |time| {
        } else {
          assert body[i] == result[i - 6 - |date| - |time|];
        }
      }
    }
    RemoveTrailing(body, ".jpg");
  }

  /**
   * Parsing the name written for `date`, `time` and `result` gives the date
   * day-first, the time with colons, and the result up to its first
   * underscore (the whole result when it has none).
   */
  lemma ParseArchiveName(date: string, time: string, result: string)
    requires |date| == 8 && |time| == 6
    requires '_' !in date && '_' !in time
    requires '.' !in date && '.' !in time && '.' !in result
    ensures ParseName(ArchiveName(date + "_" + time, result)) ==
      Some(Record(ArchiveName(date + "_" + time, result),
                  date[6..] + "/" + date[4..6] + "/" + date[..4],
                  time[..2] + ":" + time[2..4] + ":" + time[4..],
                  Split(result, '_')[0]))
  {
    var f := ArchiveName(date + "_" + time, result);
    ArchiveNameShape(date, time, result);
    SplitArchiveBody(date, time, result);
    var parts := Split(RemoveAll(f, ".jpg"), '_');
    assert parts == ["img", date, time] + Split(result, '_');
    assert parts[1] == date && parts[2] == time && parts[3] == Split(result, '_')[0];
  }

  /**
   * A name with only a date and a time, `img_<date>_<time>.jpg`, is accepted
   * with the result "Unknown".
   */
  lemma ParseNameWithoutResult(date: string, time: string)
    requires |date| == 8 && |time| == 6
    requires '_' !in date && '_' !in time
    requires '.' !in date && '.' !in time
    ensures var f := "img_" + date + "_" + time + ".jpg";
      ParseName(f) ==
      Some(Record(f, date[6..] + "/" + date[4..6] + "/" + date[..4],
                  time[..2] + ":" + time[2..4] + ":" + time[4..], "Unknown"))
  {
    var f := "img_" + date + "_" + time + ".jpg";
    BareNameShape(date, time);
    SplitBareBody(date, time);
    var parts := Split(RemoveAll(f, ".jpg"), '_');
    assert parts == ["img", date, time];
  }

  /** A name without a result is `img_` and a body free of dots, then `.jpg`. */
  lemma BareNameShape(date: string, time: string)
    requires '.' !in date && '.' !in time
    ensures var f := "img_" + date + "_" + time + ".jpg";
      StartsWith(f, "img_") && EndsWith(f, ".jpg") &&
      RemoveAll(f, ".jpg") == "img_" + date + "_" + time
  {
    var body := "img_" + date + "_" + time;
    var f := body + ".jpg";
    assert f == "img_" + date + "_" + time + ".jpg";
    assert f[..4] == "img_" && f[|f| - 4..] == ".jpg";
    forall i | 0 <= i < |body| ensures body[i] != '.' {
      if 4 <= i < 4 + |date| {
        assert body[i] == date[i - 4];
      } else if i > 4 + |date| {
        assert body[i] == time[i - 5 - |date|];
      }
    }
    RemoveTrailing(body, ".jpg");
  }

  lemma SplitBareBody(date: string, time: string)
    requires '_' !in date && '_' !in time
    ensures Split("img_" + date + "_" + time, '_') == ["img", date, time]
  {
    var dt := date + "_" + time;
    SplitNoSeparator(time, '_');
    assert date + ['_'] + time == dt;
    SplitField(date, '_', time);
    assert Split(dt, '_') == [date, time];
    assert '_' !in "img";
    SplitField("img", '_', dt);
    assert "img" + ['_'] + dt == "img_" + date + "_" + time;
  }

  /** The round trip through the clock: what the upload handler archives reads back. */
  lemma ArchivedFrameReadsBack(c: Clock, result: string)
    requires ValidClock(c)
    requires '_' !in result && '.' !in result
    ensures ParseName(ArchiveName(Timestamp(c), result)) ==
      Some(Record(ArchiveName(Timestamp(c), result),
                  Padded(c.day, 2) + "/" + Padded(c.month, 2) + "/" + Padded(c.year, 4),
                  Padded(c.hour, 2) + ":" + Padded(c.minute, 2) + ":" + Padded(c.second, 2),
                  result))
  {
    var date := Padded(c.year, 4) + Padded(c.month, 2) + Padded(c.day, 2);
    var time := Padded(c.hour, 2) + Padded(c.minute, 2) + Padded(c.second, 2);
    TimestampFields(c);
    ParseArchiveName(date, time, result);
    SplitNoSeparator(result, '_');
  }

  /** The date and time halves of a timestamp: digits only, and their fields are the padded clock fields. */
  lemma TimestampFields(c: Clock)
    requires ValidClock(c)
    ensures var date := Padded(c.year, 4) + Padded(c.month, 2) + Padded(c.day, 2);
      var time := Padded(c.hour, 2) + Padded(c.minute, 2) + Padded(c.second, 2);
      Timestamp(c) == date + "_" + time && |date| == 8 && |time| == 6 &&
      '_' !in date && '.' !in date && '_' !in time && '.' !in time &&
      date[6..] == Padded(c.day, 2) && date[4..6] == Padded(c.month, 2) && date[..4] == Padded(c.year, 4) &&
      time[..2] == Padded(c.hour, 2) && time[2..4] == Padded(c.minute, 2) && time[4..] == Padded(c.second, 2)
  {
    DigitFields(Padded(c.year, 4), Padded(c.month, 2), Padded(c.day, 2));
    DigitFields(Padded(c.hour, 2), Padded(c.minute, 2), Padded(c.second, 2));
  }

  /** Three digit fields written side by side: no separator inside, each field at its offset. */
  lemma DigitFields(a: string, b: string, c: string)
    requires IsDigits(a) && IsDigits(b) && IsDigits(c)
    ensures var s := a + b + c;
      '_' !in s && '.' !in s &&
      s[..|a|] == a && s[|a|..|a| + |b|] == b && s[|a| + |b|..] == c
  {
    var s := a + b + c;
    assert forall i :: 0 <= i < |s| ==> '0' <= s[i] <= '9' by {
      forall i | 0 <= i < |s| ensures '0' <= s[i] <= '9' {
        if i < |a| { assert s[i] == a[i]; }
        else if i < |a| + |b| { assert s[i] == b[i - |a|]; }
        else { assert s[i] == c[i - |a| - |b|]; }
      }
    }
  }

  // ------------------------------------------------------ scanning and order

  /** The records of the parseable names, in listing order. */
  function Accepted(files: seq<string>): seq<Record> {
    if files == [] then []
    else
      var rest := Accepted(files[..|files| - 1]);
      assert files == files[..|files| - 1] + [files[|files| - 1]];
      match ParseName(files[|files| - 1])
      case Some(r) => rest + [r]
      case None => rest
  }

  /**
   * The records are exactly those of the parseable names: each comes from a
   * listed name whose parse it is, and each parseable listed name has one.
   */
  lemma {:induction false} AcceptedMembers(files: seq<string>)
    ensures forall r :: r in Accepted(files) ==> r.file in files && ParseName(r.file) == Some(r)
    ensures forall f :: f in files && ParseName(f).Some? ==> ParseName(f).value in Accepted(files)
  {
    if files != [] {
      var init := files[..|files| - 1];
      var last := files[|files| - 1];
      AcceptedMembers(init);
      assert files == init + [last];
      var parsed := ParseName(last);
      var added := if parsed.Some? then [parsed.value] else [];
      assert Accepted(files) == Accepted(init) + added;
      forall r | r in Accepted(files) ensures r.file in files && ParseName(r.file) == Some(r) {
        if r !in Accepted(init) {
          assert r in added;
        }
      }
      forall f | f in files && ParseName(f).Some? ensures ParseName(f).value in Accepted(files) {
        if f != last {
          assert f in init;
        }
      }
    }
  }

  /** A parseable name's record is collected exactly as often as the name is listed. */
  lemma {:induction false} AcceptedCounts(files: seq<string>, f: string)
    requires ParseName(f).Some?
    ensures multiset(Accepted(files))[ParseName(f).value] == multiset(files)[f]
  {
    if files != [] {
      var init := files[..|files| - 1];
      var last := files[|files| - 1];
      AcceptedCounts(init, f);
      assert files == init + [last];
      AcceptedCountsStep(init, last, f);
    }
  }

  /** `Accepted` grows by the parse of the last name, if it has one. */
  lemma AcceptedSnoc(files: seq<string>)
    requires files != []
    ensures var parsed := ParseName(files[|files| - 1]);
      Accepted(files) == Accepted(files[..|files| - 1]) + (if parsed.Some? then [parsed.value] else [])
  {
  }

  /** The inductive step of `AcceptedCounts`: one more name at the end of the listing. */
  lemma AcceptedCountsStep(init: seq<string>, last: string, f: string)
    requires ParseName(f).Some?
    requires multiset(Accepted(init))[ParseName(f).value] == multiset(init)[f]
    ensures multiset(Accepted(init + [last]))[ParseName(f).value] == multiset(init + [last])[f]
  {
    var files := init + [last];
    assert files[..|files| - 1] == init && files[|files| - 1] == last;
    AcceptedSnoc(files);
    CountStep(init, last, f, Accepted(init), Accepted(files), ParseName(f).value, ParseName(last));
  }

  /**
   * The step of `AcceptedCounts`: appending the record parsed from `last`
   * (if any) counts `f`'s record once more exactly when `last` is `f`.
   */
  lemma CountStep(init: seq<string>, last: string, f: string,
                  before: seq<Record>, after: seq<Record>, rf: Record, parsed: Option<Record>)
    requires rf.file == f
    requires parsed.Some? ==> parsed.value.file == last
    requires last == f ==> parsed == Some(rf)
    requires after == before + (if parsed.Some? then [parsed.value] else [])
    requires multiset(before)[rf] == multiset(init)[f]
    ensures multiset(after)[rf] == multiset(init + [last])[f]
  {
    assert multiset(init + [last]) == multiset(init) + multiset{last};
    if parsed.Some? {
      assert multiset(after) == multiset(before) + multiset{parsed.value};
    }
  }

  /** The sort key of both history handlers: the `(date, time)` pair of strings. */
  function RecordKey(r: Record): seq<string> {
    [r.date, r.time]
  }

  /** The scan loop shared by the history and export handlers. */
  method CollectRecords(files: seq<string>) returns (records: seq<Record>)
    ensures records == Accepted(files)
  {
    records := [];
    var i := 0;
    while i < |files|
      invariant 0 <= i <= |files|
      invariant records == Accepted(files[..i])
    {
      assert files[..i + 1][..i] == files[..i];
      match ParseName(files[i]) {
        case Some(r) => records := records + [r];
        case None =>
      }
      i := i + 1;
    }
    assert files[..i] == files;
  }

  /**
   * `get_full_history`: every parseable name, each exactly as often as it is
   * listed, in non-increasing `(date, time)` order.
   */
  method FullHistory(files: seq<string>) returns (history: seq<Record>)
    ensures history == SortDesc(Accepted(files), RecordKey)
    ensures multiset(history) == multiset(Accepted(files))
    ensures SortedDesc(history, RecordKey)
    ensures forall r :: r in history <==> r in Accepted(files)
    ensures forall r :: r in history ==> r.file in files && ParseName(r.file) == Some(r)
  {
    var records := CollectRecords(files);
    history := SortDesc(records, RecordKey);
    SortDescSorted(records, RecordKey);
    AcceptedMembers(files);
    forall r ensures r in history <==> r in records {
      assert r in history <==> r in multiset(history);
    }
  }

  /** The record of an archive name with result "OK". */
  lemma ReadsBackOk(f: string, date: string, time: string, shownDate: string, shownTime: string)
    requires |date| == 8 && |time| == 6
    requires '_' !in date && '_' !in time && '.' !in date && '.' !in time
    requires f == ArchiveName(date + "_" + time, "OK")
    requires shownDate == date[6..] + "/" + date[4..6] + "/" + date[..4]
    requires shownTime == time[..2] + ":" + time[2..4] + ":" + time[4..]
    ensures ParseName(f) == Some(Record(f, shownDate, shownTime, "OK"))
  {
    assert '.' !in "OK";
    ParseArchiveName(date, time, "OK");
    SplitNoSeparator("OK", '_');
  }

  lemma ExampleNames()
    ensures ArchiveName("20240131" + "_" + "080000", "OK") == "img_20240131_080000_OK.jpg"
    ensures ArchiveName("20240201" + "_" + "080000", "OK") == "img_20240201_080000_OK.jpg"
  {
    assert "img_" + ("20240131" + "_" + "080000") + "_" + "OK" + ".jpg" == "img_20240131_080000_OK.jpg";
    assert "img_" + ("20240201" + "_" + "080000") + "_" + "OK" + ".jpg" == "img_20240201_080000_OK.jpg";
  }

  lemma ExampleFields()
    ensures "20240131"[6..] + "/" + "20240131"[4..6] + "/" + "20240131"[..4] == "31/01/2024"
    ensures "20240201"[6..] + "/" + "20240201"[4..6] + "/" + "20240201"[..4] == "01/02/2024"
    ensures "080000"[..2] + ":" + "080000"[2..4] + ":" + "080000"[4..] == "08:00:00"
  {
  }

  lemma ExampleRecords(jan: string, feb: string)
    requires jan == "img_20240131_080000_OK.jpg" && feb == "img_20240201_080000_OK.jpg"
    ensures Accepted([feb, jan]) ==
      [Record(feb, "01/02/2024", "08:00:00", "OK"), Record(jan, "31/01/2024", "08:00:00", "OK")]
  {
    ExampleNames();
    ExampleFields();
    ReadsBackOk(jan, "20240131", "080000", "31/01/2024", "08:00:00");
    ReadsBackOk(feb, "20240201", "080000", "01/02/2024", "08:00:00");
    AcceptedPair(feb, jan, Record(feb, "01/02/2024", "08:00:00", "OK"), Record(jan, "31/01/2024", "08:00:00", "OK"));
  }

  /**
   * The `(date, time)` key is day-first, so the order is not chronological:
   * a frame of 31 January 2024 is listed before one of 1 February 2024.
   */
  lemma DayFirstOrderIsNotChronological(jan: string, feb: string)
    requires jan == "img_20240131_080000_OK.jpg" && feb == "img_20240201_080000_OK.jpg"
    ensures SortDesc(Accepted([feb, jan]), RecordKey) ==
      [Record(jan, "31/01/2024", "08:00:00", "OK"), Record(feb, "01/02/2024", "08:00:00", "OK")]
  {
    var rj := Record(jan, "31/01/2024", "08:00:00", "OK");
    var rf := Record(feb, "01/02/2024", "08:00:00", "OK");
    ExampleRecords(jan, feb);
    assert !StrLe(rj.date, rf.date);
    assert !KeyLe(RecordKey(rj), RecordKey(rf));
    SortPair(rf, rj, RecordKey);
  }

  lemma AcceptedPair(f1: string, f2: string, r1: Record, r2: Record)
    requires ParseName(f1) == Some(r1) && ParseName(f2) == Some(r2)
    ensures Accepted([f1, f2]) == [r1, r2]
  {
    assert [f1][..0] == [];
    assert Accepted([f1]) == Accepted([]) + [r1];
    assert [f1, f2][..1] == [f1];
    assert Accepted([f1, f2]) == Accepted([f1]) + [r2];
  }

  /** One spreadsheet row: its ordinal ("STT") and the record. */
  datatype Row = Row(number: nat, record: Record)

  /**
   * `export_excel` up to the spreadsheet: the same records in the same
   * order as the full history, then numbered 1..n in that order.
   */
  method ExportRows(files: seq<string>) returns (rows: seq<Row>)
    ensures |rows| == |Accepted(files)|
    ensures forall i :: 0 <= i < |rows| ==> rows[i] == Row(i + 1, SortDesc(Accepted(files), RecordKey)[i])
    ensures SortedDesc(seq(|rows|, i requires 0 <= i < |rows| => rows[i].record), RecordKey)
    ensures multiset(seq(|rows|, i requires 0 <= i < |rows| => rows[i].record)) == multiset(Accepted(files))
  {
    var records := CollectRecords(files);
    var sorted := SortDesc(records, RecordKey);
    SortDescSorted(records, RecordKey);
    rows := seq(|sorted|, i requires 0 <= i < |sorted| => Row(0, sorted[i]));
    var i := 0;
    while i < |rows|
      invariant 0 <= i <= |rows| == |sorted|
      invariant forall k :: 0 <= k < |rows| ==> rows[k].record == sorted[k]
      invariant forall k :: 0 <= k < i ==> rows[k].number == k + 1
    {
      rows := rows[i := rows[i].(number := i + 1)];
      i := i + 1;
    }
    assert seq(|rows|, i requires 0 <= i < |rows| => rows[i].record) == sorted;
  }

  /** A file name as its own one-component sort key. */
  function NameKey(f: string): seq<string> {
    [f]
  }

  /** The `.jpg` names of the listing, in listing order. */
  function JpgNames(files: seq<string>): (names: seq<string>)
    ensures forall f :: f in names <==> f in files && EndsWith(f, ".jpg")
    ensures forall f :: multiset(names)[f] == if EndsWith(f, ".jpg") then multiset(files)[f] else 0
  {
    if files == [] then []
    else
      assert files == [files[0]] + files[1..];
      (if EndsWith(files[0], ".jpg") then [files[0]] else []) + JpgNames(files[1..])
  }

  /** How many of the newest images `get_history` returns. */
  const RecentLimit := 12

  /**
   * `get_history`: the `.jpg` names in reverse string order, at most twelve,
   * and they are the greatest ones: every `.jpg` name left out is ordered at
   * or below every name returned.
   */
  function RecentImages(files: seq<string>): (r: seq<string>)
    ensures |r| == if |JpgNames(files)| < RecentLimit then |JpgNames(files)| else RecentLimit
    ensures forall f :: f in r ==> f in files && EndsWith(f, ".jpg")
    ensures forall i, j :: 0 <= i < j < |r| ==> StrLe(r[j], r[i])
    ensures forall f, g :: f in files && EndsWith(f, ".jpg") && f !in r && g in r ==> StrLe(f, g)
    ensures multiset(r) <= multiset(JpgNames(files))
  {
    var sorted := SortDesc(JpgNames(files), NameKey);
    var r := sorted[..if |sorted| < RecentLimit then |sorted| else RecentLimit];
    TopOfSortedNames(JpgNames(files), |r|);
    PrefixSubMultiset(sorted, |r|);
    r
  }

  lemma PrefixSubMultiset<T>(s: seq<T>, n: nat)
    requires n <= |s|
    ensures multiset(s[..n]) <= multiset(s)
  {
    assert s == s[..n] + s[n..];
  }

  /** A prefix of the sorted names holds names of the list, in order, above all the rest. */
  lemma TopOfSortedNames(names: seq<string>, n: nat)
    requires n <= |names|
    ensures forall f :: f in SortDesc(names, NameKey)[..n] ==> f in names
    ensures forall i, j :: 0 <= i < j < n ==> StrLe(SortDesc(names, NameKey)[j], SortDesc(names, NameKey)[i])
    ensures forall f, g :: f in names && f !in SortDesc(names, NameKey)[..n] && g in SortDesc(names, NameKey)[..n] ==> StrLe(f, g)
  {
    var sorted := SortDesc(names, NameKey);
    SortDescSorted(names, NameKey);
    var r := sorted[..n];
    forall f | f in r ensures f in names {
      assert f in multiset(sorted);
    }
    forall i, j | 0 <= i < j < n ensures StrLe(sorted[j], sorted[i]) {
      SingletonKeyLe(sorted[j], sorted[i]);
    }
    forall f, g | f in names && f !in r && g in r ensures StrLe(f, g) {
      assert f in multiset(sorted);
      var k :| 0 <= k < |sorted| && sorted[k] == f;
      var i :| 0 <= i < n && r[i] == g;
      assert k >= n;
      SingletonKeyLe(f, g);
    }
  }
}
