/** The analytics screen's logic: rendering a number of minutes as hours and
    minutes, writing the entries as CSV text for export, and the flags that
    guard an export in progress. */
module Analytics {
  import opened Wrappers
  import opened Text
  import opened TimelineEntries

  // ---------------------------------------------------------------------------
  // formatMinutesToHoursMinutes
  // ---------------------------------------------------------------------------

  /** "N/A" for a negative count, "0m" for zero, otherwise "{h}h {m}m",
      "{h}h" or "{m}m" with h = n / 60 and m = n % 60, naming only the
      non-zero parts. */
  function FormatMinutesToHoursMinutes(totalMinutes: int): (r: string)
    ensures r == "N/A" <==> totalMinutes < 0
  {
    if totalMinutes < 0 then "N/A"
    else if totalMinutes == 0 then "0m"
    else
      var hours := totalMinutes / 60;
      var minutes := totalMinutes % 60;
      if hours > 0 && minutes > 0 then DecimalString(hours) + "h " + DecimalString(minutes) + "m"
      else if hours > 0 then
        var t := DecimalString(hours) + "h";
        assert t[|t| - 1] == 'h';
        t
      else
        var t := DecimalString(minutes) + "m";
        assert t[|t| - 1] == 'm';
        t
  }

  /** The first position of `c` in `s`, or |s| when it does not occur. */
  function FirstIndexOf(s: string, c: char): (k: nat)
    ensures k <= |s|
    ensures k < |s| ==> s[k] == c
  {
    if s == [] || s[0] == c then 0 else 1 + FirstIndexOf(s[1..], c)
  }

  lemma {:induction false} FirstIndexAfterDigits(d: string, c: char, rest: string)
    requires AllDigits(d) && !IsDigit(c)
    ensures FirstIndexOf(d + [c] + rest, c) == |d|
  {
    if d != [] {
      assert (d + [c] + rest)[1..] == d[1..] + [c] + rest;
      FirstIndexAfterDigits(d[1..], c, rest);
    }
  }

  lemma {:induction false} FirstIndexInDigits(d: string, c: char)
    requires AllDigits(d) && !IsDigit(c)
    ensures FirstIndexOf(d, c) == |d|
  {
    if d != [] {
      FirstIndexInDigits(d[1..], c);
    }
  }

  /** Reads a rendered duration back into minutes. Only the normal form is
      accepted: "{h}h" with h > 0, "{m}m" with m < 60, or "{h}h {m}m" with
      h > 0 and 0 < m < 60, every number written without leading zeros;
      anything else (such as "N/A", "90m", "0h 5m" or "1h 05m") reads as
      None. */
  function ReadMinutes(s: string): Option<int> {
    if |s| < 2 then None
    else if s[|s| - 1] == 'h' then ReadHours(s[..|s| - 1])
    else if s[|s| - 1] == 'm' then ReadMinutePart(s[..|s| - 1])
    else None
  }

  /** Decimal digits as Kotlin writes a non-negative Int: at least one, and
      no leading zero unless the number is 0. */
  predicate Canonical(d: string) {
    |d| >= 1 && AllDigits(d) && (d[0] == '0' ==> |d| == 1)
  }

  function ReadDigits(d: string): Option<int> {
    if Canonical(d) then Some(DigitsValue(d)) else None
  }

  /** A positive number of hours, as minutes. */
  function ReadHours(d: string): Option<int> {
    if ReadDigits(d).Some? && ReadDigits(d).value > 0 then Some(60 * ReadDigits(d).value) else None
  }

  /** A number of minutes below an hour. */
  function ReadUnderHour(d: string): Option<int> {
    if ReadDigits(d).Some? && ReadDigits(d).value < 60 then ReadDigits(d) else None
  }

  /** What precedes the final 'm': either plain minutes, or hours, 'h', a
      space and minutes. */
  function ReadMinutePart(body: string): Option<int> {
    ReadAround(body, FirstIndexOf(body, 'h'))
  }

  /** Reads `body` as minutes when `k` is its length, and otherwise as hours
      before position `k` and non-zero minutes after the space that follows
      it. */
  function ReadAround(body: string, k: nat): Option<int>
    requires k <= |body|
  {
    if k == |body| then ReadUnderHour(body)
    else if k + 1 < |body| && body[k + 1] == ' ' then
      var hours := ReadHours(body[..k]);
      var minutes := ReadUnderHour(body[k + 2..]);
      if hours.Some? && minutes.Some? && minutes.value > 0 then Some(hours.value + minutes.value) else None
    else None
  }

  lemma {:induction false} ReadWithHourUnit(d: string)
    ensures ReadMinutes(d + "h") == ReadHours(d)
  {
    assert (d + "h")[..|d|] == d;
  }

  lemma {:induction false} ReadWithMinuteUnit(d: string)
    ensures ReadMinutes(d + "m") == ReadMinutePart(d)
  {
    assert (d + "m")[..|d|] == d;
  }

  lemma {:induction false} ReadMinutePartBoth(dh: string, dm: string, body: string)
    requires Canonical(dh) && DigitsValue(dh) > 0 && Canonical(dm) && 0 < DigitsValue(dm) < 60
    requires body == dh + ['h'] + (" " + dm)
    ensures ReadMinutePart(body) == Some(60 * DigitsValue(dh) + DigitsValue(dm))
  {
    FirstIndexAfterDigits(dh, 'h', " " + dm);
    assert body[..|dh|] == dh && body[|dh| + 1] == ' ' && body[|dh| + 2..] == dm;
    assert ReadAround(body, |dh|) == Some(60 * DigitsValue(dh) + DigitsValue(dm));
  }

  lemma {:induction false} ReadHoursAndMinutes(dh: string, dm: string)
    requires Canonical(dh) && DigitsValue(dh) > 0 && Canonical(dm) && 0 < DigitsValue(dm) < 60
    ensures ReadMinutes(dh + "h " + dm + "m") == Some(60 * DigitsValue(dh) + DigitsValue(dm))
  {
    var body := dh + "h " + dm;
    ReadWithMinuteUnit(body);
    assert body == dh + ['h'] + (" " + dm);
    ReadMinutePartBoth(dh, dm, body);
  }

  lemma {:induction false} ReadHoursOnly(dh: string)
    requires Canonical(dh) && DigitsValue(dh) > 0
    ensures ReadMinutes(dh + "h") == Some(60 * DigitsValue(dh))
  {
    ReadWithHourUnit(dh);
  }

  lemma {:induction false} ReadMinutesOnly(dm: string)
    requires Canonical(dm) && DigitsValue(dm) < 60
    ensures ReadMinutes(dm + "m") == Some(DigitsValue(dm))
  {
    ReadWithMinuteUnit(dm);
    FirstIndexInDigits(dm, 'h');
  }

  /** What is rendered reads back as the count it was rendered from, so the
      hours and minutes shown always add up to the count. */
  lemma {:induction false} FormatMinutesReadsBack(n: int)
    ensures ReadMinutes(FormatMinutesToHoursMinutes(n)) == if n < 0 then None else Some(n)
  {
    if n == 0 {
      assert FormatMinutesToHoursMinutes(n) == "0" + "m";
      ReadMinutesOnly("0");
    } else if n > 0 {
      if n / 60 > 0 && n % 60 > 0 {
        ReadBackHoursAndMinutes(n);
      } else if n / 60 > 0 {
        ReadBackHours(n);
      } else {
        ReadBackMinutes(n);
      }
    }
  }

  lemma ReadBackHoursAndMinutes(n: int)
    requires n / 60 > 0 && n % 60 > 0
    ensures ReadMinutes(FormatMinutesToHoursMinutes(n)) == Some(n)
  {
    var h, m := n / 60, n % 60;
    assert FormatMinutesToHoursMinutes(n) == DecimalString(h) + "h " + DecimalString(m) + "m";
    ReadHoursAndMinutes(DecimalString(h), DecimalString(m));
  }

  lemma ReadBackHours(n: int)
    requires n / 60 > 0 && n % 60 == 0
    ensures ReadMinutes(FormatMinutesToHoursMinutes(n)) == Some(n)
  {
    var h := n / 60;
    assert FormatMinutesToHoursMinutes(n) == DecimalString(h) + "h";
    ReadHoursOnly(DecimalString(h));
  }

  lemma ReadBackMinutes(n: int)
    requires 0 < n < 60
    ensures ReadMinutes(FormatMinutesToHoursMinutes(n)) == Some(n)
  {
    assert n / 60 == 0 && n % 60 == n;
    assert FormatMinutesToHoursMinutes(n) == DecimalString(n) + "m";
    ReadMinutesOnly(DecimalString(n));
  }

  /** A number with no leading zero has a non-zero value. */
  lemma {:induction false} LeadingDigitPositive(d: string)
    requires |d| >= 1 && AllDigits(d) && d[0] != '0'
    ensures DigitsValue(d) > 0
  {
    if |d| > 1 {
      LeadingDigitPositive(d[..|d| - 1]);
    }
  }

  /** Canonical digits are the decimal rendering of their value. */
  lemma {:induction false} CanonicalIsDecimal(d: string)
    requires Canonical(d)
    ensures DecimalString(DigitsValue(d)) == d
  {
    var p, c := d[..|d| - 1], d[|d| - 1];
    var x := c as int - '0' as int;
    assert DigitsValue(d) == DigitsValue(p) * 10 + x;
    if |d| == 1 {
      assert DigitsValue(p) == 0;
      assert DecimalString(x) == [c];
    } else {
      assert p[0] == d[0] && AllDigits(p);
      LeadingDigitPositive(p);
      CanonicalIsDecimal(p);
      AppendDigit(DigitsValue(p), c);
      assert DecimalString(DigitsValue(d)) == p + [c];
      assert d == p + [c];
    }
  }

  /** Writing one more digit after a positive number. */
  lemma AppendDigit(q: nat, c: char)
    requires q > 0 && IsDigit(c)
    ensures DecimalString(q * 10 + (c as int - '0' as int)) == DecimalString(q) + [c]
  {
    var x := c as int - '0' as int;
    var v := q * 10 + x;
    assert v / 10 == q && v % 10 == x;
    assert v >= 10;
  }

  /** The reader accepts nothing but renderings: every string it reads as a
      count is the rendering of that count. With FormatMinutesReadsBack, the
      rendering of a count is the one string that reads as it. */
  lemma {:induction false} ReadMinutesOnlyRenderings(s: string)
    requires ReadMinutes(s).Some?
    ensures FormatMinutesToHoursMinutes(ReadMinutes(s).value) == s
  {
    var body := s[..|s| - 1];
    assert s == body + [s[|s| - 1]];
    if s[|s| - 1] == 'h' {
      assert ReadMinutes(s) == ReadHours(body);
      RenderedHours(body);
    } else {
      assert ReadMinutes(s) == ReadMinutePart(body);
      RenderedMinutePart(body);
    }
  }

  lemma {:induction false} RenderedMinutePart(body: string)
    requires ReadMinutePart(body).Some?
    ensures FormatMinutesToHoursMinutes(ReadMinutePart(body).value) == body + "m"
  {
    var k := FirstIndexOf(body, 'h');
    if k == |body| {
      RenderedMinutes(body);
    } else {
      var dh, dm := body[..k], body[k + 2..];
      assert ReadMinutePart(body) == ReadAround(body, k);
      assert k + 1 < |body| && body[k + 1] == ' ';
      var hours, minutes := ReadHours(dh), ReadUnderHour(dm);
      assert hours.Some? && minutes.Some? && minutes.value > 0;
      assert ReadMinutePart(body).value == hours.value + minutes.value;
      assert hours.value == 60 * DigitsValue(dh) && minutes.value == DigitsValue(dm);
      assert body == dh + "h " + dm;
      RenderedBoth(dh, dm);
    }
  }

  lemma RenderedHours(d: string)
    requires Canonical(d) && DigitsValue(d) > 0
    ensures FormatMinutesToHoursMinutes(60 * DigitsValue(d)) == d + "h"
  {
    var h := DigitsValue(d);
    SixtiethsOf(h, 0);
    assert (60 * h) / 60 == h && (60 * h) % 60 == 0;
    CanonicalIsDecimal(d);
    assert FormatMinutesToHoursMinutes(60 * h) == DecimalString(h) + "h";
  }

  lemma RenderedMinutes(d: string)
    requires Canonical(d) && DigitsValue(d) < 60
    ensures FormatMinutesToHoursMinutes(DigitsValue(d)) == d + "m"
  {
    var n := DigitsValue(d);
    if n == 0 {
      if d[0] != '0' {
        LeadingDigitPositive(d);
      }
      assert d == "0";
    } else {
      SixtiethsOf(0, n);
      CanonicalIsDecimal(d);
    }
  }

  lemma RenderedBoth(dh: string, dm: string)
    requires Canonical(dh) && DigitsValue(dh) > 0 && Canonical(dm) && 0 < DigitsValue(dm) < 60
    ensures FormatMinutesToHoursMinutes(60 * DigitsValue(dh) + DigitsValue(dm)) == dh + "h " + dm + "m"
  {
    var h, m := DigitsValue(dh), DigitsValue(dm);
    SixtiethsOf(h, m);
    CanonicalIsDecimal(dh);
    CanonicalIsDecimal(dm);
    assert FormatMinutesToHoursMinutes(60 * h + m) == DecimalString(h) + "h " + DecimalString(m) + "m";
  }

  lemma SixtiethsOf(h: nat, m: nat)
    requires m < 60
    ensures (60 * h + m) / 60 == h && (60 * h + m) % 60 == m
  {
  }

  /** Distinct non-negative counts are rendered differently. */
  lemma {:induction false} FormatMinutesInjective(a: int, b: int)
    requires a >= 0 && b >= 0
    requires FormatMinutesToHoursMinutes(a) == FormatMinutesToHoursMinutes(b)
    ensures a == b
  {
    FormatMinutesReadsBack(a);
    FormatMinutesReadsBack(b);
  }

  lemma FormatMinutesExamples()
    ensures FormatMinutesToHoursMinutes(-5) == "N/A"
    ensures FormatMinutesToHoursMinutes(0) == "0m"
    ensures FormatMinutesToHoursMinutes(90) == "1h 30m"
    ensures FormatMinutesToHoursMinutes(60) == "1h"
    ensures FormatMinutesToHoursMinutes(45) == "45m"
  {
    assert 90 / 60 == 1 && 90 % 60 == 30 && 60 / 60 == 1 && 60 % 60 == 0 && 45 / 60 == 0 && 45 % 60 == 45;
    assert DecimalString(45) == "45" by {
      assert DecimalString(4) == "4";
    }
    assert DecimalString(1) == "1";
    assert DecimalString(30) == "30" by {
      assert DecimalString(3) == "3";
    }
  }

  // ---------------------------------------------------------------------------
  // generateCsvString
  // ---------------------------------------------------------------------------

  const CsvHeader := "Date,Topic,Duration\n"

  /** `replace("\"", "\"\"")`: every double quote doubled. */
  function EscapeQuotes(t: string): (r: string)
    ensures |r| == |t| + CountOf(t, '"')
  {
    if t == [] then []
    else (if t[0] == '"' then "\"\"" else [t[0]]) + EscapeQuotes(t[1..])
  }

  /** Collapses every doubled quote into one, reading left to right. */
  function UnescapeQuotes(r: string): string {
    if |r| >= 2 && r[0] == '"' && r[1] == '"' then "\"" + UnescapeQuotes(r[2..])
    else if r == [] then []
    else [r[0]] + UnescapeQuotes(r[1..])
  }

  /** Removing the doubling recovers the topic. */
  lemma {:induction false} UnescapeEscape(t: string)
    ensures UnescapeQuotes(EscapeQuotes(t)) == t
  {
    if t != [] {
      var rest := EscapeQuotes(t[1..]);
      UnescapeEscape(t[1..]);
      if t[0] == '"' {
        assert EscapeQuotes(t) == "\"\"" + rest;
        assert (("\"\"" + rest)[2..]) == rest;
      } else {
        assert EscapeQuotes(t) == [t[0]] + rest;
        assert ([t[0]] + rest)[1..] == rest;
      }
      assert t == [t[0]] + t[1..];
    }
  }

  /** Escaping only adds quote characters. */
  lemma {:induction false} EscapeKeepsOut(t: string, c: char)
    requires c != '"' && c !in t
    ensures c !in EscapeQuotes(t)
  {
    if t != [] {
      assert c !in t[1..] by { assert forall x :: x in t[1..] ==> x in t; }
      EscapeKeepsOut(t[1..], c);
    }
  }

  /** A topic without double quotes is exported unchanged. */
  lemma {:induction false} EscapeQuoteFree(t: string)
    requires '"' !in t
    ensures EscapeQuotes(t) == t
  {
    if t != [] {
      assert '"' !in t[1..] by { assert forall x :: x in t[1..] ==> x in t; }
      EscapeQuoteFree(t[1..]);
      assert t == [t[0]] + t[1..];
    }
  }

  /** One exported row: date, quoted and escaped topic, duration. */
  function ExportRow(e: TimelineEntry): string {
    e.date + ",\"" + EscapeQuotes(e.topic) + "\"," + e.duration + "\n"
  }

  /** The text between the quotes of a row, with its doubled quotes
      collapsed, is the topic. */
  lemma {:induction false} ExportRowTopic(e: TimelineEntry)
    ensures var r := ExportRow(e);
      UnescapeQuotes(r[|e.date| + 2..|r| - |e.duration| - 3]) == e.topic
  {
    var r := ExportRow(e);
    assert r[|e.date| + 2..|r| - |e.duration| - 3] == EscapeQuotes(e.topic);
    UnescapeEscape(e.topic);
  }

  function ExportRows(entries: seq<TimelineEntry>): string {
    if entries == [] then "" else ExportRow(entries[0]) + ExportRows(entries[1..])
  }

  /** The exported text: the header, then one row per entry in order. */
  function ExportDocument(entries: seq<TimelineEntry>): (r: string)
    ensures |r| >= |CsvHeader| && r[..|CsvHeader|] == CsvHeader
  {
    CsvHeader + ExportRows(entries)
  }

  lemma {:induction false} ExportRowsAppend(a: seq<TimelineEntry>, b: seq<TimelineEntry>)
    ensures ExportRows(a + b) == ExportRows(a) + ExportRows(b)
  {
    if a == [] {
      assert a + b == b;
    } else {
      assert (a + b)[1..] == a[1..] + b;
      ExportRowsAppend(a[1..], b);
    }
  }

  lemma {:induction false} ExportRowsPrefix(entries: seq<TimelineEntry>, i: nat)
    requires i < |entries|
    ensures ExportRows(entries[..i + 1]) == ExportRows(entries[..i]) + ExportRow(entries[i])
  {
    assert entries[..i + 1] == entries[..i] + [entries[i]];
    assert [entries[i]][1..] == [];
    ExportRowsAppend(entries[..i], [entries[i]]);
  }

  /** The encoder: a string builder that receives the header and then each
      entry's row. */
  method GenerateCsvString(entries: seq<TimelineEntry>) returns (csv: string)
    ensures csv == ExportDocument(entries)
  {
    csv := CsvHeader;
    var i := 0;
    while i < |entries|
      invariant 0 <= i <= |entries|
      invariant csv == CsvHeader + ExportRows(entries[..i])
    {
      var entry := entries[i];
      var topic := EscapeQuotes(entry.topic);
      csv := csv + (entry.date + ",\"" + topic + "\"," + entry.duration + "\n");
      ExportRowsPrefix(entries, i);
      i := i + 1;
    }
    assert entries[..i] == entries;
  }

  // ---------------------------------------------------------------------------
  // exportTimelineDataToCsv / exportFinished
  // ---------------------------------------------------------------------------

  const AlreadyInProgressMessage := "Export already in progress."
  const NoDataMessage := "No data available to export."
  const PrepareErrorPrefix := "Error preparing data for export: "
  const ExportedMessage := "Data exported successfully."
  const ExportFailedMessage := "Failed to export data."

  /** The observable fields: the loading flag, the last CSV text handed to
      the screen for saving (None until one is), the last message. */
  datatype ExportState = ExportState(isLoading: bool, csvContentToSave: Option<string>, userMessage: Option<string>)

  /** The body of the launched block without its finally clause: fetch the
      entries once, then report an error, report that there is nothing to
      export, or hand the CSV text over. Also tells whether CSV text was
      handed over in this run. */
  function Prepare(s: ExportState, fetched: Result<seq<TimelineEntry>, string>): (r: (ExportState, bool))
    ensures r.0.isLoading == s.isLoading
    ensures r.1 <==> fetched.Success? && fetched.value != []
    ensures r.1 ==> r.0 == s.(csvContentToSave := Some(ExportDocument(fetched.value)))
    ensures !r.1 ==> r.0.csvContentToSave == s.csvContentToSave
    ensures fetched.Failure? ==> r.0.userMessage == Some(PrepareErrorPrefix + fetched.error)
    ensures fetched == Success([]) ==> r.0.userMessage == Some(NoDataMessage)
  {
    match fetched
    case Failure(message) => (s.(userMessage := Some(PrepareErrorPrefix + message)), false)
    case Success(entries) =>
      if entries == [] then (s.(userMessage := Some(NoDataMessage)), false)
      else (s.(csvContentToSave := Some(ExportDocument(entries))), true)
  }

  /** exportTimelineDataToCsv as written: the finally clause clears the flag
      only when no CSV text was EVER handed over, since the screen's last
      value is never reset. */
  function ExportAsWritten(s: ExportState, fetched: Result<seq<TimelineEntry>, string>): (r: ExportState)
    ensures s.csvContentToSave.None? ==> r == Export(s, fetched)
    ensures s.csvContentToSave.Some? ==> r.isLoading
    ensures r == Export(s, fetched).(isLoading := Export(s, fetched).isLoading || s.csvContentToSave.Some?)
  {
    if s.isLoading then s.(userMessage := Some(AlreadyInProgressMessage))
    else
      var (t, _) := Prepare(s, fetched);
      t.(isLoading := t.csvContentToSave.Some?)
  }

  /** exportTimelineDataToCsv with the finally clause as intended: the flag
      stays set only when this run handed CSV text over, for the screen to
      save and then report through exportFinished. */
  function Export(s: ExportState, fetched: Result<seq<TimelineEntry>, string>): (r: ExportState)
    ensures s.isLoading ==> r == s.(userMessage := Some(AlreadyInProgressMessage))
    ensures !s.isLoading && fetched.Failure? ==>
      r == s.(userMessage := Some(PrepareErrorPrefix + fetched.error))
    ensures !s.isLoading && fetched == Success([]) ==> r == s.(userMessage := Some(NoDataMessage))
    ensures !s.isLoading && fetched.Success? && fetched.value != [] ==>
      r == s.(isLoading := true, csvContentToSave := Some(ExportDocument(fetched.value)))
  {
    if s.isLoading then s.(userMessage := Some(AlreadyInProgressMessage))
    else
      var (t, posted) := Prepare(s, fetched);
      t.(isLoading := posted)
  }

  /** exportFinished: the flag is cleared and the given message, or the
      default one for the outcome, is shown. */
  function Finished(s: ExportState, success: bool, message: Option<string>): (r: ExportState)
    ensures !r.isLoading && r.csvContentToSave == s.csvContentToSave
    ensures r.userMessage == Some(if message.Some? then message.value
                                  else if success then ExportedMessage else ExportFailedMessage)
  {
    s.(isLoading := false,
       userMessage := Some(message.GetOr(if success then ExportedMessage else ExportFailedMessage)))
  }

  /** With the intended finally clause, an export started from an idle state
      leaves the flag set exactly when it handed new CSV text over, so the
      screen's save will clear it through exportFinished. */
  lemma {:induction false} ExportBusyOnlyWithNewContent(s: ExportState, fetched: Result<seq<TimelineEntry>, string>)
    requires !s.isLoading
    ensures Export(s, fetched).isLoading <==> fetched.Success? && fetched.value != []
    ensures Export(s, fetched).isLoading ==>
      Export(s, fetched).csvContentToSave == Some(ExportDocument(fetched.value))
  {
  }

  /** As written, once one export has handed CSV text over, an export of an
      empty table leaves the flag set without handing anything new over;
      nothing then calls exportFinished, and every later export only reports
      that one is already in progress. */
  lemma {:induction false} ExportAsWrittenStuck(e: TimelineEntry, later: Result<seq<TimelineEntry>, string>)
    ensures
      var s0 := ExportState(false, None, None);
      var s1 := ExportAsWritten(s0, Success([e]));
      var s2 := Finished(s1, true, None);
      var s3 := ExportAsWritten(s2, Success([]));
      && s3.isLoading
      && s3.csvContentToSave == s2.csvContentToSave
      && s3.userMessage == Some(NoDataMessage)
      && ExportAsWritten(s3, later) == s3.(userMessage := Some(AlreadyInProgressMessage))
  {
  }

  /** The analytics view model's export flags. */
  class AnalyticsViewModel {
    var isLoading: bool
    var csvContentToSave: Option<string>
    var userMessage: Option<string>

    function State(): ExportState
      reads this
    {
      ExportState(isLoading, csvContentToSave, userMessage)
    }

    constructor ()
      ensures State() == ExportState(false, None, None)
    {
      isLoading := false;
      csvContentToSave := None;
      userMessage := None;
    }

    /** `fetched` is the first list of entries the repository delivers, or
        the message of the exception raised while getting it. The finally
        clause is the one the view model has: the flag is cleared only while
        no CSV text was ever handed over. */
    method ExportTimelineDataToCsv(fetched: Result<seq<TimelineEntry>, string>)
      modifies this
      ensures State() == ExportAsWritten(old(State()), fetched)
      ensures old(csvContentToSave).None? ==> State() == Export(old(State()), fetched)
    {
      if isLoading {
        userMessage := Some(AlreadyInProgressMessage);
        return;
      }
      isLoading := true;
      match fetched {
        case Failure(message) =>
          userMessage := Some(PrepareErrorPrefix + message);
        case Success(entries) =>
          if entries == [] {
            userMessage := Some(NoDataMessage);
          } else {
            var csv := GenerateCsvString(entries);
            csvContentToSave := Some(csv);
          }
      }
      if csvContentToSave.None? {
        isLoading := false;
      }
    }

    method ExportFinished(success: bool, message: Option<string>)
      modifies this
      ensures State() == Finished(old(State()), success, message)
    {
      isLoading := false;
      if success {
        userMessage := Some(message.GetOr(ExportedMessage));
      } else {
        userMessage := Some(message.GetOr(ExportFailedMessage));
      }
    }
  }
}
