/** How the files the app writes read back through the CSV importer: the
    home store's file gives back its entries, and the export gives back its
    entries with the topic still quoted, so export and import are not
    inverses. */
module Interchange {
  import opened Wrappers
  import opened Text
  import opened TimelineEntries
  import CsvParser
  import HomeStore
  import Analytics

  const HeaderLine := "Date,Topic,Duration"

  lemma {:induction false} HeaderLineTerminated(rest: seq<string>)
    ensures HomeStore.CsvHeader + CsvParser.Terminated(rest) == CsvParser.Terminated([HeaderLine] + rest)
    ensures Analytics.CsvHeader + CsvParser.Terminated(rest) == CsvParser.Terminated([HeaderLine] + rest)
  {
    assert ([HeaderLine] + rest)[1..] == rest;
  }

  lemma {:induction false} HeaderThenLines(rest: seq<string>)
    requires forall line :: line in rest ==> '\n' !in line
    ensures forall i :: 0 <= i < |[HeaderLine] + rest| ==> '\n' !in ([HeaderLine] + rest)[i]
  {
    var lines := [HeaderLine] + rest;
    assert '\n' !in HeaderLine by {
      forall k | 0 <= k < |HeaderLine| ensures HeaderLine[k] != '\n' {
      }
    }
    forall i | 0 <= i < |lines| ensures '\n' !in lines[i] {
      if i > 0 {
        assert lines[i] == rest[i - 1] && rest[i - 1] in rest;
      }
    }
  }

  /** A header followed by lines free of '\n', each terminated,
      reads back as those lines. */
  lemma {:induction false} HeaderAndLinesReadBack(rest: seq<string>)
    requires forall line :: line in rest ==> '\n' !in line
    ensures CsvParser.ReadLines(CsvParser.Terminated([HeaderLine] + rest)) == [HeaderLine] + rest
  {
    HeaderThenLines(rest);
    CsvParser.ReadLinesTerminated([HeaderLine] + rest);
  }

  // ---------------------------------------------------------------------------
  // The home store's file
  // ---------------------------------------------------------------------------

  /** Fields the importer reads back from an unquoted line: none blank, none
      holding a comma or a '\n'. */
  predicate Storable(e: TimelineEntry) {
    && !IsBlank(e.date) && !IsBlank(e.topic) && !IsBlank(e.duration)
    && ',' !in e.date && ',' !in e.topic && ',' !in e.duration
    && '\n' !in e.date && '\n' !in e.topic && '\n' !in e.duration
  }

  function Trimmed(e: TimelineEntry): TimelineEntry {
    TimelineEntry(Trim(e.date), Trim(e.topic), Trim(e.duration))
  }

  function TrimmedAll(entries: seq<TimelineEntry>): (r: seq<TimelineEntry>)
    ensures |r| == |entries|
  {
    if entries == [] then [] else [Trimmed(entries[0])] + TrimmedAll(entries[1..])
  }

  function StoreLine(e: TimelineEntry): string {
    e.date + "," + e.topic + "," + e.duration
  }

  function StoreLines(entries: seq<TimelineEntry>): (r: seq<string>)
    ensures |r| == |entries|
  {
    if entries == [] then [] else [StoreLine(entries[0])] + StoreLines(entries[1..])
  }

  lemma {:induction false} StoreRowsAreLines(entries: seq<TimelineEntry>)
    ensures HomeStore.StoreRows(entries) == CsvParser.Terminated(StoreLines(entries))
  {
    if entries != [] {
      StoreRowsAreLines(entries[1..]);
      assert StoreLines(entries)[1..] == StoreLines(entries[1..]);
    }
  }

  lemma {:induction false} NotInJoined(a: string, b: string, c: string, x: char)
    requires x != ',' && x !in a && x !in b && x !in c
    ensures x !in a + "," + b + "," + c
  {
    var s := a + "," + b + "," + c;
    forall k | 0 <= k < |s| ensures s[k] != x {
      if k < |a| {
        assert s[k] == a[k];
      } else if k == |a| {
      } else if k < |a| + 1 + |b| {
        assert s[k] == b[k - |a| - 1];
      } else if k == |a| + 1 + |b| {
      } else {
        assert s[k] == c[k - |a| - 2 - |b|];
      }
    }
  }

  lemma {:induction false} StoreLineParses(e: TimelineEntry)
    requires Storable(e)
    ensures CsvParser.ParseLine(StoreLine(e)) == Some(Trimmed(e))
  {
    assert StoreLine(e) == e.date + "," + e.topic + "," + e.duration + "";
    CsvParser.ParseLineDecomposed(e.date, e.topic, e.duration, "");
  }

  lemma StoreLineSingle(e: TimelineEntry)
    requires Storable(e)
    ensures '\n' !in StoreLine(e)
  {
    NotInJoined(e.date, e.topic, e.duration, '\n');
  }

  lemma {:induction false} StoreLinesStep(entries: seq<TimelineEntry>)
    requires entries != [] && Storable(entries[0])
    ensures CsvParser.ParseDataLines(StoreLines(entries)) ==
      [Trimmed(entries[0])] + CsvParser.ParseDataLines(StoreLines(entries[1..]))
  {
    var e := entries[0];
    assert StoreLines(entries) == [StoreLine(e)] + StoreLines(entries[1..]);
    CsvParser.ParseDataLinesCons(StoreLine(e), StoreLines(entries[1..]));
    StoreLineParses(e);
  }

  lemma {:induction false} StoreLinesParse(entries: seq<TimelineEntry>)
    requires forall i :: 0 <= i < |entries| ==> Storable(entries[i])
    ensures CsvParser.ParseDataLines(StoreLines(entries)) == TrimmedAll(entries)
  {
    if entries != [] {
      StoreLinesParse(entries[1..]);
      StoreLinesStep(entries);
      assert TrimmedAll(entries) == [Trimmed(entries[0])] + TrimmedAll(entries[1..]);
    }
  }

  lemma {:induction false} StoreLinesSingle(entries: seq<TimelineEntry>)
    requires forall i :: 0 <= i < |entries| ==> Storable(entries[i])
    ensures forall line :: line in StoreLines(entries) ==> '\n' !in line
  {
    if entries != [] {
      StoreLineSingle(entries[0]);
      StoreLinesSingle(entries[1..]);
      forall line | line in StoreLines(entries) ensures '\n' !in line {
        if line != StoreLine(entries[0]) {
          assert line in StoreLines(entries[1..]);
        }
      }
    }
  }

  /** The file the home store writes, read line by line and parsed, gives
      back the saved entries in order, trimmed. */
  lemma {:induction false} StoreTextLines(entries: seq<TimelineEntry>)
    requires forall i :: 0 <= i < |entries| ==> Storable(entries[i])
    ensures CsvParser.ReadLines(HomeStore.StoreContent(entries)) == [HeaderLine] + StoreLines(entries)
  {
    StoreRowsAreLines(entries);
    HeaderLineTerminated(StoreLines(entries));
    StoreLinesSingle(entries);
    HeaderAndLinesReadBack(StoreLines(entries));
  }

  lemma {:induction false} StoreReadsBack(entries: seq<TimelineEntry>)
    requires forall i :: 0 <= i < |entries| ==> Storable(entries[i])
    ensures CsvParser.Parse(CsvParser.ReadLines(HomeStore.StoreContent(entries))) == TrimmedAll(entries)
  {
    StoreTextLines(entries);
    CsvParser.HeaderIgnored(HeaderLine, StoreLines(entries));
    StoreLinesParse(entries);
  }

  lemma {:induction false} TrimmedAllKeeps(entries: seq<TimelineEntry>)
    requires forall i :: 0 <= i < |entries| ==> CsvParser.Parsable(entries[i])
    ensures TrimmedAll(entries) == entries
  {
    if entries != [] {
      var e := entries[0];
      assert CsvParser.Parsable(e);
      TrimTrimmed(e.date);
      TrimTrimmed(e.topic);
      TrimTrimmed(e.duration);
      TrimmedAllKeeps(entries[1..]);
    }
  }

  /** Entries of the kind the importer produces, with no '\n' in a
      field, survive a reset, saves in order and an import exactly. */
  lemma {:induction false} StoreRoundTrip(entries: seq<TimelineEntry>)
    requires forall i :: 0 <= i < |entries| ==>
      CsvParser.Parsable(entries[i]) && '\n' !in entries[i].date && '\n' !in entries[i].topic && '\n' !in entries[i].duration
    ensures CsvParser.Parse(CsvParser.ReadLines(HomeStore.StoreContent(entries))) == entries
  {
    forall i | 0 <= i < |entries| ensures Storable(entries[i]) {
      var e := entries[i];
      assert !IsWhitespace(e.date[0]) && !IsWhitespace(e.topic[0]) && !IsWhitespace(e.duration[0]);
    }
    StoreReadsBack(entries);
    TrimmedAllKeeps(entries);
  }

  // ---------------------------------------------------------------------------
  // The export document
  // ---------------------------------------------------------------------------

  /** Fields the importer reads back from an exported line: date and
      duration not blank, no field holding a comma or a '\n'. */
  predicate Exportable(e: TimelineEntry) {
    && !IsBlank(e.date) && !IsBlank(e.duration)
    && ',' !in e.date && ',' !in e.topic && ',' !in e.duration
    && '\n' !in e.date && '\n' !in e.topic && '\n' !in e.duration
  }

  /** The topic as it appears in an exported line. */
  function Quoted(topic: string): string {
    "\"" + Analytics.EscapeQuotes(topic) + "\""
  }

  /** What the importer makes of an exported entry. */
  function AsImported(e: TimelineEntry): TimelineEntry {
    TimelineEntry(Trim(e.date), Quoted(e.topic), Trim(e.duration))
  }

  function AsImportedAll(entries: seq<TimelineEntry>): (r: seq<TimelineEntry>)
    ensures |r| == |entries|
  {
    if entries == [] then [] else [AsImported(entries[0])] + AsImportedAll(entries[1..])
  }

  function ExportLine(e: TimelineEntry): string {
    e.date + ",\"" + Analytics.EscapeQuotes(e.topic) + "\"," + e.duration
  }

  function ExportLines(entries: seq<TimelineEntry>): (r: seq<string>)
    ensures |r| == |entries|
  {
    if entries == [] then [] else [ExportLine(entries[0])] + ExportLines(entries[1..])
  }

  lemma {:induction false} ExportRowsAreLines(entries: seq<TimelineEntry>)
    ensures Analytics.ExportRows(entries) == CsvParser.Terminated(ExportLines(entries))
  {
    if entries != [] {
      ExportRowsAreLines(entries[1..]);
      assert ExportLines(entries)[1..] == ExportLines(entries[1..]);
    }
  }

  lemma {:induction false} ExportLineParses(e: TimelineEntry)
    requires Exportable(e)
    ensures CsvParser.ParseLine(ExportLine(e)) == Some(AsImported(e))
  {
    Analytics.EscapeKeepsOut(e.topic, ',');
    CsvParser.QuotedFieldKeepsQuotes(e.date, Analytics.EscapeQuotes(e.topic), e.duration);
  }

  lemma ExportLineSingle(e: TimelineEntry)
    requires Exportable(e)
    ensures '\n' !in ExportLine(e)
  {
    Analytics.EscapeKeepsOut(e.topic, '\n');
    assert '\n' !in ",\"" && '\n' !in "\",";
  }

  lemma {:induction false} ExportLinesStep(entries: seq<TimelineEntry>)
    requires entries != [] && Exportable(entries[0])
    ensures CsvParser.ParseDataLines(ExportLines(entries)) ==
      [AsImported(entries[0])] + CsvParser.ParseDataLines(ExportLines(entries[1..]))
  {
    var e := entries[0];
    assert ExportLines(entries) == [ExportLine(e)] + ExportLines(entries[1..]);
    CsvParser.ParseDataLinesCons(ExportLine(e), ExportLines(entries[1..]));
    ExportLineParses(e);
  }

  lemma {:induction false} ExportLinesParse(entries: seq<TimelineEntry>)
    requires forall i :: 0 <= i < |entries| ==> Exportable(entries[i])
    ensures CsvParser.ParseDataLines(ExportLines(entries)) == AsImportedAll(entries)
  {
    if entries != [] {
      ExportLinesParse(entries[1..]);
      ExportLinesStep(entries);
      assert AsImportedAll(entries) == [AsImported(entries[0])] + AsImportedAll(entries[1..]);
    }
  }

  lemma {:induction false} ExportLinesSingle(entries: seq<TimelineEntry>)
    requires forall i :: 0 <= i < |entries| ==> Exportable(entries[i])
    ensures forall line :: line in ExportLines(entries) ==> '\n' !in line
  {
    if entries != [] {
      ExportLineSingle(entries[0]);
      ExportLinesSingle(entries[1..]);
      forall line | line in ExportLines(entries) ensures '\n' !in line {
        if line != ExportLine(entries[0]) {
          assert line in ExportLines(entries[1..]);
        }
      }
    }
  }

  /** The exported document, imported, gives one entry per exported entry,
      in order, with the topic still in its quotes and with its quotes
      doubled. */
  lemma {:induction false} ExportTextLines(entries: seq<TimelineEntry>)
    requires forall i :: 0 <= i < |entries| ==> Exportable(entries[i])
    ensures CsvParser.ReadLines(Analytics.ExportDocument(entries)) == [HeaderLine] + ExportLines(entries)
  {
    ExportRowsAreLines(entries);
    HeaderLineTerminated(ExportLines(entries));
    ExportLinesSingle(entries);
    HeaderAndLinesReadBack(ExportLines(entries));
  }

  lemma {:induction false} ExportReadsBack(entries: seq<TimelineEntry>)
    requires forall i :: 0 <= i < |entries| ==> Exportable(entries[i])
    ensures CsvParser.Parse(CsvParser.ReadLines(Analytics.ExportDocument(entries))) == AsImportedAll(entries)
  {
    ExportTextLines(entries);
    CsvParser.HeaderIgnored(HeaderLine, ExportLines(entries));
    ExportLinesParse(entries);
  }

  /** The imported topic is two characters longer than the exported one at
      least, so importing an export never gives the entries back. */
  lemma {:induction false} ExportImportNotInverse(entries: seq<TimelineEntry>)
    requires entries != []
    requires forall i :: 0 <= i < |entries| ==> Exportable(entries[i])
    ensures CsvParser.Parse(CsvParser.ReadLines(Analytics.ExportDocument(entries))) != entries
  {
    ExportReadsBack(entries);
    assert |AsImportedAll(entries)[0].topic| > |entries[0].topic|;
  }

  /** Removing the quotes and then the doubling from the imported topic
      recovers the exported one. */
  lemma {:induction false} ImportedTopicUnquotes(e: TimelineEntry)
    ensures var t := AsImported(e).topic; Analytics.UnescapeQuotes(t[1..|t| - 1]) == e.topic
  {
    var t := AsImported(e).topic;
    assert t[1..|t| - 1] == Analytics.EscapeQuotes(e.topic);
    Analytics.UnescapeEscape(e.topic);
  }

  /** A comma inside a topic shifts the fields of the exported line: the
      part before the comma, with the opening quote, becomes the topic, and
      the part after it, with the closing quote, becomes the duration. */
  lemma CommaInTopicShiftsFields(date: string, t1: string, t2: string, duration: string)
    requires ',' !in date && ',' !in t1 && ',' !in t2 && ',' !in duration
    requires '"' !in t1 && '"' !in t2
    requires !IsBlank(date)
    ensures CsvParser.ParseLine(ExportLine(TimelineEntry(date, t1 + "," + t2, duration)))
      == Some(TimelineEntry(Trim(date), Trim("\"" + t1), Trim(t2 + "\"")))
  {
    var b, c, more := "\"" + t1, t2 + "\"", "," + duration;
    ShiftedLine(date, t1, t2, duration, b, c, more);
    ShiftedFields(t1, t2, b, c);
    CsvParser.ParseLineDecomposed(date, b, c, more);
  }

  /** The exported line of a quote-free topic with one comma, cut at its
      commas. */
  lemma ShiftedLine(date: string, t1: string, t2: string, duration: string, b: string, c: string, more: string)
    requires '"' !in t1 && '"' !in t2
    requires b == "\"" + t1 && c == t2 + "\"" && more == "," + duration
    ensures ExportLine(TimelineEntry(date, t1 + "," + t2, duration)) == date + "," + b + "," + c + more
  {
    var topic := t1 + "," + t2;
    assert '"' !in topic;
    Analytics.EscapeQuoteFree(topic);
  }

  /** The cut fields of such a line hold no comma and are not blank. */
  lemma ShiftedFields(t1: string, t2: string, b: string, c: string)
    requires ',' !in t1 && ',' !in t2
    requires b == "\"" + t1 && c == t2 + "\""
    ensures ',' !in b && ',' !in c
    ensures !IsBlank(b) && !IsBlank(c)
  {
    assert !IsWhitespace(b[0]);
    assert !IsWhitespace(c[|c| - 1]);
  }
}
