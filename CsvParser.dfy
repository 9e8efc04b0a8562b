/** The importer of study-session CSV files: the header line is skipped,
    every other line is split on ',' (quotes have no meaning) and kept only
    when its first three trimmed tokens are all non-empty. Malformed lines
    are skipped; nothing makes the whole file fail. */
module CsvParser {
  import opened Wrappers
  import opened Text
  import opened TimelineEntries

  /** What the parser can produce: three non-empty trimmed fields, none of
      which holds a comma. */
  predicate Parsable(e: TimelineEntry) {
    && e.date != [] && e.topic != [] && e.duration != []
    && IsTrimmed(e.date) && IsTrimmed(e.topic) && IsTrimmed(e.duration)
    && ',' !in e.date && ',' !in e.topic && ',' !in e.duration
  }

  /** The decision the parser takes for one data line: split on ',', and
      keep the first three tokens, trimmed, when none of them is empty. */
  function ParseLine(line: string): Option<TimelineEntry> {
    var tokens := Split(line, ',');
    if |tokens| >= 3 then
      var date := Trim(tokens[0]);
      var topic := Trim(tokens[1]);
      var duration := Trim(tokens[2]);
      if date != [] && topic != [] && duration != [] then
        Some(TimelineEntry(date, topic, duration))
      else
        None
    else
      None
  }

  /** What a line gives has non-empty, trimmed, comma-free fields. */
  lemma ParseLineParsable(line: string)
    ensures ParseLine(line).Some? ==> Parsable(ParseLine(line).value)
  {
    var tokens := Split(line, ',');
    if |tokens| >= 3 {
      TrimKeepsOut(tokens[0], ',');
      TrimKeepsOut(tokens[1], ',');
      TrimKeepsOut(tokens[2], ',');
    }
  }

  /** The entries of the data lines, in line order, at most one per line. */
  function ParseDataLines(lines: seq<string>): (r: seq<TimelineEntry>)
    ensures |r| <= |lines|
  {
    if lines == [] then []
    else
      var first := match ParseLine(lines[0]) case Some(e) => [e] case None => [];
      first + ParseDataLines(lines[1..])
  }

  /** The entries of a whole file given as its lines: the first line is the
      header and is never looked at. */
  function Parse(lines: seq<string>): (r: seq<TimelineEntry>)
    ensures lines == [] ==> r == []
    ensures lines != [] ==> |r| <= |lines| - 1
  {
    if lines == [] then [] else ParseDataLines(lines[1..])
  }

  lemma {:induction false} ParseDataLinesParsable(lines: seq<string>)
    ensures forall e :: e in ParseDataLines(lines) ==> Parsable(e)
  {
    if lines != [] {
      ParseLineParsable(lines[0]);
      ParseDataLinesParsable(lines[1..]);
    }
  }

  /** Every entry the parser produces has non-empty, trimmed, comma-free
      fields. */
  lemma {:induction false} ParsedEntriesParsable(lines: seq<string>)
    ensures forall e :: e in Parse(lines) ==> Parsable(e)
  {
    if lines != [] {
      ParseDataLinesParsable(lines[1..]);
    }
  }

  /** The file to import, as the reader sees it. */
  datatype CsvFile = CsvFile(found: bool, readable: bool, lines: seq<string>)

  /** The importer: a missing or unreadable file gives no entries; otherwise
      the header line is read and dropped and every further line is parsed,
      adding the entry ParseLine finds in it, if any. */
  method ParseCsvFromFile(file: CsvFile) returns (entries: seq<TimelineEntry>)
    ensures entries == if file.found && file.readable then Parse(file.lines) else []
  {
    entries := [];
    if !file.found || !file.readable {
      return;
    }
    var lines := file.lines;
    if |lines| == 0 {
      return;
    }
    var i := 1;
    while i < |lines|
      invariant 1 <= i <= |lines|
      invariant entries == ParseDataLines(lines[1..i])
    {
      var line := lines[i];
      ghost var before := entries;
      entries := entries + (match ParseLine(line) case Some(entry) => [entry] case None => []);
      ParseOneMore(lines[1..i], line, before, entries);
      SliceExtend(lines, 1, i);
      i := i + 1;
    }
    assert lines[1..i] == lines[1..];
  }

  /** One turn of the importer's loop: the entries of the lines done so far,
      extended by what the next line gives, are those of one more line. */
  lemma {:induction false} ParseOneMore(done: seq<string>, line: string, before: seq<TimelineEntry>, after: seq<TimelineEntry>)
    requires before == ParseDataLines(done)
    requires after == before + (match ParseLine(line) case Some(e) => [e] case None => [])
    ensures after == ParseDataLines(done + [line])
  {
    ParseDataLinesAppend(done, [line]);
    ParseDataLinesCons(line, []);
    assert [line] + [] == [line];
  }

  lemma {:induction false} SliceExtend<T>(s: seq<T>, lo: nat, hi: nat)
    requires lo <= hi < |s|
    ensures s[lo..hi + 1] == s[lo..hi] + [s[hi]]
  {
  }

  /** A malformed line never stops the parse: the data lines of two pieces
      parse to the entries of the first followed by those of the second. */
  lemma {:induction false} ParseDataLinesAppend(a: seq<string>, b: seq<string>)
    ensures ParseDataLines(a + b) == ParseDataLines(a) + ParseDataLines(b)
  {
    if a != [] {
      var first := match ParseLine(a[0]) case Some(e) => [e] case None => [];
      assert (a + b)[0] == a[0] && (a + b)[1..] == a[1..] + b;
      assert ParseDataLines(a + b) == first + ParseDataLines(a[1..] + b);
      ParseDataLinesAppend(a[1..], b);
    } else {
      assert a + b == b;
    }
  }

  /** The first data line contributes its entry, if any, ahead of the
      entries of the rest. */
  lemma {:induction false} ParseDataLinesCons(line: string, rest: seq<string>)
    ensures ParseDataLines([line] + rest) ==
      (match ParseLine(line) case Some(e) => [e] case None => []) + ParseDataLines(rest)
  {
    assert ([line] + rest)[0] == line && ([line] + rest)[1..] == rest;
  }

  /** Parsing distributes over the data lines of one file. */
  lemma {:induction false} ParseDistributes(header: string, a: seq<string>, b: seq<string>)
    ensures Parse([header] + (a + b)) == Parse([header] + a) + Parse([header] + b)
  {
    assert ([header] + (a + b))[1..] == a + b;
    assert ([header] + a)[1..] == a;
    assert ([header] + b)[1..] == b;
    ParseDataLinesAppend(a, b);
  }

  /** Whatever the first line holds, it produces no entry: the file gives
      the entries of the lines after it. */
  lemma {:induction false} HeaderIgnored(header: string, rest: seq<string>)
    ensures Parse([header] + rest) == ParseDataLines(rest)
  {
    assert ([header] + rest)[1..] == rest;
  }

  /** A line with fewer than two commas has fewer than three tokens and is
      skipped. */
  lemma {:induction false} ParseLineNeedsTwoCommas(line: string)
    requires CountOf(line, ',') < 2
    ensures ParseLine(line) == None
  {
    SplitLength(line, ',');
  }

  /** A line with at least two commas reads as `a,b,c` followed by nothing or
      by a further ',' and anything; it gives the trimmed `a`, `b`, `c`
      exactly when none of them is blank. */
  lemma {:induction false} ParseLineDecomposed(a: string, b: string, c: string, more: string)
    requires ',' !in a && ',' !in b && ',' !in c
    requires more == [] || more[0] == ','
    ensures ParseLine(a + "," + b + "," + c + more) ==
      if IsBlank(a) || IsBlank(b) || IsBlank(c) then None
      else Some(TimelineEntry(Trim(a), Trim(b), Trim(c)))
  {
    var line := a + "," + b + "," + c + more;
    var tail := c + more;
    assert line == a + [','] + (b + [','] + tail);
    SplitCons(a, b + [','] + tail, ',');
    SplitCons(b, tail, ',');
    if more == [] {
      assert tail == c;
      SplitFree(c, ',');
    } else {
      assert tail == c + [','] + more[1..];
      SplitCons(c, more[1..], ',');
    }
    var tokens := Split(line, ',');
    assert tokens[0] == a && tokens[1] == b && tokens[2] == c;
  }

  /** Splitting ignores quotes: a quoted middle field keeps its quote
      characters. */
  lemma {:induction false} QuotedFieldKeepsQuotes(a: string, t: string, c: string)
    requires ',' !in a && ',' !in t && ',' !in c
    requires !IsBlank(a) && !IsBlank(c)
    ensures ParseLine(a + ",\"" + t + "\"," + c) == Some(TimelineEntry(Trim(a), "\"" + t + "\"", Trim(c)))
  {
    var q := "\"" + t + "\"";
    assert a + ",\"" + t + "\"," + c == a + "," + q + "," + c + "";
    assert ',' !in q by {
      forall k | 0 <= k < |q| ensures q[k] != ',' {
        if 0 < k < |q| - 1 {
          assert q[k] == t[k - 1];
        }
      }
    }
    assert q[0] == '"' && q[|q| - 1] == '"' && !IsWhitespace('"');
    ParseLineDecomposed(a, q, c, "");
    TrimTrimmed(q);
  }

  // ---------------------------------------------------------------------------
  // Reading a text file line by line
  // ---------------------------------------------------------------------------

  /** The lines `BufferedReader.readLine` yields for a text whose line
      terminator is '\n': a final terminator does not start another line, and
      an empty text has no lines. */
  function ReadLines(text: string): (r: seq<string>)
    ensures text == [] ==> r == []
    ensures |r| == CountOf(text, '\n') + (if text == [] || text[|text| - 1] == '\n' then 0 else 1)
  {
    var parts := Split(text, '\n');
    SplitLength(text, '\n');
    if text == [] || text[|text| - 1] == '\n' then parts[..|parts| - 1] else parts
  }

  /** No line read holds a '\n'. */
  lemma {:induction false} ReadLinesHaveNoBreaks(text: string)
    ensures forall line :: line in ReadLines(text) ==> '\n' !in line
  {
    var parts := Split(text, '\n');
    assert forall line :: line in ReadLines(text) ==> line in parts;
  }

  /** The text of `lines`, each followed by '\n'. */
  function Terminated(lines: seq<string>): string {
    if lines == [] then "" else lines[0] + "\n" + Terminated(lines[1..])
  }

  lemma {:induction false} TerminatedIsJoin(lines: seq<string>)
    ensures Terminated(lines) == Join(lines + [""], '\n')
  {
    if lines != [] {
      TerminatedIsJoin(lines[1..]);
      assert (lines + [""])[1..] == lines[1..] + [""];
    }
  }

  /** Reading back '\n'-terminated lines that hold no '\n' gives those lines. */
  lemma {:induction false} ReadLinesTerminated(lines: seq<string>)
    requires forall i :: 0 <= i < |lines| ==> '\n' !in lines[i]
    ensures ReadLines(Terminated(lines)) == lines
  {
    var text := Terminated(lines);
    TerminatedIsJoin(lines);
    SplitJoin(lines + [""], '\n');
    if lines != [] {
      TerminatedEndsWithNewline(lines);
    }
    assert (lines + [""])[..|lines|] == lines;
  }

  lemma {:induction false} TerminatedEndsWithNewline(lines: seq<string>)
    requires lines != []
    ensures Terminated(lines) != [] && Terminated(lines)[|Terminated(lines)| - 1] == '\n'
  {
    if |lines| > 1 {
      TerminatedEndsWithNewline(lines[1..]);
    }
  }
}
