/** The home screen's flat-file store: study sessions appended as
    `date,topic,duration` lines under a header, and a reset that leaves only
    the header. */
module HomeStore {
  import opened Wrappers
  import opened Text
  import opened TimelineEntries
  import opened FormValidation

  const CsvHeader := "Date,Topic,Duration\n"
  const SavedPrefix := "Data saved to "
  const SaveErrorPrefix := "Error saving data: "
  const ResetMessage := "All data deleted. File reset to header."
  const DeleteErrorPrefix := "Error deleting data: "

  /** The appended line: the three fields as typed, unquoted, then a line
      break. Fields free of commas come back from a split of the line. */
  function RowText(date: string, topic: string, duration: string): (r: string)
    ensures |r| == |date| + |topic| + |duration| + 3 && r[|r| - 1] == '\n'
    ensures ',' !in date && ',' !in topic && ',' !in duration ==>
      Split(r[..|r| - 1], ',') == [date, topic, duration]
  {
    var line := date + "," + topic + "," + duration;
    FieldsSplitBack(date, topic, duration);
    assert (line + "\n")[..|line|] == line;
    line + "\n"
  }

  /** The line piece by piece, whatever the fields hold: the date and a
      comma, then the topic, then a comma, the duration and the line break.
      No field is quoted or escaped. */
  lemma RowTextFields(date: string, topic: string, duration: string)
    ensures var r := RowText(date, topic, duration);
      && r[..|date| + 1] == date + ","
      && r[|date| + 1..|date| + 1 + |topic|] == topic
      && r[|date| + |topic| + 1..] == "," + duration + "\n"
  {
  }

  lemma FieldsSplitBack(date: string, topic: string, duration: string)
    ensures ',' !in date && ',' !in topic && ',' !in duration ==>
      Split(date + "," + topic + "," + duration, ',') == [date, topic, duration]
  {
    if ',' !in date && ',' !in topic && ',' !in duration {
      var tokens := [date, topic, duration];
      assert Join(tokens[2..], ',') == duration;
      assert Join(tokens[1..], ',') == topic + [','] + duration;
      assert Join(tokens, ',') == date + "," + topic + "," + duration;
      SplitJoin(tokens, ',');
    }
  }

  /** The file after one append: a file that exists and holds something
      gets exactly the row added at its end; a missing or empty file gets
      the header and then the row. `file` is None when there is no file. */
  function AppendRow(file: Option<string>, row: string): (r: string)
    ensures file.Some? && file.value != [] ==> r == file.value + row
    ensures file.None? || file.value == [] ==> r == CsvHeader + row
    ensures file.Some? ==> |file.value| <= |r| && r[..|file.value|] == file.value
    ensures |r| >= |row| && r[|r| - |row|..] == row
  {
    var existing := file.GetOr("");
    var start := if existing == [] then CsvHeader else existing;
    assert (start + row)[..|start|] == start;
    start + row
  }

  /** The rows a sequence of entries occupies in the file, in order. */
  function StoreRows(entries: seq<TimelineEntry>): string {
    if entries == [] then ""
    else RowText(entries[0].date, entries[0].topic, entries[0].duration) + StoreRows(entries[1..])
  }

  /** The file content after a reset and a save of each entry in turn. */
  function StoreContent(entries: seq<TimelineEntry>): string {
    CsvHeader + StoreRows(entries)
  }

  lemma {:induction false} StoreRowsAppend(entries: seq<TimelineEntry>, e: TimelineEntry)
    ensures StoreRows(entries + [e]) == StoreRows(entries) + RowText(e.date, e.topic, e.duration)
  {
    if entries == [] {
      assert [e][1..] == [];
    } else {
      assert (entries + [e])[1..] == entries[1..] + [e];
      StoreRowsAppend(entries[1..], e);
    }
  }

  /** Saving an entry to a file written by this store adds that entry last. */
  lemma {:induction false} SaveExtendsStore(entries: seq<TimelineEntry>, e: TimelineEntry)
    ensures AppendRow(Some(StoreContent(entries)), RowText(e.date, e.topic, e.duration))
            == StoreContent(entries + [e])
  {
    StoreRowsAppend(entries, e);
  }

  /** The first save into a missing or empty file starts a store. */
  lemma {:induction false} FirstSaveStartsStore(file: Option<string>, e: TimelineEntry)
    requires file.None? || file.value == []
    ensures AppendRow(file, RowText(e.date, e.topic, e.duration)) == StoreContent([e])
  {
    assert [e][1..] == [];
    assert StoreRows([e]) == RowText(e.date, e.topic, e.duration) + "";
  }

  /** The home view model: the CSV file (None while it does not exist), the
      last message shown, and how many clear-fields events were posted. */
  class HomeViewModel {
    var file: Option<string>
    var toastMessage: Option<string>
    var clearFieldsEvents: nat

    constructor (existing: Option<string>)
      ensures file == existing && toastMessage == None && clearFieldsEvents == 0
    {
      file := existing;
      toastMessage := None;
      clearFieldsEvents := 0;
    }

    /** saveStudySession. `path` is where the file lives; `ioError` is the
        message of an IOException raised while writing, if one is. */
    method SaveStudySession(date: string, topic: string, duration: string, path: string, ioError: Option<string>)
      modifies this
      ensures CheckFields(date, topic, duration).Some? ==>
        && file == old(file) && clearFieldsEvents == old(clearFieldsEvents)
        && toastMessage == CheckFields(date, topic, duration)
      ensures CheckFields(date, topic, duration).None? && ioError.None? ==>
        && file == Some(AppendRow(old(file), RowText(date, topic, duration)))
        && toastMessage == Some(SavedPrefix + path)
        && clearFieldsEvents == old(clearFieldsEvents) + 1
      ensures CheckFields(date, topic, duration).None? && ioError.Some? ==>
        && file == old(file) && clearFieldsEvents == old(clearFieldsEvents)
        && toastMessage == Some(SaveErrorPrefix + ioError.value)
    {
      if IsBlank(date) || IsBlank(topic) || IsBlank(duration) {
        toastMessage := Some(FillAllFieldsMessage);
        return;
      }
      if !MatchesDatePattern(date) {
        toastMessage := Some(DateFormatMessage);
        return;
      }
      var entry := date + "," + topic + "," + duration + "\n";
      if ioError.Some? {
        toastMessage := Some(SaveErrorPrefix + ioError.value);
        return;
      }
      var fileExists := file.Some?;
      var content := file.GetOr("");
      if !fileExists || |content| == 0 {
        content := CsvHeader;
      }
      file := Some(content + entry);
      toastMessage := Some(SavedPrefix + path);
      clearFieldsEvents := clearFieldsEvents + 1;
    }

    /** deleteAllStudySessions: the file is overwritten with the header. */
    method DeleteAllStudySessions(ioError: Option<string>)
      modifies this
      ensures clearFieldsEvents == old(clearFieldsEvents)
      ensures ioError.None? ==> file == Some(StoreContent([])) && toastMessage == Some(ResetMessage)
      ensures ioError.Some? ==> file == old(file) && toastMessage == Some(DeleteErrorPrefix + ioError.value)
    {
      if ioError.Some? {
        toastMessage := Some(DeleteErrorPrefix + ioError.value);
        return;
      }
      file := Some(CsvHeader);
      toastMessage := Some(ResetMessage);
      assert StoreContent([]) == CsvHeader + "" == CsvHeader;
    }
  }
}
