# ProductivityApp core in Dafny

ProductivityApp is an Android app for logging study sessions. Each session is a
`TimelineEntry`: a date, a topic and a duration. This project models the app's
logic that does not depend on Android:

- **TimelineEntries.dfy**: the entry record and its derived `id`.
- **CsvParser.dfy**: the CSV importer. It skips the header line, splits each
  later line on `,` with no quoting, and keeps a line when its first three
  trimmed tokens are non-empty. The file is given as its lines; `ReadLines`
  models `BufferedReader.readLine` on `\n`-terminated text.
- **Analytics.dfy**: the analytics screen.
  - The minutes formatter (`90` gives `"1h 30m"`).
  - The CSV export encoder. Only the topic is quoted, with `"` doubled.
  - The export flags `isLoading`, `csvContentToSave` and `userMessage`, as a
    state machine and as a class. The class follows the finally clause as
    written (`ExportAsWritten`); `Export` is the corrected transition (see
    Findings).
- **HomeStore.dfy**: the home screen's flat-file store.
  - It appends `date,topic,duration` lines after a header.
  - A reset leaves only the header.
  - The file is a mutable `Option<string>` field: `None` while the file does
    not exist.
- **FormValidation.dfy**: the checks both entry forms run: blank fields, the
  date pattern `^\d{4}-\d{2}-\d{2}$`, and Kotlin's `toIntOrNull`.
- **DataEntry.dfy**: the data-entry screen. It validates the form and then
  performs one insert into the entry table.
- **EntryDao.dfy**: the Room DAO's declared SQL semantics, as an in-memory table
  class.
  - `INSERT OR REPLACE`, delete and update by key, delete-all, and lookup by
    key.
  - A listing ordered `date DESC, id DESC`.
  - `SELECT DISTINCT topic ORDER BY topic ASC`.
  - SQLite's BINARY collation orders text character by character (`Text.LexLess`).
- **Interchange.dfy**: what the importer makes of the files the app writes.
  - The home store's file reads back as the saved entries.
  - The export does not read back as its entries: the topic keeps its quotes
    and its doubled quotes, and a comma in a topic shifts the fields.
- **Text.dfy** and **Wrappers.dfy**: Kotlin string primitives (`isWhitespace`,
  `trim`, `isBlank`, literal `split`, decimal rendering), and `Option`/`Result`.

Effects are parameters of the methods that have them:
- The outcome of file or database I/O (an exception message, or none).
- The path shown in a toast.
- The key a new row receives.
- The entries the repository delivers.

Each `viewModelScope.launch` block is treated as finishing inside the call
that launches it.

## Model

| member | source | states |
|---|---|---|
| TimelineEntries.TimelineEntry.Id | app/src/main/java/com/example/productivityapp/data/TimelineEntry.kt:8-9 | the id is `date + "-" + topic + "-" + duration`, stated by its parts: length is the sum of the field lengths plus 2, it starts with `date + "-"`, the topic sits right after that, and it ends with `"-" + duration` |
| TimelineEntries.SameFieldsSameId | app/src/main/java/com/example/productivityapp/data/TimelineEntry.kt:3-9 | entries that agree on the three constructor fields are equal (data-class equality) and have equal ids |
| TimelineEntries.IdNotInjective | app/src/main/java/com/example/productivityapp/data/TimelineEntry.kt:8-9 | the id does not determine the entry: ("a-b","c","d") and ("a","b-c","d") differ but share the id "a-b-c-d" |
| TimelineEntries.IdSplitsBack | app/src/main/java/com/example/productivityapp/data/TimelineEntry.kt:9 | when topic and duration hold no '-', splitting the id at its last two dashes gives the entry back |
| TimelineEntries.IdInjectiveWhenDashFree | app/src/main/java/com/example/productivityapp/data/TimelineEntry.kt:9 | two entries whose topic and duration hold no '-' and that share an id are equal |
| Text.Trim | app/src/main/java/com/example/productivityapp/utils/CsvParser.kt:32-34 | `trim` leaves no whitespace at either end, is empty exactly when the token is blank, and is no longer than the token |
| Text.TrimKeepsOut | app/src/main/java/com/example/productivityapp/utils/CsvParser.kt:32-34 | trimming adds no character that was not in the token |
| Text.TrimTrimmed | app/src/main/java/com/example/productivityapp/utils/CsvParser.kt:32-34 | trimming an already trimmed string changes nothing |
| Text.TrimPadded | app/src/main/java/com/example/productivityapp/utils/CsvParser.kt:32-34 | whitespace before and after a non-empty core that neither starts nor ends with whitespace is removed, and the core is returned exactly |
| Text.IsWhitespace | app/src/main/java/com/example/productivityapp/utils/CsvParser.kt:32-34 | the characters `trim` strips include space, tab, `\n` and `\r`, and never a digit, comma, quote or dash |
| Text.IsBlank | app/src/main/java/com/example/productivityapp/ui/home/HomeViewModel.kt:41 | `isBlank` holds for the empty string and fails for a string that starts with a digit |
| Text.Split | app/src/main/java/com/example/productivityapp/utils/CsvParser.kt:29 | `split(",")` yields at least one token and no token holds the separator |
| Text.JoinSplit | app/src/main/java/com/example/productivityapp/utils/CsvParser.kt:29 | splitting loses nothing: joining the tokens with the separator gives the line back |
| Text.SplitJoin | app/src/main/java/com/example/productivityapp/utils/CsvParser.kt:29 | separator-free tokens joined and split again come back unchanged, empty ones included |
| Text.SplitLength | app/src/main/java/com/example/productivityapp/utils/CsvParser.kt:29-30 | a line splits into one token more than it has separators |
| Text.DecimalString | app/src/main/java/com/example/productivityapp/ui/analytics/AnalyticsViewModel.kt:65-67 | an Int rendered in a string template is a non-empty run of ASCII digits with no leading zero, and its digits denote the number |
| Text.DecimalStringInjective | app/src/main/java/com/example/productivityapp/ui/analytics/AnalyticsViewModel.kt:65-67 | distinct numbers are rendered differently |
| Text.LexLessIrreflexive | app/src/main/java/com/example/productivityapp/data/TimeLineEntryDao.kt:66 | no string sorts before itself in the BINARY collation |
| Text.LexLessTransitive | app/src/main/java/com/example/productivityapp/data/TimeLineEntryDao.kt:66 | the BINARY collation order is transitive |
| Text.LexLessTotal | app/src/main/java/com/example/productivityapp/data/TimeLineEntryDao.kt:66 | any two different strings are ordered one way or the other |
| CsvParser.ParseLineParsable | app/src/main/java/com/example/productivityapp/utils/CsvParser.kt:29-37 | a kept line gives three non-empty, trimmed, comma-free fields |
| CsvParser.ParseLineNeedsTwoCommas | app/src/main/java/com/example/productivityapp/utils/CsvParser.kt:30 | a line with fewer than two commas has fewer than three tokens and is skipped |
| CsvParser.ParseLineDecomposed | app/src/main/java/com/example/productivityapp/utils/CsvParser.kt:29-37 | a line `a,b,c` (then nothing, or ',' and anything) gives `(trim a, trim b, trim c)` exactly when none of the three is blank, and nothing otherwise; tokens past the third are ignored |
| CsvParser.QuotedFieldKeepsQuotes | app/src/main/java/com/example/productivityapp/utils/CsvParser.kt:29 | splitting ignores quotes: a middle field `"t"` is read with both quote characters kept |
| CsvParser.ParseDataLines | app/src/main/java/com/example/productivityapp/utils/CsvParser.kt:28-37 | at most one entry per data line |
| CsvParser.Parse | app/src/main/java/com/example/productivityapp/utils/CsvParser.kt:23-37 | an empty file gives no entries; otherwise at most one entry per line after the header |
| CsvParser.ParsedEntriesParsable | app/src/main/java/com/example/productivityapp/utils/CsvParser.kt:32-37 | every entry the importer produces has non-empty, trimmed, comma-free fields |
| CsvParser.HeaderIgnored | app/src/main/java/com/example/productivityapp/utils/CsvParser.kt:23-24 | whatever the first line holds, it produces no entry: the file gives exactly the entries of the later lines |
| CsvParser.ParseDataLinesAppend | app/src/main/java/com/example/productivityapp/utils/CsvParser.kt:27-46 | the entries of two stretches of lines are those of the first followed by those of the second, so order is kept and a malformed line never stops the loop |
| CsvParser.ParseDistributes | app/src/main/java/com/example/productivityapp/utils/CsvParser.kt:27-46 | `parse(h::(A++B)) == parse(h::A) ++ parse(h::B)` |
| CsvParser.ParseCsvFromFile | app/src/main/java/com/example/productivityapp/utils/CsvParser.kt:11-56 | the loop over the lines returns no entries for a missing or unreadable file, and otherwise exactly `Parse` of the lines: the header is dropped and each later line adds what `ParseLine` finds in it, in order |
| CsvParser.ReadLines | app/src/main/java/com/example/productivityapp/utils/CsvParser.kt:24-28 | `readLine` yields one line per `\n`, plus one for an unterminated last line, and none for an empty text |
| CsvParser.ReadLinesHaveNoBreaks | app/src/main/java/com/example/productivityapp/utils/CsvParser.kt:28 | no line `readLine` yields holds a `\n` |
| CsvParser.ReadLinesTerminated | app/src/main/java/com/example/productivityapp/utils/CsvParser.kt:28 | reading back `\n`-terminated lines that hold no `\n` yields exactly those lines |
| FormValidation.DatePatternFields | app/src/main/java/com/example/productivityapp/ui/home/HomeViewModel.kt:35-37 | `^\d{4}-\d{2}-\d{2}$` matches exactly a ten-character string of four digits, a dash, two digits, a dash and two digits (the same pattern is DataEntryViewModel.kt:32-34) |
| FormValidation.DatePatternIsSafeField | app/src/main/java/com/example/productivityapp/ui/home/HomeViewModel.kt:35-37 | a date matching `^\d{4}-\d{2}-\d{2}$` is not blank, not padded, and holds no comma or line break |
| FormValidation.CheckFields | app/src/main/java/com/example/productivityapp/ui/home/HomeViewModel.kt:41-49 | the first failing check, in both directions: "Please fill all fields" exactly when a field is blank, the date message exactly when none is blank and the date misses the pattern, no message exactly when both pass (the same chain is DataEntryViewModel.kt:44-52) |
| FormValidation.ToIntOrNull | app/src/main/java/com/example/productivityapp/ui/dataentry/DataEntryViewModel.kt:54 | a value read is in the Int range and comes from an optional sign and ASCII digits only; a positive value has no '-' |
| FormValidation.ToIntOrNullReadsNumeral | app/src/main/java/com/example/productivityapp/ui/dataentry/DataEntryViewModel.kt:54 | an optional sign followed by ASCII digits (leading zeros allowed) reads as the signed value of the digits when it lies in the Int range, and as null outside it |
| FormValidation.ToIntOrNullRejects | app/src/main/java/com/example/productivityapp/ui/dataentry/DataEntryViewModel.kt:54 | anything that is not an optional sign followed by at least one digit reads as null |
| FormValidation.ToIntOrNullReadsDecimal | app/src/main/java/com/example/productivityapp/ui/dataentry/DataEntryViewModel.kt:54 | every non-negative Int rendered in decimal reads back as itself |
| FormValidation.ToIntOrNullReadsSigned | app/src/main/java/com/example/productivityapp/ui/dataentry/DataEntryViewModel.kt:54 | a leading '-' or '+' is honoured, down to Int's minimum |
| FormValidation.ValidateEntryForm | app/src/main/java/com/example/productivityapp/ui/dataentry/DataEntryViewModel.kt:43-58 | checks run blank, then date, then duration; only the first failure's message is given; success exactly when all pass, with the duration as an Int in 1..Int.MAX_VALUE |
| FormValidation.ValidFormAccepted | app/src/main/java/com/example/productivityapp/ui/dataentry/DataEntryViewModel.kt:43-58 | a well-formed date, a non-blank topic and a positive Int in decimal are accepted with that Int |
| Analytics.FormatMinutesToHoursMinutes | app/src/main/java/com/example/productivityapp/ui/analytics/AnalyticsViewModel.kt:59-60 | "N/A" exactly for a negative count |
| Analytics.FormatMinutesExamples | app/src/main/java/com/example/productivityapp/ui/analytics/AnalyticsViewModel.kt:59-68 | -5, 0, 45, 90 and 60 render as "N/A", "0m", "45m", "1h 30m" and "1h" |
| Analytics.FormatMinutesReadsBack | app/src/main/java/com/example/productivityapp/ui/analytics/AnalyticsViewModel.kt:61-68 | every non-negative count reads back as itself through a reader that accepts only the normal form (`{h}h` with h > 0, `{m}m` with m < 60, or `{h}h {m}m` with h > 0 and 0 < m < 60, no leading zeros); a negative count reads as nothing |
| Analytics.ReadBackHoursAndMinutes | app/src/main/java/com/example/productivityapp/ui/analytics/AnalyticsViewModel.kt:65 | the `{h}h {m}m` branch reads back as the count |
| Analytics.ReadBackHours | app/src/main/java/com/example/productivityapp/ui/analytics/AnalyticsViewModel.kt:66 | the `{h}h` branch reads back as the count |
| Analytics.ReadBackMinutes | app/src/main/java/com/example/productivityapp/ui/analytics/AnalyticsViewModel.kt:67 | the `{m}m` branch reads back as the count |
| Analytics.ReadMinutesOnlyRenderings | app/src/main/java/com/example/productivityapp/ui/analytics/AnalyticsViewModel.kt:61-68 | every string the normal-form reader accepts is the rendering of the count it reads, so h = n / 60, m = n % 60, and a part is shown only when non-zero |
| Analytics.CanonicalIsDecimal | app/src/main/java/com/example/productivityapp/ui/analytics/AnalyticsViewModel.kt:65-67 | digits without a leading zero are exactly the string template's rendering of their value |
| Analytics.FormatMinutesInjective | app/src/main/java/com/example/productivityapp/ui/analytics/AnalyticsViewModel.kt:61-68 | distinct non-negative counts are rendered differently |
| Analytics.EscapeQuotes | app/src/main/java/com/example/productivityapp/ui/analytics/AnalyticsViewModel.kt:112 | escaping adds exactly one character per double quote in the topic |
| Analytics.UnescapeEscape | app/src/main/java/com/example/productivityapp/ui/analytics/AnalyticsViewModel.kt:112 | removing the doubling recovers the topic |
| Analytics.EscapeKeepsOut | app/src/main/java/com/example/productivityapp/ui/analytics/AnalyticsViewModel.kt:112 | escaping adds no character other than '"' |
| Analytics.EscapeQuoteFree | app/src/main/java/com/example/productivityapp/ui/analytics/AnalyticsViewModel.kt:112 | a topic without quotes is written unchanged |
| Analytics.ExportRowTopic | app/src/main/java/com/example/productivityapp/ui/analytics/AnalyticsViewModel.kt:112-113 | in an exported row, the text between the quotes after the date and before the duration, with doubled quotes collapsed, is the topic |
| Analytics.ExportDocument | app/src/main/java/com/example/productivityapp/ui/analytics/AnalyticsViewModel.kt:106 | the export starts with `Date,Topic,Duration\n` |
| Analytics.ExportRowsAppend | app/src/main/java/com/example/productivityapp/ui/analytics/AnalyticsViewModel.kt:109-114 | the rows of two lists of entries are the rows of the first followed by those of the second, one row per entry in order |
| Analytics.GenerateCsvString | app/src/main/java/com/example/productivityapp/ui/analytics/AnalyticsViewModel.kt:103-117 | the string-builder loop yields the header followed by one `date,"esc(topic)",duration\n` row per entry, in order |
| Analytics.Prepare | app/src/main/java/com/example/productivityapp/ui/analytics/AnalyticsViewModel.kt:80-94 | the launched block before its finally clause leaves the flag alone; it hands over the CSV document of the fetched entries exactly when the fetch succeeded with a non-empty list, and otherwise keeps the CSV content; a failed fetch posts "Error preparing data for export: " and the message, an empty list "No data available to export." |
| Analytics.Export | app/src/main/java/com/example/productivityapp/ui/analytics/AnalyticsViewModel.kt:71-101 | with the finally clause corrected: busy leaves everything as is but the message "Export already in progress."; a failed fetch posts the error message; an empty list posts "No data available to export." with no CSV and the flag cleared; a non-empty list posts the CSV document and keeps the flag set |
| Analytics.ExportAsWritten | app/src/main/java/com/example/productivityapp/ui/analytics/AnalyticsViewModel.kt:95-98 | as written, the new state is that of the corrected export except that the flag is also left set whenever CSV text was handed over at some earlier time: the same message and the same CSV content, and a busy export changes only the message |
| Analytics.Finished | app/src/main/java/com/example/productivityapp/ui/analytics/AnalyticsViewModel.kt:120-127 | `exportFinished` always clears the flag, keeps the CSV content, and posts the given message or the default success or failure text |
| Analytics.ExportBusyOnlyWithNewContent | app/src/main/java/com/example/productivityapp/ui/analytics/AnalyticsViewModel.kt:88-98 | from an idle state, the corrected export leaves the flag set exactly when this run handed a non-empty list's CSV over |
| Analytics.ExportAsWrittenStuck | app/src/main/java/com/example/productivityapp/ui/analytics/AnalyticsViewModel.kt:95-98 | as written: export one entry, finish, then export an empty list, and the flag stays set with nothing new to save, so every later export only reports "Export already in progress." |
| Analytics.AnalyticsViewModel.constructor | app/src/main/java/com/example/productivityapp/ui/analytics/AnalyticsViewModel.kt:23-32 | not loading, no CSV content, no message |
| Analytics.AnalyticsViewModel.ExportTimelineDataToCsv | app/src/main/java/com/example/productivityapp/ui/analytics/AnalyticsViewModel.kt:71-101 | the fields afterwards are `ExportAsWritten` of the fields before and the fetch outcome (the finally clause as written), and so equal the corrected `Export` while no CSV text was handed over before |
| Analytics.AnalyticsViewModel.ExportFinished | app/src/main/java/com/example/productivityapp/ui/analytics/AnalyticsViewModel.kt:120-127 | the fields afterwards are `Finished` of the fields before |
| HomeStore.RowText | app/src/main/java/com/example/productivityapp/ui/home/HomeViewModel.kt:52 | the line has the length of the three fields plus two commas and a line break, and ends with the line break; fields free of commas are split back from it unchanged |
| HomeStore.RowTextFields | app/src/main/java/com/example/productivityapp/ui/home/HomeViewModel.kt:52 | for any fields, commas included, the line is the date and a comma, then the topic, then a comma, the duration and `\n`, with nothing quoted or escaped |
| HomeStore.AppendRow | app/src/main/java/com/example/productivityapp/ui/home/HomeViewModel.kt:63-71 | a non-empty file gets exactly the row appended; a missing or empty file becomes exactly the header followed by the row |
| HomeStore.StoreRowsAppend | app/src/main/java/com/example/productivityapp/ui/home/HomeViewModel.kt:52 | the rows of a list with one more entry end with that entry's `date,topic,duration\n` |
| HomeStore.SaveExtendsStore | app/src/main/java/com/example/productivityapp/ui/home/HomeViewModel.kt:63-71 | saving into a file this store wrote gives the store content of the entries with the new one last |
| HomeStore.FirstSaveStartsStore | app/src/main/java/com/example/productivityapp/ui/home/HomeViewModel.kt:67-70 | the first save into a missing or empty file writes the header and then the row |
| HomeStore.HomeViewModel.constructor | app/src/main/java/com/example/productivityapp/ui/home/HomeViewModel.kt:25-29 | the file as found, no message, no clear-fields event |
| HomeStore.HomeViewModel.SaveStudySession | app/src/main/java/com/example/productivityapp/ui/home/HomeViewModel.kt:40-81 | a blank field or a bad date posts its message and changes neither file nor events; the duration is not checked; a successful write appends `date,topic,duration\n` (after the header for a missing or empty file), posts "Data saved to " and the path, and posts one clear-fields event; an I/O error posts "Error saving data: " and its message and changes neither |
| HomeStore.HomeViewModel.DeleteAllStudySessions | app/src/main/java/com/example/productivityapp/ui/home/HomeViewModel.kt:83-109 | on success the file is exactly the header, whatever it held, and "All data deleted. File reset to header." is posted; on an I/O error the file is unchanged and the error is posted |
| EntryDao.Find | app/src/main/java/com/example/productivityapp/data/TimeLineEntryDao.kt:39-40 | a row found has the key asked for; nothing found means no row has that key |
| EntryDao.RemoveKey | app/src/main/java/com/example/productivityapp/data/TimeLineEntryDao.kt:48-49 | exactly the rows with other keys remain; lookups of other keys are unchanged; an absent key changes nothing |
| EntryDao.RemoveKeyUnique | app/src/main/java/com/example/productivityapp/data/TimeLineEntryDao.kt:48-49 | deleting a present key from a table with unique keys removes exactly one row and keeps the keys unique |
| EntryDao.Upsert | app/src/main/java/com/example/productivityapp/data/TimeLineEntryDao.kt:21-22 | REPLACE: afterwards the key finds exactly the new row; every other key finds what it found before; a fresh key adds one row and a present key keeps the count; keys stay unique |
| EntryDao.Overwrite | app/src/main/java/com/example/productivityapp/data/TimeLineEntryDao.kt:57-58 | same length and keys; the row with the entry's key becomes the entry and every other row is unchanged |
| EntryDao.OverwriteFind | app/src/main/java/com/example/productivityapp/data/TimeLineEntryDao.kt:57-58 | after an update the key finds the entry exactly when it was present; other keys find what they found before |
| EntryDao.ListedNoLaterTransitive | app/src/main/java/com/example/productivityapp/data/TimeLineEntryDao.kt:30 | `date DESC, id DESC` is transitive |
| EntryDao.ListedNoLaterTotal | app/src/main/java/com/example/productivityapp/data/TimeLineEntryDao.kt:30 | any two rows are ordered one way or the other by `date DESC, id DESC` |
| EntryDao.InsertListed | app/src/main/java/com/example/productivityapp/data/TimeLineEntryDao.kt:30 | inserting into a listing adds exactly that row (as a multiset) |
| EntryDao.InsertListedOrdered | app/src/main/java/com/example/productivityapp/data/TimeLineEntryDao.kt:30 | inserting into a listing in `date DESC, id DESC` order keeps that order |
| EntryDao.InsertListedUnique | app/src/main/java/com/example/productivityapp/data/TimeLineEntryDao.kt:30 | inserting a row with a fresh key keeps the keys unique |
| EntryDao.SortListing | app/src/main/java/com/example/productivityapp/data/TimeLineEntryDao.kt:30-31 | the listing is a permutation of the rows in `date DESC, id DESC` order |
| EntryDao.SortListingUnique | app/src/main/java/com/example/productivityapp/data/TimeLineEntryDao.kt:30-31 | sorting keeps the keys unique |
| EntryDao.InsertTopic | app/src/main/java/com/example/productivityapp/data/TimeLineEntryDao.kt:66 | adding a topic gives exactly the old topics and the new one |
| EntryDao.InsertTopicAscending | app/src/main/java/com/example/productivityapp/data/TimeLineEntryDao.kt:66 | adding a topic keeps the list strictly ascending |
| EntryDao.DistinctTopics | app/src/main/java/com/example/productivityapp/data/TimeLineEntryDao.kt:66-67 | the topics are strictly ascending and are exactly the topics of the rows |
| EntryDao.AscendingIsDistinct | app/src/main/java/com/example/productivityapp/data/TimeLineEntryDao.kt:66 | a strictly ascending list holds no topic twice |
| EntryDao.EntryTable.constructor | app/src/main/java/com/example/productivityapp/data/TimeLineEntryDao.kt:12-13 | a new table is empty |
| EntryDao.EntryTable.GetEntryById | app/src/main/java/com/example/productivityapp/data/TimeLineEntryDao.kt:39-40 | the row with the key, or None exactly when no row has it |
| EntryDao.EntryTable.InsertEntry | app/src/main/java/com/example/productivityapp/data/TimeLineEntryDao.kt:21-22 | afterwards the key finds exactly the entry; other keys are unchanged; a fresh key adds one row and a present key is replaced in place of adding one; keys stay unique |
| EntryDao.EntryTable.DeleteEntry | app/src/main/java/com/example/productivityapp/data/TimeLineEntryDao.kt:48-49 | only the row with the entry's key goes; other keys are unchanged; an absent key changes nothing |
| EntryDao.EntryTable.UpdateEntry | app/src/main/java/com/example/productivityapp/data/TimeLineEntryDao.kt:57-58 | only the row with the entry's key is overwritten; no row is added; an absent key stays absent |
| EntryDao.EntryTable.DeleteAllEntries | app/src/main/java/com/example/productivityapp/data/TimeLineEntryDao.kt:63-64 | the table is empty and the listing is then [] |
| EntryDao.EntryTable.GetAllEntries | app/src/main/java/com/example/productivityapp/data/TimeLineEntryDao.kt:30-31 | a permutation of the rows, each strictly before the next by date descending and then key descending |
| EntryDao.EntryTable.GetAllDistinctTopics | app/src/main/java/com/example/productivityapp/data/TimeLineEntryDao.kt:66-67 | each topic present exactly once, strictly ascending, and nothing else |
| DataEntry.DataEntryViewModel.constructor | app/src/main/java/com/example/productivityapp/ui/dataentry/DataEntryViewModel.kt:37-41 | the view model works on the given table, with no message and no event |
| DataEntry.DataEntryViewModel.SaveStudySession | app/src/main/java/com/example/productivityapp/ui/dataentry/DataEntryViewModel.kt:43-73 | a failed check posts the first failure's message and inserts nothing; on success exactly one row (date, topic, duration as Int > 0) is inserted with REPLACE, "Data saved successfully!" and one clear event are posted; a failed insert posts "Error saving data: " and the message, with no clear event and no change |
| DataEntry.DataEntryViewModel.DeleteAllStudySessions | app/src/main/java/com/example/productivityapp/ui/dataentry/DataEntryViewModel.kt:75-85 | on success the table is empty and "All data deleted successfully!" is posted; on failure the table is unchanged and the error is posted |
| Interchange.StoreLineParses | app/src/main/java/com/example/productivityapp/ui/home/HomeViewModel.kt:52 | a stored line of non-blank, comma-free fields is read back by the importer as the trimmed fields |
| Interchange.StoreTextLines | app/src/main/java/com/example/productivityapp/ui/home/HomeViewModel.kt:66-71 | the store's file, read line by line, is the header line followed by one line per saved entry |
| Interchange.StoreReadsBack | app/src/main/java/com/example/productivityapp/ui/home/HomeViewModel.kt:52 | after a reset and saves of entries with non-blank fields holding no comma and no `\n`, the importer returns those entries in order, trimmed |
| Interchange.StoreRoundTrip | app/src/main/java/com/example/productivityapp/ui/home/HomeViewModel.kt:52 | entries of the kind the importer produces, with no `\n` in a field, come back exactly |
| Interchange.ExportLineParses | app/src/main/java/com/example/productivityapp/ui/analytics/AnalyticsViewModel.kt:113 | an exported line is imported with its date and duration trimmed and its topic still quoted and escaped |
| Interchange.ExportReadsBack | app/src/main/java/com/example/productivityapp/ui/analytics/AnalyticsViewModel.kt:103-117 | importing an export of comma-free entries gives one entry per exported entry, in order, with the topic quoted and escaped |
| Interchange.ExportImportNotInverse | app/src/main/java/com/example/productivityapp/ui/analytics/AnalyticsViewModel.kt:112-113 | for a non-empty list of exportable entries (`Exportable`: non-blank date and duration, and no comma and no `\n` in any field), importing the export never gives back that list |
| Interchange.ImportedTopicUnquotes | app/src/main/java/com/example/productivityapp/ui/analytics/AnalyticsViewModel.kt:112-113 | removing the outer quotes and then the doubling from an imported topic recovers the exported topic |
| Interchange.CommaInTopicShiftsFields | app/src/main/java/com/example/productivityapp/ui/analytics/AnalyticsViewModel.kt:110-113 | a comma inside a quote-free topic shifts the fields on import: topic `t1,t2` comes back as topic `"t1` and duration `t2"` |

## Left out

- Real file I/O is not modelled. That covers the documents directory, `mkdirs`, `File.exists`/`canRead`, byte encoding and partial writes. A write either happens whole or fails with an exception message given as a parameter. The file path in the toast is a parameter.
- CsvParser.ParseCsvFromFile: models neither a read that fails midway (CsvParser.kt:49-54 keeps the entries read so far) nor `\r` or `\r\n` as line terminators; lines end at `\n` only.
- An exception whose message is null renders as "null" in Kotlin's templates. Here the message is always a string.
- Logging is not modelled: `println` in the CSV reader (CsvParser.kt:40,44), `printStackTrace` in the reader and the view models, and `Log.d`/`Log.e` in the analytics view model. None of them changes state the app reads.
- Coroutines, `LiveData`, `Flow` and the `Event` wrapper (`utils.Event` is not part of this model): each message or event is the last value posted, and each clear-fields event is counted.
- Per-topic aggregation (`topicAnalytics`, `TopicAnalyticsItem`, AnalyticsViewModel.kt:47-56) is not modelled: those types are not part of this model. Analytics.FormatMinutesToHoursMinutes is modelled on its own.
- Analytics.FormatMinutesToHoursMinutes takes an unbounded integer. The Kotlin parameter is an Int, but the function never overflows on an Int.
- FormValidation.ToIntOrNull: accepts ASCII digits only. Kotlin's `toIntOrNull` also accepts other Unicode decimal digits.
- `TimelineRepository.kt` only forwards to the DAO, and `AppDatabase.kt` is a Room singleton; neither is modelled. Fragments and adapters are UI and are not modelled either.
- The DAO's key. `TimelineEntry.kt` declares no key column and its duration is a String, while the DAO looks up a `Long` id and DataEntryViewModel.kt:63 passes an Int duration. Table rows therefore carry an explicit `id: int` and an `int` duration. DataEntry.DataEntryViewModel.SaveStudySession takes the new row's key as a parameter.
- Text.LexLess compares Unicode code points. That agrees with SQLite's byte-wise BINARY collation on UTF-8 text.
- The Kotlin string templates render negative Ints with a '-'; only non-negative values are rendered here (Text.DecimalString), as the formatter only renders those.

## Findings

| source | as written | input that shows it | evidently intended | confidence | as-written member | corrected member |
|---|---|---|---|---|---|---|
| app/src/main/java/com/example/productivityapp/ui/analytics/AnalyticsViewModel.kt:95-98 | the finally clause clears `_isLoading` only while `_csvContentToSave.value == null`, and that value is never reset after the first successful export | export one entry, finish the save (`exportFinished(true)`), then export when the table is empty: "No data available to export." is posted but `_isLoading` stays true, no new CSV is handed to the screen so `exportFinished` is never called, and every later export only posts "Export already in progress." | the flag stays set only when this run handed new CSV content over | not executed | Analytics.ExportAsWrittenStuck | Analytics.ExportBusyOnlyWithNewContent |
