/** The data-entry screen: a form checked in order (blank fields, date
    pattern, positive whole number of minutes) and, when it passes, one
    insert into the entry table. */
module DataEntry {
  import opened Wrappers
  import opened Text
  import opened FormValidation
  import opened EntryDao

  const SavedMessage := "Data saved successfully!"
  const SaveErrorPrefix := "Error saving data: "
  const DeletedMessage := "All data deleted successfully!"
  const DeleteErrorPrefix := "Error deleting data: "

  /** The data-entry view model over the table its repository forwards to. */
  class DataEntryViewModel {
    const repository: EntryTable
    var toastMessage: Option<string>
    var clearFieldsEvents: nat

    ghost predicate Valid()
      reads this, repository
    {
      repository.Valid()
    }

    constructor (table: EntryTable)
      requires table.Valid()
      ensures Valid() && repository == table
      ensures toastMessage == None && clearFieldsEvents == 0
    {
      repository := table;
      toastMessage := None;
      clearFieldsEvents := 0;
    }

    /** saveStudySession. `newId` is the key the inserted row receives;
        `storageError` is the message of an exception raised by the insert,
        if one is. */
    method SaveStudySession(dateStr: string, topicStr: string, durationStr: string,
                            newId: int, storageError: Option<string>)
      requires Valid()
      modifies this, repository
      ensures Valid()
      ensures ValidateEntryForm(dateStr, topicStr, durationStr).Failure? ==>
        && repository.rows == old(repository.rows)
        && toastMessage == Some(ValidateEntryForm(dateStr, topicStr, durationStr).error)
        && clearFieldsEvents == old(clearFieldsEvents)
      ensures ValidateEntryForm(dateStr, topicStr, durationStr).Success? && storageError.None? ==>
        && repository.rows == Upsert(old(repository.rows),
             Row(newId, dateStr, topicStr, ValidateEntryForm(dateStr, topicStr, durationStr).value))
        && toastMessage == Some(SavedMessage)
        && clearFieldsEvents == old(clearFieldsEvents) + 1
      ensures ValidateEntryForm(dateStr, topicStr, durationStr).Success? && storageError.Some? ==>
        && repository.rows == old(repository.rows)
        && toastMessage == Some(SaveErrorPrefix + storageError.value)
        && clearFieldsEvents == old(clearFieldsEvents)
    {
      if IsBlank(dateStr) || IsBlank(topicStr) || IsBlank(durationStr) {
        toastMessage := Some(FillAllFieldsMessage);
        return;
      }
      if !MatchesDatePattern(dateStr) {
        toastMessage := Some(DateFormatMessage);
        return;
      }
      var durationInt := ToIntOrNull(durationStr);
      if durationInt.None? || durationInt.value <= 0 {
        toastMessage := Some(DurationMessage);
        return;
      }
      if storageError.Some? {
        toastMessage := Some(SaveErrorPrefix + storageError.value);
        return;
      }
      var newEntry := Row(newId, dateStr, topicStr, durationInt.value);
      repository.InsertEntry(newEntry);
      toastMessage := Some(SavedMessage);
      clearFieldsEvents := clearFieldsEvents + 1;
    }

    /** deleteAllStudySessions. */
    method DeleteAllStudySessions(storageError: Option<string>)
      requires Valid()
      modifies this, repository
      ensures Valid()
      ensures clearFieldsEvents == old(clearFieldsEvents)
      ensures storageError.None? ==> repository.rows == [] && toastMessage == Some(DeletedMessage)
      ensures storageError.Some? ==>
        repository.rows == old(repository.rows) && toastMessage == Some(DeleteErrorPrefix + storageError.value)
    {
      if storageError.Some? {
        toastMessage := Some(DeleteErrorPrefix + storageError.value);
        return;
      }
      repository.DeleteAllEntries();
      toastMessage := Some(DeletedMessage);
    }
  }
}
