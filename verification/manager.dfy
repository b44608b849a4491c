/**
 * The timetable manager object: the current selection (stream and
 * semester) and the two-level timetable map, with the operations that
 * change them in place. Dialog answers (`confirm`) and the outcome of the
 * server request are parameters; an `alert` or a thrown error becomes an
 * outcome value.
 */
module Manager {
  import opened Text
  import opened Timetable
  import opened View
  import opened Migration

  /** How a save attempt ends. */
  datatype SaveOutcome =
    | Saved
    | MissingField        // "Please fill in all fields!"
    | FacultyNotAllowed   // the AI/ML faculty alert
    | ReplaceDeclined     // the replace dialog was answered No

  /** How opening the edit dialog for a slot ends. */
  datatype EditOutcome =
    | Editing(entry: ClassEntry)  // the form is filled with this entry
    | EditScopeMissing            // the current scope does not exist: the handler throws
    | NoSuchClass                 // the scope has no entry at the key

  /** How a click on the delete button ends. */
  datatype DeleteOutcome =
    | Deleted
    | NoDeleteButton      // no edit dialog has been opened yet, so there is no button
    | DeleteDeclined      // the delete dialog was answered No
    | ScopeMissing        // the current scope does not exist: the handler throws

  /** How a click on "clear all" ends. */
  datatype ClearOutcome =
    | Cleared
    | NoStreamSelected    // "Please select a stream first!"
    | ClearDeclined

  /** The value of a load: skipped (no selection), loaded, or failed. */
  datatype LoadResult = Skipped | Loaded | Failed

  /** What the export writes: the programme title and the table cells. */
  datatype Export = Export(title: string, grid: seq<seq<Cell>>)

  /**
   * Which way a save of `e` goes under the selection `stream`/`semester`
   * and the data `data`: the checks run in the order blank fields,
   * faculty allow-list, occupied slot.
   */
  function SaveDecision(data: Data, stream: string, semester: string, e: ClassEntry, confirmReplace: bool)
    : (outcome: SaveOutcome)
    ensures outcome == MissingField <==> !AllFieldsFilled(e)
    ensures outcome == FacultyNotAllowed <==> AllFieldsFilled(e) && !FacultyAccepted(stream, semester, e.facultyName)
    ensures outcome == ReplaceDeclined <==>
      && AllFieldsFilled(e) && FacultyAccepted(stream, semester, e.facultyName)
      && SlotKey(e.day, e.timeSlot) in LookupScope(data, ScopeKey(stream, semester))
      && !confirmReplace
    ensures outcome == Saved <==>
      && AllFieldsFilled(e) && FacultyAccepted(stream, semester, e.facultyName)
      && (SlotKey(e.day, e.timeSlot) in LookupScope(data, ScopeKey(stream, semester)) ==> confirmReplace)
  {
    if !AllFieldsFilled(e) then MissingField
    else if !FacultyAccepted(stream, semester, e.facultyName) then FacultyNotAllowed
    else if SlotKey(e.day, e.timeSlot) in LookupScope(data, ScopeKey(stream, semester)) && !confirmReplace then
      ReplaceDeclined
    else Saved
  }

  /** `Store` is the two steps of the save: create the scope when absent, then set the slot. */
  lemma StoreInitialisesScope(data: Data, scopeKey: string, e: ClassEntry)
    ensures var init := if scopeKey !in data then data[scopeKey := map[]] else data;
      Store(data, scopeKey, e) == init[scopeKey := init[scopeKey][e.day + "-" + e.timeSlot := e]]
  {
  }

  class TimetableManager {
    var currentStream: string
    var currentSemester: string
    var timetableData: Data
    /**
     * The slot key the delete button's click handler removes, or None
     * while the page has no delete button.
     */
    var deleteButtonKey: Option<string>

    /**
     * After construction nothing is selected and the data map is empty:
     * the constructor ends by clearing the session, and converting an
     * empty map changes nothing.
     */
    constructor()
      ensures currentStream == "" && currentSemester == "" && timetableData == map[]
      ensures deleteButtonKey == None
    {
      currentStream := "";
      currentSemester := "";
      timetableData := map[];
      deleteButtonKey := None;
    }

    /** The scope the current selection reads and writes. */
    function CurrentScopeKey(): (key: string)
      reads this
      ensures |key| >= |currentStream| && key[..|currentStream|] == currentStream
      ensures currentSemester == "" <==> key == currentStream
    {
      ScopeKey(currentStream, currentSemester)
    }

    // -------------------------------------------------------------------
    // Selection
    // -------------------------------------------------------------------

    /**
     * Choosing a programme. The empty choice clears only the stream (the
     * code that would also reset the semester follows a `return`). Any
     * other choice selects the stream, clears the semester and creates an
     * empty scope for the stream unless it already has one.
     */
    method SelectStream(stream: string)
      modifies this
      ensures stream == "" ==> currentStream == "" && currentSemester == old(currentSemester)
                               && timetableData == old(timetableData)
      ensures stream != "" ==> currentStream == stream && currentSemester == ""
      ensures deleteButtonKey == old(deleteButtonKey)
      ensures stream != "" && stream in old(timetableData) ==> timetableData == old(timetableData)
      ensures stream != "" && stream !in old(timetableData) ==>
        timetableData == old(timetableData)[stream := map[]]
      ensures old(WellKeyed(timetableData)) ==> WellKeyed(timetableData)
    {
      if stream == "" {
        currentStream := "";
        return;
      }
      currentStream := stream;
      currentSemester := "";
      if stream !in timetableData {
        timetableData := timetableData[stream := map[]];
        if old(WellKeyed(timetableData)) {
          ClearKeepsWellKeyed(old(timetableData), stream);
        }
      }
    }

    /**
     * Fetching the timetable of the selected semester. `fetched` is the
     * server's answer: the scope it sent, or None for an HTTP error, a
     * timeout or any other failure. Only a successful answer replaces the
     * `stream_semester` scope; without both a stream and a semester
     * nothing happens.
     */
    method LoadTimetableFromDatabase(fetched: Option<Scope>) returns (result: LoadResult)
      modifies this
      ensures currentStream == old(currentStream) && currentSemester == old(currentSemester)
      ensures deleteButtonKey == old(deleteButtonKey)
      ensures currentStream == "" || currentSemester == "" ==>
        result == Skipped && timetableData == old(timetableData)
      ensures currentStream != "" && currentSemester != "" && fetched.None? ==>
        result == Failed && timetableData == old(timetableData)
      ensures currentStream != "" && currentSemester != "" && fetched.Some? ==>
        result == Loaded && timetableData == old(timetableData)[CurrentScopeKey() := fetched.value]
    {
      if currentStream == "" || currentSemester == "" {
        return Skipped;
      }
      var streamKey := currentStream + "_" + currentSemester;
      match fetched {
        case None =>
          result := Failed;
        case Some(data) =>
          timetableData := timetableData[streamKey := data];
          result := Loaded;
      }
    }

    /**
     * Choosing a semester. The empty choice clears only the semester;
     * any other choice selects it and then loads its timetable.
     */
    method SelectSemester(semester: string, fetched: Option<Scope>) returns (result: LoadResult)
      modifies this
      ensures currentStream == old(currentStream) && currentSemester == semester
      ensures deleteButtonKey == old(deleteButtonKey)
      ensures semester == "" || currentStream == "" ==>
        result == Skipped && timetableData == old(timetableData)
      ensures semester != "" && currentStream != "" && fetched.None? ==>
        result == Failed && timetableData == old(timetableData)
      ensures semester != "" && currentStream != "" && fetched.Some? ==>
        result == Loaded && timetableData == old(timetableData)[currentStream + "_" + semester := fetched.value]
    {
      if semester == "" {
        currentSemester := "";
        return Skipped;
      }
      currentSemester := semester;
      result := LoadTimetableFromDatabase(fetched);
    }

    // -------------------------------------------------------------------
    // Editing
    // -------------------------------------------------------------------

    /**
     * Saving the class form. A blank field is refused first; then, in the
     * restricted AI/ML semesters, a faculty name off the allow-list; then
     * an occupied slot needs `confirmReplace`. Otherwise the entry is
     * stored under the current scope at `day-timeSlot`, creating the
     * scope when it is absent. A refused save changes nothing. The checks
     * are `SaveDecision`.
     */
    method SaveClass(e: ClassEntry, confirmReplace: bool) returns (outcome: SaveOutcome)
      modifies this
      ensures currentStream == old(currentStream) && currentSemester == old(currentSemester)
      ensures deleteButtonKey == old(deleteButtonKey)
      ensures outcome == SaveDecision(old(timetableData), currentStream, currentSemester, e, confirmReplace)
      ensures outcome == Saved ==> timetableData == Store(old(timetableData), CurrentScopeKey(), e)
      ensures outcome != Saved ==> timetableData == old(timetableData)
      ensures old(WellKeyed(timetableData)) ==> WellKeyed(timetableData)
    {
      outcome := SaveDecision(timetableData, currentStream, currentSemester, e, confirmReplace);
      if outcome != Saved {
        return;
      }
      var dataKey := if currentSemester != "" then currentStream + "_" + currentSemester else currentStream;
      var key := e.day + "-" + e.timeSlot;
      StoreInitialisesScope(timetableData, dataKey, e);
      if dataKey !in timetableData {
        timetableData := timetableData[dataKey := map[]];
      }
      timetableData := timetableData[dataKey := timetableData[dataKey][key := e]];
      assert dataKey == CurrentScopeKey();
      assert timetableData == Store(old(timetableData), dataKey, e);
      if old(WellKeyed(timetableData)) {
        StoreKeepsWellKeyed(old(timetableData), dataKey, e);
      }
    }

    /**
     * Opening the edit dialog for slot `key` of the current scope, as the
     * code has it. The form is filled with the stored entry, and the
     * delete button is created with a handler for `key` only when the page
     * has none yet: a later edit keeps the button, and with it the key of
     * the first slot edited. An absent scope makes the lookup throw; an
     * absent slot ends the handler. Neither the selection nor the data
     * change.
     */
    method EditClassAsWritten(key: string) returns (outcome: EditOutcome)
      modifies this
      ensures currentStream == old(currentStream) && currentSemester == old(currentSemester)
      ensures timetableData == old(timetableData)
      ensures CurrentScopeKey() !in timetableData ==>
        outcome == EditScopeMissing && deleteButtonKey == old(deleteButtonKey)
      ensures CurrentScopeKey() in timetableData && key !in timetableData[CurrentScopeKey()] ==>
        outcome == NoSuchClass && deleteButtonKey == old(deleteButtonKey)
      ensures CurrentScopeKey() in timetableData && key in timetableData[CurrentScopeKey()] ==>
        && outcome == Editing(timetableData[CurrentScopeKey()][key])
        && deleteButtonKey == ButtonAfterEditAsWritten(old(deleteButtonKey), key)
    {
      var dataKey := if currentSemester != "" then currentStream + "_" + currentSemester else currentStream;
      if dataKey !in timetableData {
        return EditScopeMissing;
      }
      if key !in timetableData[dataKey] {
        return NoSuchClass;
      }
      outcome := Editing(timetableData[dataKey][key]);
      if deleteButtonKey.None? {
        deleteButtonKey := Some(key);
      }
    }

    /**
     * Opening the edit dialog as intended: the delete button always acts
     * on the slot being edited.
     */
    method EditClass(key: string) returns (outcome: EditOutcome)
      modifies this
      ensures currentStream == old(currentStream) && currentSemester == old(currentSemester)
      ensures timetableData == old(timetableData)
      ensures CurrentScopeKey() !in timetableData ==>
        outcome == EditScopeMissing && deleteButtonKey == old(deleteButtonKey)
      ensures CurrentScopeKey() in timetableData && key !in timetableData[CurrentScopeKey()] ==>
        outcome == NoSuchClass && deleteButtonKey == old(deleteButtonKey)
      ensures CurrentScopeKey() in timetableData && key in timetableData[CurrentScopeKey()] ==>
        outcome == Editing(timetableData[CurrentScopeKey()][key]) && deleteButtonKey == Some(key)
    {
      var dataKey := if currentSemester != "" then currentStream + "_" + currentSemester else currentStream;
      if dataKey !in timetableData {
        return EditScopeMissing;
      }
      if key !in timetableData[dataKey] {
        return NoSuchClass;
      }
      outcome := Editing(timetableData[dataKey][key]);
      deleteButtonKey := Some(key);
    }

    /**
     * A click on the delete button. Its handler removes the slot key it
     * was created with from the scope of the selection at the time of the
     * click, once the dialog is confirmed, and nothing else changes; when
     * that scope does not exist the handler throws before changing
     * anything.
     */
    method DeleteClass(confirmed: bool) returns (outcome: DeleteOutcome)
      modifies this
      ensures currentStream == old(currentStream) && currentSemester == old(currentSemester)
      ensures deleteButtonKey == old(deleteButtonKey)
      ensures deleteButtonKey.None? ==> outcome == NoDeleteButton && timetableData == old(timetableData)
      ensures deleteButtonKey.Some? && !confirmed ==> outcome == DeleteDeclined && timetableData == old(timetableData)
      ensures deleteButtonKey.Some? && confirmed && CurrentScopeKey() !in old(timetableData) ==>
        outcome == ScopeMissing && timetableData == old(timetableData)
      ensures deleteButtonKey.Some? && confirmed && CurrentScopeKey() in old(timetableData) ==>
        outcome == Deleted && timetableData == Remove(old(timetableData), CurrentScopeKey(), deleteButtonKey.value)
      ensures old(WellKeyed(timetableData)) ==> WellKeyed(timetableData)
    {
      if deleteButtonKey.None? {
        return NoDeleteButton;
      }
      var key := deleteButtonKey.value;
      if !confirmed {
        return DeleteDeclined;
      }
      var dataKey := if currentSemester != "" then currentStream + "_" + currentSemester else currentStream;
      if dataKey !in timetableData {
        return ScopeMissing;
      }
      timetableData := timetableData[dataKey := timetableData[dataKey] - {key}];
      if old(WellKeyed(timetableData)) {
        RemoveKeepsWellKeyed(old(timetableData), dataKey, key);
      }
      outcome := Deleted;
    }

    /**
     * Clearing the current scope. Without a stream the request is refused;
     * once confirmed, the current scope becomes empty (it is created empty
     * when absent) and every other scope is untouched.
     */
    method ClearAll(confirmed: bool) returns (outcome: ClearOutcome)
      modifies this
      ensures currentStream == old(currentStream) && currentSemester == old(currentSemester)
      ensures deleteButtonKey == old(deleteButtonKey)
      ensures currentStream == "" ==> outcome == NoStreamSelected && timetableData == old(timetableData)
      ensures currentStream != "" && !confirmed ==> outcome == ClearDeclined && timetableData == old(timetableData)
      ensures currentStream != "" && confirmed ==> outcome == Cleared
      ensures outcome == Cleared ==>
        && timetableData.Keys == old(timetableData).Keys + {CurrentScopeKey()}
        && timetableData[CurrentScopeKey()] == map[]
        && forall sk :: sk in old(timetableData) && sk != CurrentScopeKey() ==>
             timetableData[sk] == old(timetableData)[sk]
      ensures old(WellKeyed(timetableData)) ==> WellKeyed(timetableData)
    {
      if currentStream == "" {
        return NoStreamSelected;
      }
      if !confirmed {
        return ClearDeclined;
      }
      var dataKey := if currentSemester != "" then currentStream + "_" + currentSemester else currentStream;
      timetableData := timetableData[dataKey := map[]];
      if old(WellKeyed(timetableData)) {
        ClearKeepsWellKeyed(old(timetableData), dataKey);
      }
      outcome := Cleared;
    }

    // -------------------------------------------------------------------
    // Migration of 24-hour time ranges
    // -------------------------------------------------------------------

    /**
     * Rewrites every scope: each slot is carried over, in some order, under
     * its migrated key with its migrated time slot. The set of scopes stays
     * the same; see `Migration` for what a rebuilt scope satisfies, and
     * `MigrateData` for the loop over the scopes.
     */
    method ConvertTimeFormat()
      modifies this
      ensures currentStream == old(currentStream) && currentSemester == old(currentSemester)
      ensures deleteButtonKey == old(deleteButtonKey)
      ensures DataMigrationOf(timetableData, old(timetableData))
    {
      timetableData := MigrateData(timetableData);
    }

    // -------------------------------------------------------------------
    // Export
    // -------------------------------------------------------------------

    /**
     * The export as the code has it: it reads the stream-level scope
     * `timetableData[currentStream]`, whatever semester is selected.
     * Nothing is exported without a stream; a stream without reference
     * data makes the title lookup throw, so nothing is exported either.
     */
    method ExportTimetableAsWritten() returns (exported: Option<Export>)
      ensures currentStream == "" || currentStream !in Streams ==> exported.None?
      ensures currentStream != "" && currentStream in Streams ==>
        && exported.Some?
        && exported.value.title == Streams[currentStream].name
        && IsGridOf(exported.value.grid, LookupScope(timetableData, currentStream))
    {
      if currentStream == "" {
        return None;
      }
      if currentStream !in Streams {
        return None;
      }
      var streamData := LookupScope(timetableData, currentStream);
      var grid := BuildGrid(streamData);
      exported := Some(Export(Streams[currentStream].name, grid));
    }

    /**
     * The export as intended: the same table built from the scope of the
     * current selection, the one the page shows and the edits write.
     */
    method ExportTimetable() returns (exported: Option<Export>)
      ensures currentStream == "" || currentStream !in Streams ==> exported.None?
      ensures currentStream != "" && currentStream in Streams ==>
        && exported.Some?
        && exported.value.title == Streams[currentStream].name
        && IsGridOf(exported.value.grid, LookupScope(timetableData, CurrentScopeKey()))
    {
      if currentStream == "" {
        return None;
      }
      if currentStream !in Streams {
        return None;
      }
      var dataKey := if currentSemester != "" then currentStream + "_" + currentSemester else currentStream;
      var grid := BuildGrid(LookupScope(timetableData, dataKey));
      exported := Some(Export(Streams[currentStream].name, grid));
    }
  }

  /**
   * The key the delete button acts on once an edit dialog for `key` has
   * opened, as the code has it: the button, with its handler for `key`, is
   * created only when the page has none, so an existing button keeps its
   * key.
   */
  function ButtonAfterEditAsWritten(button: Option<string>, key: string): (after: Option<string>)
    ensures after.Some?
    ensures after == Some(key) <==> button.None? || button == Some(key)
  {
    if button.None? then Some(key) else button
  }

  /**
   * Editing slot `k1` and then slot `k2` leaves the delete button acting
   * on `k1`: a confirmed delete then removes `k1`, not the slot on screen.
   */
  lemma EditTwiceKeepsFirstButton(k1: string, k2: string)
    requires k1 != k2
    ensures ButtonAfterEditAsWritten(ButtonAfterEditAsWritten(None, k1), k2) == Some(k1)
  {
  }
}
