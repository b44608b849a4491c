# Timetable manager: a Dafny model

This project models the client-side core of the college timetable manager, the
`TimetableManager` class in `TimeTableManagement/static/timetable.js`.

The manager keeps three pieces of state:

- the selected programme (`currentStream`);
- the selected semester (`currentSemester`);
- a two-level map `timetableData`. It maps a scope key (`stream` or `stream_semester`) to a scope. A scope maps a slot key (`day-timeSlot`) to a class entry.

The operations that change this state are modelled as methods of the class `Manager.TimetableManager` and proved against specification functions:

- choosing a stream or a semester;
- loading a semester from the server;
- saving a class (blank-field check, the AI/ML faculty allow-list, replace confirmation);
- opening the edit dialog, which creates the delete button;
- deleting a class with that button;
- clearing a scope;
- migrating legacy 24-hour time ranges;
- exporting the grid.

The pure computations are functions with proved properties:

- the key formats;
- the faculty check;
- the style class of a class item;
- the semester options;
- the header text;
- the export cells.

Modules:

- `Text`: the parts of the JavaScript string API that the code uses. These are `includes`, `replace` with a string pattern (with `IndexOf` as the search it performs for the first occurrence), `toLowerCase`, `trim`, and the rendering of numbers.
- `Timetable`: entries, scopes, the reference tables, key formats, writes and validation.
- `Migration`: `convertTimeFormat`, per slot, per scope and over the whole map.
- `View`: classification, semester options, header and export grid.
- `Manager`: the stateful class.

Dialog answers (`confirm`) and the server's answer are parameters of the methods. An `alert`, or an error the handler throws, becomes an outcome value.

The delete button is page state: `editClass` creates it, with a click handler bound to the slot key being edited, only when the page has no such button yet (lines 461-468), and nothing removes it. The class therefore has a field `deleteButtonKey` holding the key the handler was bound to. `DeleteClass` is a click on that button: it removes that key from the scope of the selection at the time of the click (line 470). No call of `editClass` appears in `timetable.js`. Neither does a call of `saveClass` or `openModal`, and the instance created at line 1250 is not stored anywhere, so every editing operation can only be reached from outside this file. The model treats them as entry points of the page. The constructor's empty button state assumes that the page starts without a `#deleteBtn` element.

The stream table is the one the constructor sets (lines 21-46). `loadStreamInfo` would replace it, but its only caller is `initializeSampleData` (line 597), which nothing calls.

`convertTimeFormat` runs only from the constructor (line 51), right after line 49 has emptied the map. Neither `loadFromStorage` (line 511) nor `loadTimetableFromDatabase` (line 1184) calls it, so data read later is never migrated, although the comment at line 1087 speaks of converting existing data. The model states what the migration does to any map.

## Model

| member | source | states |
|---|---|---|
| Text.IndexOf | TimeTableManagement/static/timetable.js:1100 | the search `replace` performs: the first index where the pattern occurs; none exactly when the string does not include the pattern |
| Text.Contains | TimeTableManagement/static/timetable.js:1099 | `includes` (also used at lines 415 and 425-427): the empty pattern is always included, and an included pattern is no longer than the string |
| Text.ReplaceFirst | TimeTableManagement/static/timetable.js:1100 | `replace` with a string pattern leaves a string without the pattern unchanged, and otherwise splices the replacement in at the first occurrence only |
| Text.Lower | TimeTableManagement/static/timetable.js:411-427 | the model's `toLowerCase` keeps the length and lowers each ASCII capital, leaving every other character alone |
| Text.LowerIsLower | TimeTableManagement/static/timetable.js:411-427 | a lowered string has no capitals, and lowering twice equals lowering once |
| Text.Trim | TimeTableManagement/static/timetable.js:339 | `trim` removes a whitespace prefix and a whitespace suffix and keeps the middle: the result is a slice of the input, surrounded by whitespace only, and neither starts nor ends with whitespace |
| Text.TrimEmptyIffAllWhitespace | TimeTableManagement/static/timetable.js:339 | `value.trim()` is falsy exactly when every character of the value is JavaScript whitespace |
| Text.NatToString | TimeTableManagement/static/timetable.js:270-273 | a semester number renders as a non-empty digit string without a leading zero |
| Text.NatToStringRoundTrip | TimeTableManagement/static/timetable.js:270-273 | reading the rendered digits back gives the number |
| Text.NatToStringInjective | TimeTableManagement/static/timetable.js:270-273 | different semester numbers give different option values |
| Timetable.ScopeKey | TimeTableManagement/static/timetable.js:354 | the scope key (also built at lines 382, 445, 470 and 496) is the stream id alone without a semester, and otherwise the stream id, `_` and the semester |
| Timetable.SlotKey | TimeTableManagement/static/timetable.js:357 | the slot key (also built at line 557) is the day, a dash and the time slot |
| Timetable.LookupScope | TimeTableManagement/static/timetable.js:383 | `timetableData[key] || {}` (also at line 526): a missing scope reads as the empty scope, and an existing scope is read as it is |
| Timetable.ScopeKeyInjective | TimeTableManagement/static/timetable.js:354 | for stream ids without digits and decimal semesters, equal scope keys come from equal selections, and the stream scope differs from every semester scope |
| Timetable.SlotKeyInjective | TimeTableManagement/static/timetable.js:357 | for day names without a dash, equal slot keys have equal day and time slot |
| Timetable.ReferenceKeysAreUnambiguous | TimeTableManagement/static/timetable.js:10-46 | the six days have no dash and the four stream ids have no digit, so both key lemmas apply |
| Timetable.Store | TimeTableManagement/static/timetable.js:365-370 | after storing, the scope exists and holds exactly the entry at `day-timeSlot`; its other slots and every other scope are unchanged |
| Timetable.Remove | TimeTableManagement/static/timetable.js:471 | deleting a slot keeps the scope keys, removes only that slot from the scope and leaves every other slot and scope as it was; deleting an absent slot changes nothing |
| Timetable.StoreKeepsWellKeyed | TimeTableManagement/static/timetable.js:365-370 | saving an entry keeps every entry under the slot key of its own day and time slot |
| Timetable.RemoveKeepsWellKeyed | TimeTableManagement/static/timetable.js:471 | deleting a slot from an existing scope keeps every entry under its own slot key |
| Timetable.ClearKeepsWellKeyed | TimeTableManagement/static/timetable.js:497 | replacing a scope with the empty scope (also at line 222) keeps every entry under its own slot key |
| Timetable.RemoveUndoesStore | TimeTableManagement/static/timetable.js:370-471 | deleting a class just saved into a free slot of an existing scope restores the data |
| Timetable.WritesKeepWellKeyed | TimeTableManagement/static/timetable.js:357-497 | saving, deleting and clearing keep every entry under the slot key built from its own day and time slot |
| Timetable.FieldValues | TimeTableManagement/static/timetable.js:339 | `Object.values(classData)` lists the six fields of the form object in its order: subject, faculty, class type, room, day, time slot |
| Timetable.EveryNonBlankIff | TimeTableManagement/static/timetable.js:339 | `every(value => value.trim())` fails exactly when some value is empty or only whitespace |
| Timetable.AllFieldsFilledIff | TimeTableManagement/static/timetable.js:339-342 | a save is refused for blank input exactly when one of the six fields is empty or only whitespace |
| Timetable.RestrictedScopes | TimeTableManagement/static/timetable.js:345 | for a stream id without digits and a semester from the selector, the allow-list applies exactly to the scopes `MSC_AI_ML_1` and `MSC_AI_ML_3`, that is to MSC_AI_ML with semester `1` or `3` |
| Timetable.FacultyAcceptedWhen | TimeTableManagement/static/timetable.js:345-351 | every other stream or semester skips the faculty check; in a restricted selection a name passes exactly when it is on the allow-list |
| Timetable.ValidateAiMlFaculty | TimeTableManagement/static/timetable.js:1145-1147 | accepts exactly the five allow-listed faculty names |
| Timetable.FacultyCheckIsExact | TimeTableManagement/static/timetable.js:345-351 | in a restricted semester an allow-listed name passes, and the same name with a trailing space is refused |
| Migration.DisplayIsTimeSlots | TimeTableManagement/static/timetable.js:1077-1085 | the seven 12-hour targets of the mapping are the grid's time slots, in order |
| Migration.MigrateSlot | TimeTableManagement/static/timetable.js:1094-1110 | the loop over the mapping computes the migrated key and the entry with its migrated time slot |
| Migration.ConvertKey | TimeTableManagement/static/timetable.js:1098-1101 | a key that contains no 24-hour range of the mapping is kept |
| Migration.ConvertKeyRewrites | TimeTableManagement/static/timetable.js:1098-1101 | when one 24-hour range occurs in a key and no other range of the mapping does, its first occurrence is replaced by its 12-hour form |
| Migration.SingleZeroDashSingleRange | TimeTableManagement/static/timetable.js:1098-1101 | in a key with at most one `0-` pair, a 24-hour range occurs at one place only and no other range occurs, so the rewrite above applies |
| Migration.ConvertKeyIdempotent | TimeTableManagement/static/timetable.js:1098-1101 | for keys with at most one `0-` pair (every legacy range has one), migrating a migrated key changes nothing |
| Migration.ConvertTimeSlot | TimeTableManagement/static/timetable.js:1102-1104 | a 24-hour time slot of the mapping becomes its 12-hour form, and any other time slot is kept |
| Migration.ConvertEntry | TimeTableManagement/static/timetable.js:1107-1110 | the copied entry differs from the old one in its time slot only; a time slot outside the mapping is kept and a mapped one becomes a grid time slot |
| Migration.ConvertEntryIdempotent | TimeTableManagement/static/timetable.js:1107-1110 | only the time slot of an entry changes, and migrating twice equals migrating once |
| Migration.ConvertSlotKey | TimeTableManagement/static/timetable.js:1098-1104 | for a day without digits and a legacy or 12-hour time slot, the migrated key is the slot key of the migrated time slot |
| Migration.LegacyAndDisplayKeysCollide | TimeTableManagement/static/timetable.js:1098-1107 | a legacy key and the 12-hour key for the same day and slot migrate to the same key |
| Migration.MigratePairs | TimeTableManagement/static/timetable.js:1090-1111 | the scope rebuilt from the visited slots has as keys exactly the migrated keys of those slots, and no more keys than slots |
| Migration.MigratePairsLastWins | TimeTableManagement/static/timetable.js:1107-1110 | when keys collide, the slot visited last supplies the entry |
| Migration.MigrationKeys | TimeTableManagement/static/timetable.js:1090-1113 | in any visiting order, the keys of a rebuilt scope are the image of the old keys, and the scope never grows |
| Migration.MigrationExact | TimeTableManagement/static/timetable.js:1090-1113 | without collisions, every slot reappears under its migrated key with its migrated entry |
| Migration.MigrationKeysFixed | TimeTableManagement/static/timetable.js:1090-1113 | a scope whose keys are all in the new format keeps its keys |
| Migration.MigrationOfMigrated | TimeTableManagement/static/timetable.js:1090-1113 | a scope whose keys and entries are all in the new format is rebuilt unchanged |
| Migration.MigrationIdempotent | TimeTableManagement/static/timetable.js:1090-1113 | rebuilding a rebuilt scope gives it back, when its keys have at most one `0-` pair |
| Migration.DataMigrationIdempotent | TimeTableManagement/static/timetable.js:1088-1114 | converting the whole map twice equals converting it once, under the same key condition |
| Migration.MigrateData | TimeTableManagement/static/timetable.js:1088-1114 | the loop over the scopes keeps the scope keys and replaces every scope with a rebuild of its old contents |
| Migration.MigrateScope | TimeTableManagement/static/timetable.js:1090-1113 | the rebuild visits every slot once and builds the fold of its migrated slots |
| View.FixedClassesAreLower | TimeTableManagement/static/timetable.js:415-427 | the fixed style classes `break` and `lab` have no capitals |
| View.ClassifyEntry | TimeTableManagement/static/timetable.js:407-433 | the style class is never empty and never has capitals |
| View.ClassifyEntrySpec | TimeTableManagement/static/timetable.js:411-433 | `break` when the subject mentions break; otherwise `lab` when class type, room or subject mentions lab; otherwise the lowered class type, `lecture` when empty |
| View.BreakTestIsMention | TimeTableManagement/static/timetable.js:414-415 | the special case `BREAK` together with the guarded `includes` is exactly a case-insensitive "break" mention |
| View.LabTestIsMention | TimeTableManagement/static/timetable.js:425-427 | the lab test with the `lecture` default and the empty-field guards is exactly a case-insensitive "lab" mention |
| View.ClassifyIgnoresCase | TimeTableManagement/static/timetable.js:411-427 | lowering subject, class type and room does not change the style class |
| View.SemesterCount | TimeTableManagement/static/timetable.js:264-270 | the loop bound is 0 exactly for a stream without reference data, 4 for MCA and MSC_AI_ML, and 10 for PGDCSA and INTEGRATED_CS |
| View.PopulateSemesterOptions | TimeTableManagement/static/timetable.js:262-277 | a placeholder with the empty value, then options 1 to `totalSemesters` with value `i` and caption `Semester i`; only the placeholder for an unknown stream |
| View.SemesterOptionValue | TimeTableManagement/static/timetable.js:270-273 | every option value is a non-empty decimal semester, and the AI/ML faculty rule applies to exactly options 1 and 3 |
| View.Title | TimeTableManagement/static/timetable.js:304-305 | a stream without reference data is titled by its raw id |
| View.TitleOfKnownStream | TimeTableManagement/static/timetable.js:304-305 | a known stream is titled by its programme name, which is non-empty and differs from the id |
| View.HeaderText | TimeTableManagement/static/timetable.js:302-313 | the header starts with the programme title (or the raw id) and continues with ` - Semester s` exactly when a semester is given |
| View.CellAt | TimeTableManagement/static/timetable.js:557-572 | a cell is filled exactly when the scope has the slot key, and then shows that entry's subject, faculty and room |
| View.BuildGrid | TimeTableManagement/static/timetable.js:554-575 | one row per time slot and one column per day, in declared order, each cell as `CellAt` |
| View.StoredClassShowsInItsScope | TimeTableManagement/static/timetable.js:370 | a class saved at a grid day and slot shows in the grid built from its scope |
| View.StoredClassMissingFromStreamScope | TimeTableManagement/static/timetable.js:526 | a class saved under a semester scope does not show in the grid built from the stream-level scope |
| Manager.SaveDecision | TimeTableManagement/static/timetable.js:339-362 | the exact condition of each save outcome: blank field, then faculty refusal, then declined replacement, otherwise saved |
| Manager.StoreInitialisesScope | TimeTableManagement/static/timetable.js:365-370 | creating the scope when absent and then setting the slot is `Store` |
| Manager.TimetableManager.constructor | TimeTableManagement/static/timetable.js:2-53 | starts with no stream, no semester, an empty map and no delete button |
| Manager.TimetableManager.CurrentScopeKey | TimeTableManagement/static/timetable.js:354 | the key of the current selection starts with the stream id, and equals it exactly when no semester is selected |
| Manager.TimetableManager.SelectStream | TimeTableManagement/static/timetable.js:203-224 | the empty id clears only the stream; any other id selects it, clears the semester and creates an empty scope only when none exists |
| Manager.TimetableManager.LoadTimetableFromDatabase | TimeTableManagement/static/timetable.js:1159-1205 | skipped without stream and semester; a failure leaves the data; a success replaces exactly the `stream_semester` scope |
| Manager.TimetableManager.SelectSemester | TimeTableManagement/static/timetable.js:226-252 | the empty value clears only the semester; any other value selects it and loads its scope |
| Manager.TimetableManager.SaveClass | TimeTableManagement/static/timetable.js:328-376 | the outcome is `SaveDecision`; a saved entry is `Store`d in the current scope; a refused save changes nothing; the well-keyed invariant is kept |
| Manager.TimetableManager.EditClassAsWritten | TimeTableManagement/static/timetable.js:444-483 | nothing changes when the scope is missing (the lookup throws) or the slot is empty; otherwise the dialog shows the stored entry, and the delete button is bound to `key` only when there was no button, keeping its first key otherwise |
| Manager.TimetableManager.EditClass | TimeTableManagement/static/timetable.js:444-483 | as above, but the delete button is always bound to the slot being edited |
| Manager.TimetableManager.DeleteClass | TimeTableManagement/static/timetable.js:461-471 | without a button nothing happens; a declined dialog or a missing scope changes nothing; otherwise exactly the button's slot goes from the scope of the current selection, and the well-keyed invariant is kept |
| Manager.TimetableManager.ClearAll | TimeTableManagement/static/timetable.js:485-502 | refused without a stream; once confirmed, the current scope is empty and every other scope is untouched |
| Manager.TimetableManager.ConvertTimeFormat | TimeTableManagement/static/timetable.js:1075-1115 | same scope keys, every scope is a rebuild of its old contents, and the selection and button are unchanged |
| Manager.TimetableManager.ExportTimetableAsWritten | TimeTableManagement/static/timetable.js:520-575 | nothing without a known stream; otherwise the programme title and the grid of the stream-level scope |
| Manager.TimetableManager.ExportTimetable | TimeTableManagement/static/timetable.js:520-575 | as above, with the grid of the current selection's scope |
| Manager.ButtonAfterEditAsWritten | TimeTableManagement/static/timetable.js:461-468 | after an edit of `key` there is always a button, and it acts on `key` exactly when there was none or it already acted on `key` |
| Manager.EditTwiceKeepsFirstButton | TimeTableManagement/static/timetable.js:461-471 | editing one slot and then another leaves the delete button acting on the first slot |

## Left out

- DOM work is not modelled: building and filling the grid, modals, notifications, the loading state, datalists and event binding. The pure computations behind it are in `View`.
- `localStorage` and the session (`initSession`, `saveSession`, `clearSession`, `saveToStorage`, `loadFromStorage`) and JSON parsing are not modelled. They are storage I/O.
- Network and async behaviour are reduced to an `Option` parameter: `fetch`, the 5-second abort timer and the HTTP status check. Timing and interleaving are not modelled.
- `loadStreamInfo` is not modelled: its only caller, `initializeSampleData` (line 597), is never called, so the stream table stays the constructor's.
- The HTML text of the export, its `Blob` download and the `Date` footer are not modelled. The export yields the title and the cell matrix.
- `initializeSampleData` and `clearOldData` are not modelled. They are fixed seed data and plain deletes.
- The Django views, models, URL routing, the accounts app and `complete_sem3.py` are not part of this model. They are server and database code.
- The texts of alerts, confirmations and notifications are not modelled. This includes the faculty list joined into the alert and the two wordings of the clear prompt. Their outcomes are modelled as values.
- Text.Lower: lower-cases ASCII letters only and always keeps the length. JavaScript's `toLowerCase` also folds non-ASCII capitals and can change the length: U+0130 lowers to two code units, and the Kelvin sign U+212A lowers to ASCII `k`, so a subject `BREAK` spelt with a Kelvin sign counts as a break in JavaScript but not in the model.
- Text.ReplaceFirst: takes the replacement literally, so `$` patterns are not interpreted. The mapping's replacements contain none.
- Migration.MigrateScope: the visiting order of `Object.keys` is left open. Every property is stated for any order.
- Migration.ConvertKeyIdempotent: idempotence is proved for keys with at most one `0-` pair. Outside that condition it can fail even for a key holding a single range of the mapping: `Monday-09:00-113:00-14:00` (with `13:00-14:00` only, but two `0-` pairs) migrates to `Monday-09:00-11:00 PM - 2:00 PM`, which contains `09:00-11:00` and is rewritten again by a second pass.
- Migration.MigrateData: the loop over the scopes is modelled on values. Each rebuilt scope goes into a local copy of the map, which the method then assigns to `timetableData` once, instead of each scope being written into the object in place.
- Manager.TimetableManager.SelectStream: follows the code. The empty choice does not reset the semester: the call to `hideSemesterSelect()` at line 208, which would clear `currentSemester` (line 285), comes after the `return` at line 207 and is never reached.
- View.Title: the contract only states the title of an unknown stream; the title of a known stream is stated by `View.TitleOfKnownStream`.
- The rendering of the edit form (the field values, the modal title) is not modelled. `EditClass` returns the entry that the form is filled with.
- Values that JavaScript allows but the model rules out: `null` entries and non-string fields. Every stored entry is an object, which is always truthy.

## Findings

| source | as written | input that shows it | evidently intended | confidence | as-written member | corrected member |
|---|---|---|---|---|---|---|
| TimeTableManagement/static/timetable.js:526 | the export reads `timetableData[currentStream]`, the stream-level scope, whatever semester is selected | select `MCA`, then semester `1`, save a class on Monday 9:00 AM - 11:00 AM, then export: that cell shows `-` | export the scope of the current selection (`stream_semester`), the one the page renders and edits | medium, not executed | View.StoredClassMissingFromStreamScope | Manager.TimetableManager.ExportTimetable |
| TimeTableManagement/static/timetable.js:461-471 | the delete button's click handler is attached once, when the button is first created, and keeps the key of the first slot edited | open the edit dialog for slot `k1`, then for another slot `k2` of the same scope, and confirm Delete: `k1` is removed and `k2` stays | delete the slot whose edit dialog is open | medium, not executed | Manager.EditTwiceKeepsFirstButton | Manager.TimetableManager.EditClass |
