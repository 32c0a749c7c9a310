# Attendance roster — a Dafny model

This project models the in-memory core of a single-page attendance web app.
The app keeps classes, the students of each class and an attendance history.
The history maps a date key to the status (Present or Absent) of each student
on that date. On top of that core the model covers:

- the handlers of `App.tsx` that change the roster and the history;
- the derived views: students of the selected class, search results,
  current records and "attendance complete";
- the bulk-import dialog: the file check, header detection, row cleaning,
  duplicate flagging and the filter that decides which rows are committed;
- the validators of the student and class dialogs;
- the attendance summary counts, the per-student history list and the
  student table.

Modules, leaf first:

- `Types` holds the entities.
- `Text` gives JavaScript's `trim`, `toLowerCase` and `includes` a meaning.
- `Seqs` holds an order-preserving `Filter`.
- `Attendance` holds the history updates as pure functions, each specified
  by its effect on every (date, id) entry.
- `App` holds the derived views, the loops of the handlers, and the class
  `AppState`. Each `AppState` method replaces its fields and is proved equal
  to a function of its inputs and the old state. The history
  invariant `Valid()` (no stored Unmarked entry) is kept by every method
  except `HandleStatusChange`, which keeps it whenever the status is
  Present or Absent. Those are the only values the row's radio buttons pass
  (components/StudentRow.tsx:65 and 107-120); a call with Unmarked would
  store an Unmarked entry, after which `Valid()` no longer holds.
- `BulkImport`, `StudentForm`, `ClassForm`, `Summary`, `HistoryView` and
  `StudentListView` each model one component.

Two rules are worth stating because the code decides them:

- Roll-number uniqueness is checked against every student of the roster,
  not only the students of one class, because App.tsx:666 passes all
  `students` to the dialog.
- The import commits exactly the rows whose spelling is not in the
  duplicate list. Two rows spelled identically are therefore both dropped,
  and the announced skipped count is the number of distinct duplicate
  spellings. Both are recorded under "## Findings". The rule one would
  expect keeps a roll number's first occurrence in the file and skips later
  occurrences and clashes with existing students; that variant is modelled
  and proved beside them.

How JavaScript behaviour is encoded:

- `!selectedClassId` and `if (data.id)` are JavaScript truthiness
  (`Types.Truthy`), so an id of 0 counts as "none".
- Fresh ids from `Date.now()` are parameters (`freshId`).
- Confirmation dialogs are taken as confirmed: each handler is the
  confirmed action.

## Model

| member | source | states |
|---|---|---|
| Text.Trim | components/BulkImportModal.tsx:86-87 | the result has no white space at either end, is empty exactly when the input is all white space, and is no longer than the input |
| Text.TrimIsMiddle | components/BulkImportModal.tsx:86-87 | the trim of `s` is the middle part `s[i..j]`, where `i` is the length of the leading white space, and only white space lies before `i` and after `j` |
| Text.Lower | components/BulkImportModal.tsx:106 | same length as the input; each ASCII capital becomes its lower-case letter, every other character is kept, and no ASCII capital remains |
| Text.TrimIdempotent | components/BulkImportModal.tsx:86-87 | trimming twice is the same as trimming once |
| Text.TrimmedIsFixed | components/StudentModal.tsx:40 | a roll number with no white space at either end is left as it is by the trim |
| Seqs.Filter | App.tsx:390 | a value is in the result exactly when it is in the input and satisfies the predicate, and the result is no longer than the input (how many copies survive is `Seqs.FilterMultiset`) |
| Seqs.FilterIsSubList | App.tsx:390 | `filter` keeps the relative order of the elements |
| Seqs.FilterMultiset | App.tsx:390 | `filter` keeps every copy of an element satisfying the predicate and drops every copy of the others: each element occurs as often as in the input, or not at all |
| Attendance.SetStatus | App.tsx:119-128 | upsert of `history[date][id]`: the date becomes a key, that entry is `status`, every other (date, id) entry is unchanged |
| Attendance.SetStatusIdempotent | App.tsx:119-128 | setting the same status twice equals setting it once |
| Attendance.SetStatusKeepsNoUnmarked | App.tsx:119-128 | setting Present or Absent keeps the history free of stored Unmarked entries |
| Attendance.MarkAll | App.tsx:149-158 | every given id gets the status on the date, and every other entry on every date is kept |
| Attendance.MarkAllKeepsNoUnmarked | App.tsx:149-158 | marking with Present or Absent keeps the history free of stored Unmarked entries |
| Attendance.Clear | App.tsx:208-221 | the given ids have no entry on the date afterwards; every other entry is kept; the date stays a key exactly when entries remain; other dates keep their keys |
| Attendance.ClearKeepsNoUnmarked | App.tsx:208-221 | clearing keeps the history free of stored Unmarked entries |
| Attendance.Purge | App.tsx:262-270 | every entry of the given ids is gone from every date; all other entries and every date key, emptied or not, are kept |
| Attendance.PurgeKeepsNoUnmarked | App.tsx:262-270 | purging keeps the history free of stored Unmarked entries |
| App.StudentsInClass | App.tsx:388-391 | empty when no class is selected (0 counts as none); otherwise an order-preserving sub-list of the roster holding exactly the students of the selected class |
| App.FilteredStudents | App.tsx:393-400 | the class itself for an empty query; otherwise an order-preserving sub-list holding exactly the students whose lowercased name or roll number contains the lowercased query |
| App.CurrentRecords | App.tsx:402-409 | one key per student of the class, each holding the stored status of the date or Unmarked |
| App.IsAttendanceComplete | App.tsx:411-416 | `isAttendanceComplete`: the class is not empty and every student of it has a Present or Absent record |
| App.CompleteIffNoneUnmarked | App.tsx:411-416 | attendance is complete exactly when the class is not empty and no student of it reads as Unmarked on the date |
| App.FallbackSelection | App.tsx:95-99 | none exactly when there are no classes, otherwise an existing class id: the selection when it is truthy and exists, otherwise the first class |
| App.MaxId | App.tsx:283 | `Math.max` of a non-empty list is an element of the list and at least every element |
| App.NextIdBase | App.tsx:282-283 | for a non-empty roster an existing id that is at least every id (the maximum); 0 for an empty roster |
| App.ImportedStudents | App.tsx:285-290 | row `i` becomes a student with id `base + i + 1`, the row's name and roll number, and the given class, in input order |
| App.ImportedIdsFresh | App.tsx:282-292 | imported ids are above every existing id and strictly increase along the rows, so an import keeps roster ids distinct |
| App.EditStudent | App.tsx:239 | students with the id get the new name and roll number; everyone else, all ids, classes and the order are unchanged |
| App.EditClass | App.tsx:349 | classes with the id get the new name; ids, order and the other names are unchanged |
| App.RemoveFromEveryDate | App.tsx:264-268 | the nested date/id deletion loop yields exactly `Purge` of the history by the ids |
| App.RemoveIds | App.tsx:265-267 | the deletions on one date leave exactly that date's records without the deleted ids |
| App.MarkDate | App.tsx:149-157 | the bucket-creating mark-all loop yields exactly `MarkAll` for the ids of the class |
| App.NoneMarkedIffAllUnmarked | App.tsx:191-200 | the marked count is zero exactly when every student of the class reads as Unmarked on the date |
| App.ClearDate | App.tsx:208-220 | the delete loop with clean-up of the empty bucket yields exactly `Clear` for the ids of the class |
| App.ClearClass | App.tsx:189-200 | the marked-count guard: the history is touched only when the class is not empty and someone in it is marked, and then exactly as `Clear` |
| App.ClearedHistoryKeepsNoUnmarked | App.tsx:188-225 | a confirmed clear never stores an Unmarked entry |
| App.AppState.constructor | App.tsx:34-45 | a first start has the default class and students, an empty history and class 1 selected |
| App.AppState.HandleStatusChange | App.tsx:119-128 | the new history is `SetStatus` of the old one on the selected date |
| App.AppState.HandleMarkAll | App.tsx:140-186 | no change for an empty class; otherwise the new history is `MarkAll` of the class on the selected date; the invariant is kept |
| App.AppState.HandleClearStatus | App.tsx:188-225 | no change for an empty class or when nobody is marked; otherwise the new history is `Clear` of the class on the selected date |
| App.AppState.HandleSaveStudent | App.tsx:233-251 | refused without a truthy selected class; a truthy id edits, otherwise a student with the fresh id is appended to the selected class |
| App.AppState.HandleDeleteStudent | App.tsx:253-274 | the roster loses exactly the students with the id and the history is purged of it |
| App.AppState.HandleBulkImport | App.tsx:276-294 | refused without a truthy selected class; otherwise the imported students are appended after the roster |
| App.AppState.HandleSelectStudent | App.tsx:297-303 | checking appends the id; unchecking removes every copy of it and keeps the order |
| App.AppState.HandleSelectAll | App.tsx:305-307 | the selection becomes the ids of the displayed list, or empty |
| App.AppState.HandleBulkDelete | App.tsx:309-336 | no change for an empty selection; otherwise the selected students leave the roster and every date, and the selection is cleared |
| App.AppState.HandleSelectClass | App.tsx:339 | the selection becomes the given id |
| App.AppState.SyncSelection | App.tsx:93-100 | the selection becomes `FallbackSelection` of the class list |
| App.AppState.HandleSaveClass | App.tsx:347-357 | a truthy id renames, otherwise the class is appended and selected; afterwards the selection is none exactly when no class exists, and otherwise names one |
| App.AppState.HandleDeleteClass | App.tsx:359-385 | the class and exactly its students go, their ids are purged from every date, and the selection is none exactly when no class is left, otherwise a remaining class |
| BulkImport.CheckFile | components/BulkImportModal.tsx:31-42 | a file is accepted exactly when its MIME type is one of the three or its name ends in .xlsx, .xls or .csv in any case; the refusal carries the source's message |
| BulkImport.StartRow | components/BulkImportModal.tsx:68-80 | the first row is skipped exactly when one of its string cells contains "roll", "number" or "name" in any case |
| BulkImport.ParseRow | components/BulkImportModal.tsx:83-91 | a row gives a student exactly when its first cell is present and its trimmed text is not empty; roll number and name are the trimmed cells, the name `''` when missing |
| BulkImport.ParseRowIsClean | components/BulkImportModal.tsx:86-87 | a parsed row has a roll number that is not empty, and both fields are already trimmed |
| BulkImport.ParsedRowsAreClean | components/BulkImportModal.tsx:82-92 | every row the parse loop produces is clean |
| BulkImport.ParseAllAppend | components/BulkImportModal.tsx:82-92 | parsing two parts of a file gives their rows one after the other: input order is kept and rows are read independently |
| BulkImport.LowerRolls | components/BulkImportModal.tsx:100 | the lowercased roll numbers of exactly the existing students |
| BulkImport.Dedup | components/BulkImportModal.tsx:122 | `[...new Set(...)]` has no repeats and the same elements as its input |
| BulkImport.FindDuplicates | components/BulkImportModal.tsx:100-122 | the duplicate list has no repeats and holds exactly the spellings of rows whose lowercased roll number matches an existing student or an earlier row |
| BulkImport.HitsAreFlagged | components/BulkImportModal.tsx:105-122 | the existing-student list and the within-file set together hold exactly the spellings of the flagged rows |
| BulkImport.ParseAll | components/BulkImportModal.tsx:82-92 | the reference definition of the parse loop: every kept row is the parse of some input row, and no more rows are kept than were read |
| BulkImport.ParseRows | components/BulkImportModal.tsx:82-92 | the loop keeps, in file order, exactly the rows from the start row on that parse |
| BulkImport.ParseFile | components/BulkImportModal.tsx:64-132 | no parsed row gives empty lists and the no-data error; otherwise the parsed rows below the header, their duplicates, and a warning with the duplicate count when there are any |
| BulkImport.ValidRows | components/BulkImportModal.tsx:161-163 | the committed rows form an order-preserving sub-list of the parsed rows, holding exactly those whose exact spelling is not a listed duplicate |
| BulkImport.HandleImport | components/BulkImportModal.tsx:149-181 | refused without a class, without rows, or when no row is left; otherwise the valid rows, with the number of duplicate spellings as the announced skipped count |
| BulkImport.CommittedRowsAreUnique | components/BulkImportModal.tsx:161-163 | with duplicates as found, no committed row clashes in any case with an existing student, and no two committed rows clash with each other |
| BulkImport.UnflaggedRows | components/BulkImportModal.tsx:105-119 | the rows not flagged against existing students or earlier rows, in file order; no more rows than were read |
| BulkImport.UnflaggedRowsMembers | components/BulkImportModal.tsx:105-119 | the first-occurrence rule keeps exactly the unflagged rows |
| BulkImport.UnflaggedRowsDistinct | components/BulkImportModal.tsx:105-119 | no two rows kept by the first-occurrence rule share a roll number in any case |
| BulkImport.UnflaggedRowsCover | components/BulkImportModal.tsx:105-119 | every roll number of the file that no existing student has is kept once |
| BulkImport.UnflaggedRowsInOrder | components/BulkImportModal.tsx:105-119 | the kept rows keep file order |
| BulkImport.FirstWinsRowsAreUnique | components/BulkImportModal.tsx:161-163 | under the first-occurrence rule the committed rows avoid existing roll numbers, are pairwise distinct, cover every new roll number and keep file order |
| BulkImport.FirstWinsImport | components/BulkImportModal.tsx:149-171 | the same guards as handleImport; the unflagged rows are committed and the skipped count is the number of rows left out |
| BulkImport.AnnouncedCountIsDistinctSpellings | components/BulkImportModal.tsx:170-171 | the count in the skip message is the number of distinct flagged spellings |
| BulkImport.ExampleAsWrittenRefused | components/BulkImportModal.tsx:161-168 | existing "S1" and rows ("s1","X"), ("S2","Y"), ("S2","Z"): the import as written is refused because every row is filtered out |
| BulkImport.ExampleAsWrittenCount | components/BulkImportModal.tsx:170-171 | rows A, B, B, B: the import as written commits A and announces one skipped student |
| BulkImport.ExampleFirstWins | components/BulkImportModal.tsx:161-163 | existing "S1" and rows ("s1","X"), ("S2","Y"), ("S2","Z"): the first-occurrence rule commits ("S2","Y") and reports two skipped rows |
| StudentForm.OpenForm | components/StudentModal.tsx:17-26 | opening fills the fields from the edited student, or blanks them when adding, and clears the error |
| StudentForm.FindDuplicate | components/StudentModal.tsx:41-43 | none exactly when no other student has the roll number in any case; otherwise the first such student in roster order |
| StudentForm.Submit | components/StudentModal.tsx:30-51 | refused with the missing-fields error exactly when the trimmed name or roll number is empty; a duplicate refusal carries the trimmed roll number and the student `find` returns, the first clash in roster order; so when both fields are filled in and a student clashes, the refusal is the duplicate error; accepted exactly when both are filled in and no student clashes, with the edited id (none when adding), the typed name and the trimmed roll number |
| StudentForm.OwnRecordNeverClashes | components/StudentModal.tsx:42 | the edited student never counts as its own duplicate |
| StudentForm.ResubmitUnchangedAccepted | components/StudentModal.tsx:40-50 | on a roster with unique roll numbers, opening a student and submitting unchanged is accepted with that student's id, name and roll number |
| StudentForm.NobodyElseHoldsRoll | components/StudentModal.tsx:40-50 | on a roster with unique roll numbers no other student clashes with a student's own roll number |
| StudentForm.AddingTakenRollRefused | components/StudentModal.tsx:40-48 | adding a roll number that some student already holds in any case is refused with a duplicate error |
| ClassForm.OpenForm | components/ClassModal.tsx:15-20 | only while open, the field takes the edited class's name (`''` when adding) and the error is cleared |
| ClassForm.Submit | components/ClassModal.tsx:24-31 | refused with "Class name is required." exactly when the name is all white space; otherwise the untrimmed name with the edited id, none when adding |
| ClassForm.ResubmitUnchanged | components/ClassModal.tsx:15-30 | opening a class with a non-blank name and submitting unchanged hands the class back as it was |
| Summary.Summarize | components/AttendanceSummary.tsx:24-44 | the counting loop yields the number of Present records, of Absent records, and of all other records |
| Summary.CountsPartition | components/AttendanceSummary.tsx:29-41 | present + absent + unmarked equals the number of records |
| Summary.OthersAreUnmarked | components/AttendanceSummary.tsx:37-40 | the default branch counts exactly the Unmarked records |
| Summary.EmptyRecordsCountZero | components/AttendanceSummary.tsx:24-28 | an empty record map gives three zero counts |
| Summary.OnePresentOneAbsent | components/AttendanceSummary.tsx:29-41 | one present and one absent record give counts 1, 1 and 0 |
| HistoryView.BeforeTransitive | components/StudentHistoryModal.tsx:34 | the date order used for sorting is transitive |
| HistoryView.BeforeTotal | components/StudentHistoryModal.tsx:34 | any two different date keys are ordered one way or the other |
| HistoryView.LatestExists | components/StudentHistoryModal.tsx:34 | a set of dates that is not empty has a latest one |
| HistoryView.SortNewestFirst | components/StudentHistoryModal.tsx:34 | the sort holds exactly the given dates, once each, strictly newest first |
| HistoryView.StudentHistory | components/StudentHistoryModal.tsx:28-34 | every entry is a stored, non-Unmarked status of the student on its date; every such date appears; strictly newest first; no longer than the number of dates |
| HistoryView.HistoryDatesUnique | components/StudentHistoryModal.tsx:28-32 | no date appears twice |
| HistoryView.NoMarksNoHistory | components/StudentHistoryModal.tsx:28-33 | a student without a marked entry has an empty history |
| StudentListView.Render | components/StudentList.tsx:17-78 | the empty state exactly for no students; otherwise the select-all state and one row per student in order, with `records[id]`, the selected flag and the last flag |
| StudentListView.AllSelected | components/StudentList.tsx:27 | `allSelected`: the list is not empty and every student's id is in the selection |
| StudentListView.AllSelectedIffEveryRowSelected | components/StudentList.tsx:27 | the select-all box is checked exactly when every row is selected |
| StudentListView.OnlyFinalRowIsLast | components/StudentList.tsx:74 | only the final row is marked last |
| StudentListView.SelectAllChecksBox | components/StudentList.tsx:27 | after select-all (the ids of the displayed students) the box is checked for any list that is not empty |
| StudentListView.DeselectAllClearsRows | components/StudentList.tsx:75 | with an empty selection no row is selected and the box is unchecked |

## Left out

- Browser storage and JSON (App.tsx:16-46, App.tsx:93-116) are I/O. Only the default roster and the selection-fallback rule are modelled.
- The PDF export (App.tsx:418-469) is a foreign library and is not modelled.
- `XLSX.read`, `FileReader` and its error callbacks (components/BulkImportModal.tsx:49-61, 133-146) are an external parser. Input is taken as rows of optional cells. A non-string cell is represented by the text its `toString()` gives.
- A `null` row in the sheet output is not represented. An empty row is.
- The 2-second timer before the import callback (components/BulkImportModal.tsx:172-176) is not modelled. `HandleImport` returns what would be passed on.
- The Typewriter animation, StudentRow, ClassSelector, ManageClassesModal, the markup and constants.ts are presentation and are not modelled.
- Modal open/close flags and `handleClose` resets are UI state and are not modelled.
- Confirmation dialogs are not modelled. Each handler is its confirmed action.
- `Date.now()` ids are the `freshId` parameter. Today's date is the constructor's `today` parameter.
- React's shallow copies share nested buckets with the previous state (App.tsx:121-125). The model replaces whole values, so this aliasing is not captured.
- Text.Lower: maps only the ASCII letters A-Z, not every Unicode case mapping of `toLowerCase`.
- HistoryView.StudentHistory: orders by character order of the date keys instead of parsed `Date` values. These agree on ISO `YYYY-MM-DD` keys but not on keys `new Date` cannot parse. The function is ghost, because its sort picks the latest date of a set.
- App.AppState.HandleMarkAll: stands for both mark-all handlers, so it requires the status to be Present or Absent, the two constants they pass.
- The text of error messages is modelled as constants and datatypes (the student dialog's duplicate message is `StudentForm.Message`). The import notices carry their counts as numbers, not formatted strings.

## Findings

| source | as written | input that shows it | evidently intended | confidence | as-written member | corrected member |
|---|---|---|---|---|---|---|
| components/BulkImportModal.tsx:161-163 | rows are dropped when their exact roll-number spelling is in the duplicate list, so a row and its later identical copy are both dropped | existing roll number "S1"; rows ("s1","X"), ("S2","Y"), ("S2","Z"): every row is filtered out and the import is refused | the first occurrence of a roll number new to the roster is committed: ("S2","Y") | not executed; high, follows from the filter's definition | BulkImport.ExampleAsWrittenRefused | BulkImport.FirstWinsImport |
| components/BulkImportModal.tsx:170-171 | the skip message counts distinct duplicate spellings (`duplicates.length`) | rows A, B, B, B with no existing students: three rows are skipped but one is announced | the number of rows left out | not executed; medium, the message wording may mean spellings | BulkImport.ExampleAsWrittenCount | BulkImport.FirstWinsImport |
