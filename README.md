# Student records: CSV import, validation and reports

This project models, in Dafny, the student-records core of a React web application.
Teachers keep a list of student records (name, e-mail, grade, course, enrollment date)
and can edit them by hand or import them in bulk from CSV files. The core modelled is:

- the per-record rules of `validateStudent`, with the e-mail pattern and the
  `YYYY-MM-DD` calendar check (`validation.dfy`);
- the CSV reader: `parseCSV`, with its quote-toggling tokenizer, and
  `convertCSVToStudents`, with the header lookup, the row-to-record mapping and the
  split into accepted and failed rows (`csv_parser.dfy`);
- the batch-import card, which reads every file, folds the per-file results into one
  import summary and hands the accepted records on (`batch_import.dfy`);
- the page holding the full and the filtered record lists, with search, add, edit,
  delete and import (`index_page.dfy`);
- the add/edit dialog, with its per-field error map (`student_form.dfy`);
- the drop zone and file picker (`file_uploader.dfy`);
- the analytics card, with its course and grade distributions (`analytics.dfy`);
- the performance report, with its thresholds, average badge and CSV export
  (`performance_report.dfy`).

Shared pieces are `text.dfy` (JavaScript `trim`, `split`, `join`, `toLowerCase`,
`includes`, `endsWith`), `seqs.dfy` (`filter`) and `student_types.dfy` (the records).

Pure code, such as validation, parsing, counting and sorting, is written as functions
and lemmas. The loops of the source are methods proved equal to those functions:
- the character scanner and the per-line loop of `parseCSV`;
- the `forEach` of `convertCSVToStudents`;
- the result fold of `handleImport`;
- the error-map loop of `validateForm`;
- the counting loops of the analytics card.

`validateStudent` itself is a method that appends errors block by block, as the
source does. The state of each React component (its `useState` hooks) is a class whose
methods are the component's handlers.

The model does not smooth over two behaviours of the source:
- A file whose text has no non-blank line makes `parseCSV` throw inside the
  `FileReader` callback. That file's promise then never settles, so `Promise.all`
  never settles either and the card stays in its importing state.
  `BatchImport.BatchImporter.HandleImport` states this case.
- The export writes cells between quotes without escaping. Its round trip through the
  import is therefore proved only for fields without `"`.

## Model

| member | source | states |
|---|---|---|
| `Validation.ValidateStudentSteps` | src/utils/validation.ts:4-65 | The block-by-block error list equals `ValidateStudent`: one error per broken rule, in the order name, e-mail, grade, course, enrollment date. |
| `Validation.CheckName` | src/utils/validation.ts:8-14 | Appends "Name is required" exactly when the name is empty or blank. |
| `Validation.CheckEmail` | src/utils/validation.ts:17-29 | Appends "Email is required" for a blank address, otherwise "Email is not valid" when the pattern rejects it; never both. |
| `Validation.CheckGrade` | src/utils/validation.ts:32-44 | Appends "Grade must be a number" for NaN, otherwise the range error for a grade outside 0..100. |
| `Validation.CheckCourse` | src/utils/validation.ts:47-53 | Appends "Course is required" exactly when the course is empty or blank. |
| `Validation.CheckEnrollmentDate` | src/utils/validation.ts:56-62 | Appends the date error only for a non-empty date that is not a valid `YYYY-MM-DD` day. |
| `Validation.ValidateStudentEmpty` | src/utils/validation.ts:4-65 | No error exactly when the record meets all five field rules; the row number plays no part. |
| `Validation.ValidateStudentReports` | src/utils/validation.ts:4-65 | Every error carries the given row and the field and message of a rule the record breaks; each rule's error is present if and only if the rule is broken. |
| `Validation.ErrorsFromMember` | src/utils/validation.ts:4-65 | From any rule position on, a rule's error is reported if and only if the rule is at or after that position and broken. |
| `Validation.ErrorsFromEmpty` | src/utils/validation.ts:4-65 | No error from a rule position on if and only if no rule from there on is broken. |
| `Validation.ValidateStudentOrder` | src/utils/validation.ts:4-65 | The errors name strictly increasing fields, so no field is reported twice. |
| `Validation.ValidateStudentAtMostFive` | src/utils/validation.ts:4-65 | At most five errors per record. |
| `Validation.ValidateStudentSections` | src/utils/validation.ts:4-65 | The error list is the name errors, then the e-mail, grade, course and date errors. |
| `Validation.ValidateStudentExample` | src/utils/validation.ts:4-65 | The record with an empty name, e-mail `bad-email`, grade 150, an empty course and date `2024-13-40` yields five errors (name, e-mail not valid, grade range, course, date) in that order. |
| `Validation.BreaksAllButTwo` | src/utils/validation.ts:4-65 | A record breaking exactly those five rules gets exactly those five errors, in checking order. |
| `Validation.EmailMatcherIffPattern` | src/utils/validation.ts:67-70 | The character-by-character matcher accepts exactly the strings of `^[^\s@]+@[^\s@]+\.[^\s@]+$`. |
| `Validation.EmailScanAccepts` | src/utils/validation.ts:67-70 | Each matcher state accepts exactly the rest of the input its part of the pattern describes. |
| `Validation.ValidEmailShape` | src/utils/validation.ts:67-70 | An accepted address has no white space, exactly one `@`, text before it, and a later `.` with text on both sides. |
| `Validation.EmailFromParts` | src/utils/validation.ts:67-70 | Three non-empty runs without white space or `@`, joined by `@` and `.`, are always accepted. |
| `Validation.NoAtNotEmail` | src/utils/validation.ts:67-70 | A string without `@` is never accepted. |
| `Validation.EmailExamples` | src/utils/validation.ts:67-70 | `jane@example.com` is accepted and `bad-email` is rejected. |
| `Validation.ValidDateRoundTrip` | src/utils/validation.ts:72-84 | An accepted date string is the ISO rendering (`toISOString().slice(0, 10)`) of the day it names. |
| `Validation.IsoDateIsValid` | src/utils/validation.ts:72-84 | Every real Gregorian day with a four-digit year renders to an accepted string that names the same day. |
| `Validation.DateExamples` | src/utils/validation.ts:72-84 | `2024-01-15` and `2024-02-29` pass; `2023-02-29`, `2024-13-40` and `2024-1-15` fail. |
| `Validation.DaysInMonth` | src/utils/validation.ts:78-83 | Every month has 28 to 31 days under the Gregorian leap-year rule. |
| `CsvParser.TokenizeLine` | src/utils/csvParser.ts:12-31 | The scanner loop yields exactly `LineTokens(line)`: the cells between commas outside quotes, quotes dropped, each trimmed. |
| `CsvParser.TokenCount` | src/utils/csvParser.ts:16-30 | A line yields one token more than it has commas outside quotes. |
| `CsvParser.TokensNoQuote` | src/utils/csvParser.ts:19-20 | No token contains `"`. |
| `CsvParser.TokensUnquoted` | src/utils/csvParser.ts:16-30 | On a line without `"` the scanner is the plain comma split, trimmed. |
| `CsvParser.QuotedCell` | src/utils/csvParser.ts:16-30 | The line `a,"b",c` yields the cells `a`, `b`, `c` even when `b` holds commas. |
| `CsvParser.ParseCsv` | src/utils/csvParser.ts:6-35 | Returns the trimmed header cells of the first non-blank line and one token row per later non-blank line, or nothing where `lines[0]` is undefined. |
| `CsvParser.TokenizeRows` | src/utils/csvParser.ts:10-32 | The per-line loop yields one token row per data line, in line order. |
| `CsvParser.ParseFailsIffBlank` | src/utils/csvParser.ts:7-8 | Parsing fails exactly when the text is empty or white space only. |
| `CsvParser.ParsedRowsNonEmpty` | src/utils/csvParser.ts:10-32 | Every parsed data row has at least one cell. |
| `CsvParser.SplitLines` | src/utils/csvParser.ts:7 | Splitting on `\r?\n` gives one line more than there are `\n` characters. |
| `CsvParser.HeaderCells` | src/utils/csvParser.ts:8 | The header row has one cell more than the header line has commas; quotes are not honoured there. |
| `CsvParser.HeaderIndex` | src/utils/csvParser.ts:45-49 | The column is the first header equal to the key ignoring ASCII case, or -1 when no header is. |
| `CsvParser.CellAt` | src/utils/csvParser.ts:57-61 | A cell is used exactly when its column exists and the cell is not the empty string. |
| `CsvParser.DefaultDateAccepted` | src/utils/csvParser.ts:61 | A row without a usable date cell takes today's date, and while the clock names a real day the date rule accepts it. |
| `CsvParser.BadRowFromCsv` | src/utils/csvParser.ts:55-64 | The row `,bad-email,150,,2024-13-40` under the standard header, at clock 0, becomes `Validation.BadRow` and fails on spreadsheet row 2 with the five errors of `Validation.ValidateStudentExample`. |
| `CsvParser.ConvertCsvToStudents` | src/utils/csvParser.ts:38-74 | The `forEach` loop returns exactly the accepted records and failed rows of `ConvertFrom`, in row order. |
| `CsvParser.ConvertCounts` | src/utils/csvParser.ts:51-71 | The lengths of the two lists add up to the number of rows that are not skipped. |
| `CsvParser.ConvertPlacesRow` | src/utils/csvParser.ts:51-71 | Every row that is not skipped is placed: its record among the students when it has no errors, otherwise its cells and errors among the failures. |
| `CsvParser.StudentsSplit` | src/utils/csvParser.ts:51-71 | The records of earlier rows come before those of later rows, as `forEach` visits them. |
| `CsvParser.ErrorsSplit` | src/utils/csvParser.ts:51-71 | The failures of earlier rows come before those of later rows. |
| `CsvParser.ConvertFailuresOrdered` | src/utils/csvParser.ts:51-71 | Every failure has an error, and the failures' row numbers strictly increase. |
| `CsvParser.ConvertAcceptsValid` | src/utils/csvParser.ts:64-70 | Every accepted record meets all the rules of `validateStudent`. |
| `CsvParser.ConvertFailures` | src/utils/csvParser.ts:64-67 | Every failure is some later row's cells together with that row's non-empty error list. |
| `CsvParser.FailureRowNumbers` | src/utils/csvParser.ts:64 | Every error of the failure of data row `j` carries row number `j + 2`. |
| `CsvParser.ProcessFile` | src/utils/csvParser.ts:88-98 | One file's outcome is the conversion of its parse, or nothing when parsing throws. |
| `BatchImport.Results` | src/utils/csvParser.ts:77-106 | When every file settles, there is one result per file, in file order, each with the file's name and its records and failures. |
| `BatchImport.SettlesIffNonBlank` | src/utils/csvParser.ts:88-104 | All files settle exactly when every file's text holds a non-blank line. |
| `BatchImport.Aggregate` | src/components/BatchImport.tsx:42-56 | The fold over the results yields all records, all failures and the total row count. |
| `BatchImport.TotalRowsCounts` | src/components/BatchImport.tsx:44-49 | `totalRows` equals the number of accepted records plus the number of failed rows. |
| `BatchImport.FileOrder` | src/components/BatchImport.tsx:46-50 | Each file's records and failures form one contiguous block, after those of earlier files and before those of later ones. |
| `BatchImport.ImportAcceptsValid` | src/components/BatchImport.tsx:40-59 | Every record an import hands on meets all the rules of `validateStudent`. |
| `BatchImport.CompletedToast` | src/components/BatchImport.tsx:62-66 | The summary toast is destructive exactly when no record was imported. |
| `BatchImport.BatchImporter.HandleFilesSelected` | src/components/BatchImport.tsx:23-25 | New files go after the ones already held; nothing else changes. |
| `BatchImport.BatchImporter.HandleImport` | src/components/BatchImport.tsx:27-79 | No files: the "No files selected" toast and no other change. A file that never settles leaves the card importing. Otherwise the card holds the folded summary and shows the results tab; the records go to the page only when there are some; the summary toast follows. |
| `BatchImport.BatchImporter.ResetImport` | src/components/BatchImport.tsx:81-85 | No files, no results, back on the upload tab. |
| `IndexPage.SearchResultsSpec` | src/pages/Index.tsx:21-36 | A blank query shows every record. Otherwise it shows exactly the records whose name, e-mail or course contains the lower-cased query, each as often as it occurs in the list, and as many as there are such records. |
| `IndexPage.SearchConcat` | src/pages/Index.tsx:29-34 | Searching a concatenation is concatenating the searches, so results keep list order. |
| `IndexPage.ReplaceById` | src/pages/Index.tsx:65-71 | Records with the edited id become the updated record; all others and the length stay. |
| `IndexPage.ReplaceKeepsIds` | src/pages/Index.tsx:60-71 | An edit keeps every position's id and is idempotent. |
| `IndexPage.RemoveByIdSpec` | src/pages/Index.tsx:78-80 | After deletion no record has the id, every other record is kept, the length is the number of other records, and deleting twice changes nothing more. |
| `IndexPage.RemoveConcat` | src/pages/Index.tsx:78-80 | Deleting works piecewise, so the remaining records keep their order. |
| `IndexPage.WithFreshIds` | src/pages/Index.tsx:91-94 | Imported records keep their fields and get the fresh id of their position. |
| `IndexPage.ImportedMatchMissing` | src/pages/Index.tsx:98-100 | As written, importing a record that matches the current query can leave it out of the filtered list. |
| `IndexPage.ImportedFilteredConsistent` | src/pages/Index.tsx:96-103 | With the search applied to the combined list, a view that showed the search of the full list still does after the import: the earlier results, then the imported matches. |
| `IndexPage.Page.HandleSearch` | src/pages/Index.tsx:21-36 | Stores the query and shows the search of the full list. |
| `IndexPage.Page.HandleAddStudent` | src/pages/Index.tsx:39-48 | Appends the new record to both lists and closes the form. |
| `IndexPage.Page.HandleEditStudent` | src/pages/Index.tsx:51-54 | Selects the record and opens the form. |
| `IndexPage.Page.OpenNewForm` | src/pages/Index.tsx:130-133 | Clears the selection and opens the form; the lists and the query stay. |
| `IndexPage.Page.CloseForm` | src/pages/Index.tsx:153-156 | Closes the form and clears the selection; the lists and the query stay. |
| `IndexPage.Page.SubmitForm` | src/pages/Index.tsx:157 | With no selection the form data is appended as a new record to both the full and the filtered list; with one, the selected id's records in both lists take the data. Either way the form closes, the selection clears and the query stays. |
| `IndexPage.Page.HandleSubmitEdit` | src/pages/Index.tsx:57-75 | Without a selection, nothing changes. Otherwise both lists replace the selected id's records with the edited data under that id, the form closes and the selection clears. |
| `IndexPage.Page.HandleDeleteStudent` | src/pages/Index.tsx:78-86 | Removes the id from both lists. |
| `IndexPage.Page.HandleStudentsImported` | src/pages/Index.tsx:89-104 | Appends the imported records with fresh ids. With an empty query they are appended to the view too. Otherwise the view becomes the search of the combined list: the intended behaviour in the Findings row, not the code as written. |
| `StudentForm.DefaultFormData` | src/components/StudentForm.tsx:25-31 | Empty text fields, grade 0, today's date. |
| `StudentForm.FormGrade` | src/components/StudentForm.tsx:57 | `parseFloat(value) \|\| 0` is always a number, and equals the parsed number when there is one. |
| `StudentForm.SetField` | src/components/StudentForm.tsx:55-58 | An input change sets exactly its own field; the other four keep their values. |
| `StudentForm.SetFieldOverwrites` | src/components/StudentForm.tsx:55-58 | A second change of the same field wins over the first. |
| `StudentForm.ErrorsByField` | src/components/StudentForm.tsx:76-80 | The loop builds exactly `ErrorMap`: each error's message under its field, later errors overwriting. |
| `StudentForm.ErrorMapKeys` | src/components/StudentForm.tsx:76-80 | The map's keys are exactly the fields some error is about. |
| `StudentForm.ErrorMapMessages` | src/components/StudentForm.tsx:76-80 | With at most one error per field, each field maps to its error's message. |
| `StudentForm.FormErrorsSpec` | src/components/StudentForm.tsx:69-84 | A field has an error message exactly when the record breaks a rule about it, and the message is that rule's. |
| `StudentForm.TempId` | src/components/StudentForm.tsx:71 | The id is the record's own when it has a non-empty one, else `new`. |
| `StudentForm.Form.Load` | src/components/StudentForm.tsx:38-51 | Loads the record's fields, or the defaults, and clears the errors. |
| `StudentForm.Form.HandleChange` | src/components/StudentForm.tsx:53-67 | Updates one field and blanks that field's error only when it was set. |
| `StudentForm.Form.ValidateForm` | src/components/StudentForm.tsx:69-84 | Stores the error map of the current fields and returns true exactly when they meet all the rules. |
| `StudentForm.Form.HandleSubmit` | src/components/StudentForm.tsx:86-102 | Submits the fields exactly when they are valid. Otherwise it raises the "Validation Error" toast. |
| `FileUploader.DroppedFiles` | src/components/FileUploader.tsx:40-43 | In multiple mode, only dropped files ending in `.csv`, each as often as it was dropped; otherwise the first file. |
| `FileUploader.DroppedConcat` | src/components/FileUploader.tsx:41 | In multiple mode a drop is filtered piecewise, so the kept files stay in drop order. |
| `FileUploader.PickedFiles` | src/components/FileUploader.tsx:53-56 | In multiple mode, every picked file unfiltered; otherwise the first. |
| `FileUploader.WithoutSpec` | src/components/FileUploader.tsx:67-69 | Removing a valid index drops exactly that file. An out-of-range index changes nothing. |
| `FileUploader.Uploader.HandleDrag` | src/components/FileUploader.tsx:24-33 | Enter and over set the highlight, leave clears it, other events keep it. |
| `FileUploader.Uploader.HandleDrop` | src/components/FileUploader.tsx:35-48 | Clears the highlight. A non-empty drop appends the chosen files and passes them on; an empty one does neither. |
| `FileUploader.Uploader.HandleChange` | src/components/FileUploader.tsx:50-61 | A non-empty pick appends the chosen files and passes them on. |
| `FileUploader.Uploader.RemoveFile` | src/components/FileUploader.tsx:67-69 | The list loses the file at the index. |
| `Analytics.CountByKey` | src/components/AnalyticsDashboard.tsx:47-51 | The counting loop yields the keys in first-seen order and the count map. |
| `Analytics.CountMapOfSpec` | src/components/AnalyticsDashboard.tsx:47-51 | The map holds exactly the keys seen, each with its number of rows. |
| `Analytics.FirstOccurrences` | src/components/AnalyticsDashboard.tsx:53 | The keys in map order are exactly the distinct keys, without repeats. |
| `Analytics.CountsSum` | src/components/AnalyticsDashboard.tsx:47-51 | The counts of the distinct keys add up to the number of rows. |
| `Analytics.CourseDistributionSpec` | src/components/AnalyticsDashboard.tsx:53-58 | One entry per distinct course, in first-seen order, with its count and the palette colour of its position; the values add up to the number of rows. |
| `Analytics.GradeDistributionSpec` | src/components/AnalyticsDashboard.tsx:70-81 | The entries are sorted by grade key. An entry is present exactly when its key is a fetched grade with that many rows. There is one entry per distinct grade, no key appears twice, and the counts add up to the number of rows. |
| `Analytics.SortByGradeSpec` | src/components/AnalyticsDashboard.tsx:81 | The sort yields ascending keys and a permutation of its input. |
| `Analytics.KeyLeqTotal` | src/components/AnalyticsDashboard.tsx:81 | Any two keys compare one way or the other. |
| `Analytics.KeyLeqTrans` | src/components/AnalyticsDashboard.tsx:81 | The key order is transitive. |
| `Analytics.TotalStudents` | src/components/AnalyticsDashboard.tsx:37 | `count \|\| 0`. |
| `Analytics.Dashboard.FetchAnalyticsData` | src/components/AnalyticsDashboard.tsx:28-94 | The queries run in order and the first failure stops the rest and raises the error toast. Each query that succeeded has set its card data. Loading ends in every case. |
| `PerformanceReport.ThresholdSpec` | src/pages/PerformanceReport.tsx:35-36 | A row is a top performer exactly when its grade is at least 90, and needs improvement exactly when it is below 70; each list holds its rows as often as they occur, so its length (the count the page shows) is the number of such rows; no row is both. |
| `PerformanceReport.ThresholdsConcat` | src/pages/PerformanceReport.tsx:35-36 | Both filters keep list order. |
| `PerformanceReport.AverageBounds` | src/pages/PerformanceReport.tsx:34 | Grades within 0..100 give an average within 0..100, and no rows give 0. |
| `PerformanceReport.BadgeSpec` | src/pages/PerformanceReport.tsx:131-134 | The badge label is monotone in the average. Its colour follows the same thresholds as its text, and NaN shows "Needs Improvement". |
| `PerformanceReport.ExportLines` | src/pages/PerformanceReport.tsx:43-53 | Rows without line breaks export as the header line plus one line per row, in data order. |
| `PerformanceReport.QuotedLineScans` | src/pages/PerformanceReport.tsx:46-51 | Cells without `"`, quoted and comma-joined, scan back through the import tokenizer to themselves, commas included. |
| `PerformanceReport.ExportLineReimports` | src/pages/PerformanceReport.tsx:46-51 | An exported row without `"` in its fields imports back as its five field texts, trimmed. |
| `PerformanceReport.ExportHeadersImport` | src/pages/PerformanceReport.tsx:43-45 | The export's header line gives the import the five columns in order. |
| `PerformanceReport.HandleExport` | src/pages/PerformanceReport.tsx:38-72 | No data exports nothing; the CSV format exports the header-plus-rows text. |
| `Seqs.FilterConcat` | src/pages/Index.tsx:29-34 | Filtering distributes over concatenation, so it keeps order. |
| `Text.SplitJoin` | src/pages/PerformanceReport.tsx:44-53 | Joining parts that lack the separator and splitting again gives back the parts. |
| `Text.BlankIffTrimEmpty` | src/utils/validation.ts:8 | `s.trim() === ''` holds exactly for strings made only of JavaScript white space. |

## Left out

- Reading files (`FileReader`) and the `async`/`await` plumbing of `processCSVFiles` are not modelled as such. A file is its name and decoded text, and a batch settles exactly when every file's parse succeeds. A `FileReader` error event is not modelled.
- The clock (`Date.now()`, `new Date().toISOString()`) and `Math.random()` are parameters: a `Runtime` per file and a fresh-id function per import. A `Runtime` places no constraint on the date it supplies; `CsvParser.DefaultDateAccepted` assumes it names a real day with a four-digit year.
- `BatchImport.BatchImporter.HandleImport`: the `catch` branch (the "Import failed" toast) is not modelled. `processCSVFiles` only ever resolves its promise, so the branch cannot be reached.
- `IndexPage.Page.HandleStudentsImported`: with a query, the page applies the intended search of the combined list (`ImportedFiltered`), not the stale search of the pre-import list that Index.tsx computes (`ImportedFilteredAsWritten`; see Findings).
- `Analytics.GradeDistributionSpec`: grade keys are taken to be strings, as the component's `Map<string, number>` declares. A numeric `grade` column (the `Student` record types it as a number) would make `localeCompare` throw, and the card would show the error toast; that path is not modelled.
- `parseFloat`, `Number` and JavaScript number formatting are parameters or left abstract. A grade is NaN or an exact real, so infinities, `-0` and rounding are not modelled. `PerformanceReport.AverageBounds` holds in exact arithmetic and does not model floating-point division.
- `Validation.ValidDateRoundTrip`: `new Date(s)` and `toISOString` are modelled as the proleptic Gregorian calendar for four-digit years, not as the engine's date parser.
- `Validation.EmailMatcherIffPattern`: the regular-expression engine is modelled as a hand-written matcher, proved equal to the pattern's meaning.
- `Analytics.KeyLeqTotal`: `localeCompare` is modelled as character-code order; locale collation is not.
- `Text.ToLower`: `toLowerCase` is ASCII only; Unicode case mapping is not modelled.
- Backend queries (the database client, the Gemini and speech functions) are inputs: each query returns data or fails.
- Presentational components (cards, charts, progress bars, `toFixed` display), toast rendering and the DOM download link are not modelled.
- `PerformanceReport.HandleExport`: the JSON export text (`JSON.stringify`) and the file name are not modelled.
- The time-range selector of the report is not modelled. Its value does not change the query.
- The authentication page and the context files are not part of this model.

## Findings

| source | as written | input that shows it | evidently intended | confidence | as-written member | corrected member |
|---|---|---|---|---|---|---|
| src/pages/Index.tsx:98-100 | With a search active, `handleStudentsImported` calls `handleSearch`, which filters the `students` of the current render: the list from before the import. | An empty list, the query `a`, and an import of one record named `a`: the filtered list stays empty. | The comment on line 98 says the filter applies to the new combined list, so imported matches should show. | not executed | `IndexPage.ImportedMatchMissing` | `IndexPage.ImportedFilteredConsistent` |
