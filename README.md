# Student roster: a verified model of the domain and service layer

This project models the core of the SMS_v2 student-management system:
- the mutable `Student` record and the `ImportResult` counter object;
- the seven validation rules of `ValidationService`;
- the flat-record codec of `CsvHelper`: `esc`, `parseLine`, `readCsv`, and the lines the two exports write;
- the student table that `SqliteStudentRepository` keeps behind the `StudentRepository` contract;
- `StudentService`: validated add and update, delete, the pass-throughs, the two sorted copies, `parseRow` and the batch import `importFromCsv`;
- the seven report functions of `ReportService`.

Modules, one per file:

- `Wrappers` (`wrappers.dfy`): `Option` and `Result`.
- `Strings` (`strings.dfy`): `isBlank`, `trim`, ASCII case mapping, substring containment, and the code-point order that stands for the BINARY collation of `ORDER BY` and, on lower-cased text, for `CASE_INSENSITIVE_ORDER`.
- `Numbers` (`numbers.dfy`): `Integer.parseInt` and `toString`, the plain-decimal part of `Double.parseDouble`, and `%.2f`.
- `Dates` (`dates.dfy`): `LocalDate` values, `LocalDate.toString` and `LocalDate.parse`.
- `Domain` (`domain.dfy`): `StudentStatus`, the `Student` class with its snapshot value `StudentRecord`, and the `ImportResult` class.
- `Validation` (`validation.dfy`): each rule as a function giving its messages, and each `validateX` as a method that appends them to the list it is given.
- `Csv` (`csv.dfy`):
  - `esc`;
  - the `parseLine` state machine, as a loop proved equal to a function on prefixes of the line;
  - `readCsv` over the file's lines;
  - the export lines.
- `Ordering` (`ordering.dfy`):
  - the four comparators the roster sorts by;
  - a stable insertion sort, standing for `List.sort`, a sorted stream and `ORDER BY`.
- `Repository` (`repository.dfy`): the class `StudentRepository`, an in-memory map from primary key to row. Its nine operations follow the SQL statements and the `students` schema: the primary key, and the CHECK constraints on level and GPA.
- `Service` (`service.dfy`):
  - `parseRow`, and the per-row outcome of an import;
  - the class `StudentService`;
  - the round trip from an exported line back to the student it came from.
- `Reports` (`reports.dfy`): the reports, as functions over a list of students, plus the two loops that fill maps.

The current date (`LocalDate.now()`) is a parameter `today`. A file is its sequence of lines. A failed read is the `ReadFailed` case of `Service.ReadOutcome`. A Java `null` string is the empty string `""`. The validation rules and `esc` treat the two alike; the table's NOT NULL columns do not (see "## Left out"). A GPA is an exact `real`. The two sizes of Java number are explicit:
- an `int` level is confined to the 32-bit range by `parseInt`;
- the counts of the reports are unbounded naturals.

`parseLine` drops every `"` character. A doubled quote inside a quoted field therefore does not come back as one quote, and `esc` followed by `parseLine` is the identity only on fields without quotes (`Csv.QuoteIsLost`, `Csv.CleanLineRoundTrip`).

The import's error report (`import_errors.csv`) is written only when at least one row failed.

## Model

| member | source | states |
|---|---|---|
| Domain.StatusValueOf | jones/SMS_v2/src/main/java/com/sms2/domain/Student.java:17 | `valueOf` succeeds exactly on the two constant names and returns the status of that name |
| Domain.StatusNameRoundTrip | jones/SMS_v2/src/main/java/com/sms2/domain/Student.java:17 | `valueOf(s.name())` is `s` for both statuses |
| Domain.Student.constructor | jones/SMS_v2/src/main/java/com/sms2/domain/Student.java:19-22 | a new student is ACTIVE, is dated today, and has empty text fields and zero numbers |
| Domain.Student.WithFields | jones/SMS_v2/src/main/java/com/sms2/domain/Student.java:24-34 | the seven-argument constructor stores exactly the seven values and keeps ACTIVE and today's date |
| Domain.Student.SetStudentId | jones/SMS_v2/src/main/java/com/sms2/domain/Student.java:46 | changes the id to the given value; the other eight fields are unchanged |
| Domain.Student.SetFullName | jones/SMS_v2/src/main/java/com/sms2/domain/Student.java:47 | changes only the full name |
| Domain.Student.SetProgramme | jones/SMS_v2/src/main/java/com/sms2/domain/Student.java:48 | changes only the programme |
| Domain.Student.SetLevel | jones/SMS_v2/src/main/java/com/sms2/domain/Student.java:49 | changes only the level |
| Domain.Student.SetGpa | jones/SMS_v2/src/main/java/com/sms2/domain/Student.java:50 | changes only the GPA |
| Domain.Student.SetEmail | jones/SMS_v2/src/main/java/com/sms2/domain/Student.java:51 | changes only the email |
| Domain.Student.SetPhoneNumber | jones/SMS_v2/src/main/java/com/sms2/domain/Student.java:52 | changes only the phone number |
| Domain.Student.SetDateAdded | jones/SMS_v2/src/main/java/com/sms2/domain/Student.java:53 | changes only the date added |
| Domain.Student.SetStatus | jones/SMS_v2/src/main/java/com/sms2/domain/Student.java:54 | changes only the status; every getter reads back the last value set |
| Domain.ImportResult.constructor | jones/SMS_v2/src/main/java/com/sms2/domain/ImportResult.java:7-9 | a fresh result has no successes, no errors and an error count of 0, and keeps the invariant errorCount == number of errors |
| Domain.ImportResult.IncrementSuccess | jones/SMS_v2/src/main/java/com/sms2/domain/ImportResult.java:11 | the success count rises by exactly one; the errors and their count are unchanged; the invariant is kept |
| Domain.ImportResult.AddError | jones/SMS_v2/src/main/java/com/sms2/domain/ImportResult.java:12 | the error goes at the end and the earlier entries stay; the error count rises by one and so still equals the list's length; successes are unchanged |
| Validation.ValidateStudentId | jones/SMS_v2/src/main/java/com/sms2/service/ValidationService.java:21-25 | appends the id rule's messages after the entries already in the list |
| Validation.ValidateFullName | jones/SMS_v2/src/main/java/com/sms2/service/ValidationService.java:27-31 | appends the name rule's messages after the existing entries |
| Validation.ValidateProgramme | jones/SMS_v2/src/main/java/com/sms2/service/ValidationService.java:33-35 | appends the programme rule's message after the existing entries |
| Validation.ValidateLevel | jones/SMS_v2/src/main/java/com/sms2/service/ValidationService.java:37-39 | appends the level rule's message after the existing entries |
| Validation.ValidateGpa | jones/SMS_v2/src/main/java/com/sms2/service/ValidationService.java:41-43 | appends the GPA rule's message after the existing entries |
| Validation.ValidateEmail | jones/SMS_v2/src/main/java/com/sms2/service/ValidationService.java:45-48 | appends the email rule's messages after the existing entries |
| Validation.ValidatePhone | jones/SMS_v2/src/main/java/com/sms2/service/ValidationService.java:50-54 | appends the phone rule's messages after the existing entries |
| Validation.Validate | jones/SMS_v2/src/main/java/com/sms2/service/ValidationService.java:9-19 | the result is the id, name, programme, level, GPA, email and phone messages, in that order |
| Validation.NoMessagesIffValid | jones/SMS_v2/src/main/java/com/sms2/service/ValidationService.java:9-19 | `validate` returns no message exactly when the record meets every rule (non-blank fields, id length 4-20 and alphanumeric, and so on) |
| Validation.IsValid | jones/SMS_v2/src/main/java/com/sms2/service/ValidationService.java:56 | true exactly when the student meets every rule |
| Validation.IdChecks | jones/SMS_v2/src/main/java/com/sms2/service/ValidationService.java:21-25 | a blank id gives only "required". For a non-blank id, the length message appears iff the length is outside 4-20, and independently the charset message appears iff some character is not an ASCII letter or digit |
| Validation.NameChecks | jones/SMS_v2/src/main/java/com/sms2/service/ValidationService.java:27-31 | a blank name gives only "required". For a non-blank name, the length message appears iff the length is outside 2-60, and the digit message appears iff the name has a digit |
| Validation.EmailChecks | jones/SMS_v2/src/main/java/com/sms2/service/ValidationService.java:45-48 | a blank email gives only "required"; a non-blank one is accepted iff it contains both `@` and `.` |
| Validation.PhoneChecks | jones/SMS_v2/src/main/java/com/sms2/service/ValidationService.java:50-54 | a blank phone gives only "required". For a non-blank phone, the digits-only message and the 10-15 length message each appear iff their condition fails |
| Validation.LevelAndGpaChecks | jones/SMS_v2/src/main/java/com/sms2/service/ValidationService.java:37-43 | a level is accepted iff it is 100, 200, ..., 700; a GPA is accepted iff 0.0 <= g <= 4.0 |
| Validation.ThresholdMatchesGpaCheck | jones/SMS_v2/src/main/java/com/sms2/service/ValidationService.java:57 | `isValidGpaThreshold` accepts exactly the GPAs the GPA rule accepts |
| Validation.SampleStudentIsValid | jones/SMS_v2/src/test/java/com/sms2/service/ValidationServiceTest.java:68-72 | the student STU001 / Alice Smith / CS / 300 / 3.5 / a@b.com / 0241234567 has no validation message |
| Csv.DoubleQuotes | jones/SMS_v2/src/main/java/com/sms2/util/CsvHelper.java:63 | `replace("\"", "\"\"")` doubles the number of quotes and leaves quote-free text unchanged |
| Csv.Esc | jones/SMS_v2/src/main/java/com/sms2/util/CsvHelper.java:61-65 | text without comma or quote (including the empty text that stands for `null`) is unchanged; any other text is wrapped in quotes; the result always has an even number of quotes |
| Csv.RawFieldsOfEsc | jones/SMS_v2/src/main/java/com/sms2/util/CsvHelper.java:48-65 | scanning an escaped value gives a single field: the value with its quotes removed |
| Csv.ScanStep | jones/SMS_v2/src/main/java/com/sms2/util/CsvHelper.java:52-56 | one character of the scan: a quote flips the in-quote flag; a comma outside quotes closes the field; any other character is appended to the open field |
| Csv.ParseLine | jones/SMS_v2/src/main/java/com/sms2/util/CsvHelper.java:48-59 | the character loop returns the trimmed fields of the whole line, as defined on prefixes by `RawFields` |
| Csv.FieldCount | jones/SMS_v2/src/main/java/com/sms2/util/CsvHelper.java:48-58 | `parseLine` returns exactly one more field than there are commas outside quotes |
| Csv.FieldsAreClean | jones/SMS_v2/src/main/java/com/sms2/util/CsvHelper.java:53-57 | every field `parseLine` returns is trimmed and has no `"` |
| Csv.LineRoundTrip | jones/SMS_v2/src/main/java/com/sms2/util/CsvHelper.java:48-65 | parsing the comma-join of escaped fields gives back each field, with its quotes removed and then trimmed |
| Csv.CleanLineRoundTrip | jones/SMS_v2/src/main/java/com/sms2/util/CsvHelper.java:48-65 | for trimmed, quote-free fields, `parseLine(join(",", map(esc, fields)))` is exactly the fields |
| Csv.QuoteIsLost | jones/SMS_v2/src/main/java/com/sms2/util/CsvHelper.java:53 | a field that contains a quote does not survive `esc` followed by `parseLine` |
| Csv.DataLinesMembers | jones/SMS_v2/src/main/java/com/sms2/util/CsvHelper.java:39-43 | the rows kept are exactly the non-blank lines after the header |
| Csv.ReadCsv | jones/SMS_v2/src/main/java/com/sms2/util/CsvHelper.java:36-46 | the loop skips the first line and every blank line, and parses the rest in order |
| Csv.StudentLine | jones/SMS_v2/src/main/java/com/sms2/util/CsvHelper.java:18-21 | one exported line is the student's nine columns, each as `esc` would write it, joined by commas: the level, GPA, date and status need no escaping |
| Csv.ExportedLineColumns | jones/SMS_v2/src/main/java/com/sms2/util/CsvHelper.java:18-21 | `parseLine` of every exported line gives nine fields, each the student's column with its quotes dropped and trimmed |
| Csv.ExportedLineSplits | jones/SMS_v2/src/main/java/com/sms2/util/CsvHelper.java:18-21 | `parseLine` of an exported student line gives its nine columns exactly, when the student's text fields are trimmed and quote-free |
| Csv.StudentLinesAt | jones/SMS_v2/src/main/java/com/sms2/util/CsvHelper.java:17-21 | line k of the export is the formatted line of student k |
| Csv.ExportStudents | jones/SMS_v2/src/main/java/com/sms2/util/CsvHelper.java:16-22 | the fixed header, then one formatted line per student, in input order |
| Csv.ExportErrors | jones/SMS_v2/src/main/java/com/sms2/util/CsvHelper.java:31-32 | the header `Row,Error`, then `esc(e)` for each error, in order |
| Ordering.Sort | jones/SMS_v2/src/main/java/com/sms2/service/StudentService.java:52-63 | the sort is a permutation of its input |
| Ordering.SortSorted | jones/SMS_v2/src/main/java/com/sms2/service/StudentService.java:52-63 | the sort's output is in order under the comparator |
| Ordering.SortStable | jones/SMS_v2/src/main/java/com/sms2/service/StudentService.java:52-63 | elements the comparator ties keep their input order |
| Ordering.LeTransitive | jones/SMS_v2/src/main/java/com/sms2/service/StudentService.java:54-61 | each of the roster's comparators is transitive |
| Ordering.LeTotal | jones/SMS_v2/src/main/java/com/sms2/service/StudentService.java:54-61 | each of the roster's comparators is total |
| Repository.StudentRepository.FindById | jones/SMS_v2/src/main/java/com/sms2/repository/SqliteStudentRepository.java:24-30 | a row is found exactly when its id is in the table, and the row found carries that id |
| Repository.StudentRepository.ExistsById | jones/SMS_v2/src/main/java/com/sms2/repository/SqliteStudentRepository.java:88-92 | `existsById(id)` holds iff `findById(id)` finds a row |
| Repository.StudentRepository.Add | jones/SMS_v2/src/main/java/com/sms2/repository/SqliteStudentRepository.java:13-21 | succeeds iff the id is absent and the row meets the CHECK constraints. It then stores the row, and `findById` returns it; otherwise the table is unchanged |
| Repository.StudentRepository.Update | jones/SMS_v2/src/main/java/com/sms2/repository/SqliteStudentRepository.java:42-50 | succeeds iff the id is present and the row meets the constraints. It then overwrites every column except the id and the date added; otherwise nothing changes |
| Repository.StudentRepository.Delete | jones/SMS_v2/src/main/java/com/sms2/repository/SqliteStudentRepository.java:53-57 | removes just that id; true iff a row was there |
| Repository.StudentRepository.Select | jones/SMS_v2/src/main/java/com/sms2/repository/SqliteStudentRepository.java:63-65 | each row the WHERE clause accepts comes back exactly once, and no other row does |
| Repository.StudentRepository.FindAll | jones/SMS_v2/src/main/java/com/sms2/repository/SqliteStudentRepository.java:33-39 | every row exactly once, ordered by full name |
| Repository.StudentRepository.Search | jones/SMS_v2/src/main/java/com/sms2/repository/SqliteStudentRepository.java:60-68 | exactly the rows whose id or full name contains the query, ignoring ASCII case, each once |
| Repository.StudentRepository.Filter | jones/SMS_v2/src/main/java/com/sms2/repository/SqliteStudentRepository.java:71-85 | exactly the rows that meet every given criterion (a blank programme or status, or an absent level, is no criterion), each once and ordered by full name |
| Repository.InsertDistinctAscending | jones/SMS_v2/src/main/java/com/sms2/repository/SqliteStudentRepository.java:97 | adding a programme to an ascending list without repeats keeps it ascending and without repeats |
| Repository.StudentRepository.GetAllProgrammes | jones/SMS_v2/src/main/java/com/sms2/repository/SqliteStudentRepository.java:95-101 | each programme in the table appears exactly once, in strictly ascending order |
| Numbers.ParseInt | jones/SMS_v2/src/main/java/com/sms2/service/StudentService.java:93 | `Integer.parseInt` only returns values in the 32-bit range |
| Numbers.ParseDouble | jones/SMS_v2/src/main/java/com/sms2/service/StudentService.java:93 | `Double.parseDouble` accepts only non-empty text, and the value is non-negative unless the text starts with `-` |
| Numbers.UnsignedDecimal | jones/SMS_v2/src/main/java/com/sms2/service/StudentService.java:93 | the digits of an unsigned decimal read as a non-negative value |
| Numbers.Fixed2 | jones/SMS_v2/src/main/java/com/sms2/util/CsvHelper.java:18 | `%.2f` writes digits, a `.` and exactly two decimals, with a leading `-` exactly for negative values |
| Numbers.Fixed2UnsignedValue | jones/SMS_v2/src/main/java/com/sms2/util/CsvHelper.java:18 | the unsigned `%.2f` text of a non-negative number with at most two decimals reads back as that number |
| Numbers.IntRoundTrip | jones/SMS_v2/src/main/java/com/sms2/service/StudentService.java:93 | `parseInt` reads back the `%d` text of every 32-bit integer |
| Numbers.Fixed2RoundTrip | jones/SMS_v2/src/main/java/com/sms2/util/CsvHelper.java:18 | `parseDouble` reads back the `%.2f` text of every number with at most two decimals, negative ones included |
| Dates.ParseDate | jones/SMS_v2/src/main/java/com/sms2/service/StudentService.java:95 | `LocalDate.parse` only yields dates that exist |
| Dates.FormatDate | jones/SMS_v2/src/main/java/com/sms2/util/CsvHelper.java:21 | `LocalDate.toString` of a date with a four-digit year is the year in four digits, the month and the day in two, joined by `-` |
| Dates.PaddedFields | jones/SMS_v2/src/main/java/com/sms2/util/CsvHelper.java:21 | for a four-digit year, the year, month and day are each zero-padded to their width |
| Dates.DateRoundTrip | jones/SMS_v2/src/main/java/com/sms2/service/StudentService.java:95 | `LocalDate.parse` reads back `toString` of every date with a year from 0 to 9999 |
| Service.ParseRow | jones/SMS_v2/src/main/java/com/sms2/service/StudentService.java:89-98 | the new student's fields, filled in through the setters, are the row's record; a column that fails to parse gives that exception's message |
| Service.RowRecord | jones/SMS_v2/src/main/java/com/sms2/service/StudentService.java:89-98 | a row fails with "Not enough columns" exactly when it has fewer than 8 columns; a parsed student has trimmed text fields and a level in the 32-bit range |
| Service.ShortRowRejected | jones/SMS_v2/src/main/java/com/sms2/service/StudentService.java:90 | a row with fewer than 8 columns fails with "Not enough columns" |
| Service.ParsedRowColumns | jones/SMS_v2/src/main/java/com/sms2/service/StudentService.java:92-96 | each field of a parsed row is its trimmed column, passed through `parseInt`, `parseDouble`, the date rule or the status rule where the column needs it |
| Service.EmptyDateIsToday | jones/SMS_v2/src/main/java/com/sms2/service/StudentService.java:95 | a parsed row whose trimmed date column is empty has today as its date added |
| Service.MissingStatusIsActive | jones/SMS_v2/src/main/java/com/sms2/service/StudentService.java:96 | a parsed row whose status column is missing or blank is ACTIVE |
| Service.UnknownStatusRejected | jones/SMS_v2/src/main/java/com/sms2/service/StudentService.java:96 | a status that is not a constant name after trimming and upper-casing makes the row fail |
| Service.ExportedColumnsParse | jones/SMS_v2/src/main/java/com/sms2/service/StudentService.java:89-98 | `parseRow` of the nine exported columns rebuilds the student. This needs trimmed text fields, a GPA with at most two decimals and a four-digit year |
| Service.ExportedRowParses | jones/SMS_v2/src/main/java/com/sms2/util/CsvHelper.java:16-21 | an exported student line, read back by `parseLine` and `parseRow`, is the same student, under the conditions of `Csv.ExportedLineSplits` and `Service.ExportedColumnsParse` |
| Service.CheckRowParsed | jones/SMS_v2/src/main/java/com/sms2/service/StudentService.java:74-76 | a parsed row with validation messages is rejected with those messages joined by `; `; a valid one is accepted |
| Service.CheckRow | jones/SMS_v2/src/main/java/com/sms2/service/StudentService.java:74-76 | the import accepts a row exactly when `parseRow` succeeds and the student meets every rule; the accepted student is the parsed one, and a row that fails to parse keeps the exception's message |
| Service.ValidIsAccepted | jones/SMS_v2/src/main/java/com/sms2/service/StudentService.java:78 | with real-valued GPAs, a student that passes validation meets the table's CHECK constraints, so the `add` the import does not check cannot fail |
| Service.OutcomeTagged | jones/SMS_v2/src/main/java/com/sms2/service/StudentService.java:76-79 | every error of data row n starts with "Row n: " |
| Service.ImportStep | jones/SMS_v2/src/main/java/com/sms2/service/StudentService.java:71-80 | each data row adds exactly one outcome; the table gains that row's student iff the outcome is a success |
| Service.ImportCounts | jones/SMS_v2/src/main/java/com/sms2/service/StudentService.java:70-80 | successes plus errors equals the number of data rows |
| Service.ImportTags | jones/SMS_v2/src/main/java/com/sms2/service/StudentService.java:70-80 | the error for the k-th data row carries the tag "Row k+2: " |
| Service.ImportKeepsRows | jones/SMS_v2/src/main/java/com/sms2/service/StudentService.java:77-78 | an import never changes or removes a row that was already stored |
| Service.ImportKeepsKeys | jones/SMS_v2/src/main/java/com/sms2/service/StudentService.java:78 | every row the import stores is keyed by its own id |
| Service.ImportedRows | jones/SMS_v2/src/main/java/com/sms2/service/StudentService.java:77-78 | each success is a checked row whose id was not in the table before, and it is stored under that id |
| Service.ImportTable | jones/SMS_v2/src/main/java/com/sms2/service/StudentService.java:77-78 | after the import, the table holds exactly the old ids plus the ids of the successful rows |
| Service.ImportNewKey | jones/SMS_v2/src/main/java/com/sms2/service/StudentService.java:77-78 | every id the import adds comes from a successful row |
| Service.StudentService.constructor | jones/SMS_v2/src/main/java/com/sms2/service/StudentService.java:16-19 | the service works on the repository it is given |
| Service.StudentService.AddStudent | jones/SMS_v2/src/main/java/com/sms2/service/StudentService.java:21-29 | validation errors come back unchanged and leave the table alone. A duplicate id gives the single duplicate message and leaves the table alone. Otherwise no error, and the student is stored with today's date |
| Service.StudentService.UpdateStudent | jones/SMS_v2/src/main/java/com/sms2/service/StudentService.java:31-37 | validation errors come back unchanged; there is no uniqueness check. An absent id gives "Failed to update. Record may not exist." and no change. Otherwise the row is overwritten and keeps its date added |
| Service.StudentService.DeleteStudent | jones/SMS_v2/src/main/java/com/sms2/service/StudentService.java:39-44 | removes just that id; true iff it was stored |
| Service.StudentService.FindById | jones/SMS_v2/src/main/java/com/sms2/service/StudentService.java:46 | the repository's answer: found iff stored, under that id |
| Service.StudentService.GetAllStudents | jones/SMS_v2/src/main/java/com/sms2/service/StudentService.java:47 | every stored student once, ordered by full name |
| Service.StudentService.SearchStudents | jones/SMS_v2/src/main/java/com/sms2/service/StudentService.java:48 | exactly the stored students matching the query, each once |
| Service.StudentService.FilterStudents | jones/SMS_v2/src/main/java/com/sms2/service/StudentService.java:49 | exactly the stored students meeting every criterion, each once, ordered by full name |
| Service.StudentService.GetAllProgrammes | jones/SMS_v2/src/main/java/com/sms2/service/StudentService.java:50 | each stored programme once, ascending |
| Service.StudentService.ImportRow | jones/SMS_v2/src/main/java/com/sms2/service/StudentService.java:73-79 | one data row: a failed parse, validation messages or a duplicate id each add one tagged error; otherwise the student is stored and one success is counted |
| Service.StudentService.ImportAll | jones/SMS_v2/src/main/java/com/sms2/service/StudentService.java:70-80 | the loop leaves the table and the result that the row-by-row import function defines, with the error count kept equal to the error list's length |
| Service.StudentService.ImportFromCsv | jones/SMS_v2/src/main/java/com/sms2/service/StudentService.java:65-87 | an unreadable file gives one "Cannot read file" error, no success and no change. Otherwise every non-blank data row is imported as above, and when there are errors the report lines are `Row,Error` and the escaped errors |
| Service.StudentService.GetSortedByGpa | jones/SMS_v2/src/main/java/com/sms2/service/StudentService.java:52-57 | a permutation of the input, sorted by GPA ascending or descending, with equal GPAs in input order; the input list is a value and stays as it was |
| Service.StudentService.GetSortedByName | jones/SMS_v2/src/main/java/com/sms2/service/StudentService.java:59-63 | a permutation of the input, sorted by full name ignoring case, and stable |
| Reports.Where | jones/SMS_v2/src/main/java/com/sms2/service/ReportService.java:11-12 | a stream filter keeps exactly the copies of each element the predicate accepts |
| Reports.Candidates | jones/SMS_v2/src/main/java/com/sms2/service/ReportService.java:11-12 | every candidate is an input student that matches the programme (ignoring case, blank meaning any) and the level (absent meaning any) |
| Reports.TopPerformers | jones/SMS_v2/src/main/java/com/sms2/service/ReportService.java:9-15 | no result iff topN is negative. Otherwise min(topN, number of matches) students, each an input student that matches both filters; all the matches when topN is large enough |
| Reports.TopPerformersSorted | jones/SMS_v2/src/main/java/com/sms2/service/ReportService.java:13 | the top performers are in descending GPA order |
| Reports.TopPerformersStable | jones/SMS_v2/src/main/java/com/sms2/service/ReportService.java:13-14 | students of equal GPA among the top performers keep their input order; they are a prefix of the tied matches |
| Reports.TopPerformersAreTop | jones/SMS_v2/src/main/java/com/sms2/service/ReportService.java:13-14 | a match left out has a GPA no higher than that of any student chosen |
| Reports.AtRisk | jones/SMS_v2/src/main/java/com/sms2/service/ReportService.java:17-20 | exactly the students with GPA below the threshold, with their multiplicities |
| Reports.AtRiskSorted | jones/SMS_v2/src/main/java/com/sms2/service/ReportService.java:19 | the at-risk list is in ascending GPA order |
| Reports.AtRiskStable | jones/SMS_v2/src/main/java/com/sms2/service/ReportService.java:19 | students of equal GPA keep the order the filter gave them |
| Reports.BandOf | jones/SMS_v2/src/main/java/com/sms2/service/ReportService.java:26-30 | every GPA falls in one of the four bands: below 1, below 2, below 3, and the rest |
| Reports.BandsPartition | jones/SMS_v2/src/main/java/com/sms2/service/ReportService.java:26-30 | a GPA lies in a band iff that band is the one `getGpaDistribution` counts it in |
| Reports.BandCountsSum | jones/SMS_v2/src/main/java/com/sms2/service/ReportService.java:22-33 | the four band counts add up to the number of students |
| Reports.GpaDistribution | jones/SMS_v2/src/main/java/com/sms2/service/ReportService.java:22-33 | the loop yields the four labelled bands in fixed order, each with the number of students in it |
| Reports.AverageGpa | jones/SMS_v2/src/main/java/com/sms2/service/ReportService.java:43-46 | 0.0 for no students; otherwise the average times the count is the sum of the GPAs |
| Reports.AverageBetween | jones/SMS_v2/src/main/java/com/sms2/service/ReportService.java:43-46 | the average lies between any lower and upper bounds of the GPAs |
| Reports.CountStatus | jones/SMS_v2/src/main/java/com/sms2/service/ReportService.java:48-54 | a status count never exceeds the number of students |
| Reports.ActivePlusInactive | jones/SMS_v2/src/main/java/com/sms2/service/ReportService.java:48-54 | `countActive + countInactive` equals the number of students |
| Reports.Programmes | jones/SMS_v2/src/main/java/com/sms2/service/ReportService.java:36 | the grouping's keys are exactly the programmes the students have |
| Reports.ProgrammesDistinct | jones/SMS_v2/src/main/java/com/sms2/service/ReportService.java:36 | each programme is a key once |
| Reports.PutAll | jones/SMS_v2/src/main/java/com/sms2/service/ReportService.java:38-39 | the `forEach` loop puts one entry per group: its size and its average GPA |
| Reports.ProgrammeSummary | jones/SMS_v2/src/main/java/com/sms2/service/ReportService.java:35-41 | the summary is that of the programme groups of the students |
| Reports.SummaryCounts | jones/SMS_v2/src/main/java/com/sms2/service/ReportService.java:35-41 | one entry per distinct programme, and the entries' counts add up to the number of students |

## Left out

- The JavaFX controllers, `MainApp`, `AppLogger` and the connection handling of `DatabaseManager` are not part of this model. Only the table's schema constraints are used. Every log call is a no-op.
- The `StudentRepository` interface and its SQLite implementation are one class, `Repository.StudentRepository`. It has the interface's nine operations and the behaviour of the SQL statements.
- JDBC failures: a `SQLException` would give false, an empty `Optional` or an empty list, and the model never raises one. For the same reason the `SaveFailed` branch of `addStudent` can never be taken here.
- Repository.StudentRepository.Search: `LIKE` is case-insensitive containment over ASCII. The `%`/`_` wildcards inside a query and SQLite's Unicode case rules are not modelled.
- Repository.StudentRepository.FindAll: "ordered by full name" uses the binary collation. SQLite's order among rows with equal names is left open.
- Repository.StudentRepository.Filter: the same order among equal names is left open.
- File I/O: `readCsv` works on the file's lines. An `IOException` is the `ReadFailed` outcome, carrying its message. A file that is written or exported is the list of its lines. `exportAllToCsv` and `exportListToCsv` are that list, built by `Csv.ExportStudents` from `findAll` or from the given list; paths, directories and writers are left out, and so is a failure to write the error report.
- Java `null` strings are the empty string. `esc(null)` is therefore `esc("")`, which is `""`, and a blank check cannot tell them apart.
- `isBlank` uses `Character.isWhitespace` restricted to ASCII. `trim` removes the characters up to U+0020, as Java's does. `[A-Za-z0-9]` and `\d` are the ASCII letters and digits. Java's Unicode whitespace and Unicode digits, and `.` not matching line terminators, are not modelled.
- `toUpperCase`, `equalsIgnoreCase` and `CASE_INSENSITIVE_ORDER` map only the ASCII letters.
- Numbers.ParseDouble: only plain decimal text with an optional sign is modelled. Exponents, hexadecimal, `NaN`, `Infinity`, the `d`/`f` suffixes and leading or trailing whitespace are not.
- GPA is an exact real, not an IEEE-754 double. `%.2f` rounds the exact value half-up and writes a `.` whatever the locale.
- Numbers.Fixed2RoundTrip and Service.ExportedRowParses hold only for GPAs with at most two decimals, since `%.2f` rounds anything else.
- Dates.DateRoundTrip: `LocalDate.parse` is modelled for four-digit years only. Years outside 0-9999, which `toString` writes with a sign or more digits, are not read back.
- The exception messages of `parseRow` reproduce those of the JDK for the cases modelled. The JDK may add text to the number and date messages, which is not modelled.
- Reports.TopPerformers: for a negative `topN`, `Stream.limit` throws `IllegalArgumentException`. The model returns `None` instead of an exception.
- `getProgrammeSummary` returns a `double[]` pair of count and average. Here the count is a natural number and the average a real. The order of entries in `LinkedHashMap` (the grouping's order) is not modelled: the summary is a map.
- `getGpaDistribution` returns a `LinkedHashMap` of `Long` counts. It is modelled as a list of (label, count) pairs in insertion order, with unbounded counts.
- The `int` counters of `ImportResult` and a row number beyond 2^31 are unbounded; overflow is not modelled.
- The return value of `repo.add` that `importFromCsv` ignores is discarded the same way. In the model, where a GPA is a real number, that `add` cannot fail after the id check: this is the content of `Service.ValidIsAccepted`.
- Service.ValidIsAccepted: holds for the real-valued GPAs of the model only. In the source, `Double.parseDouble("NaN")` passes `validateGpa`, since both comparisons with NaN are false (ValidationService.java:42). SQLite stores NaN as NULL, so the `gpa REAL NOT NULL` column (DatabaseManager.java:28) makes `add` fail, and the row is still counted as imported (StudentService.java:78). The model has no NaN, so it does not have this path.
- Repository.StudentRepository.Add and Repository.StudentRepository.Update: a Java `null` text field is `""` here. In the source, the NOT NULL constraints on `full_name`, `programme`, `email` and `phone_number` (DatabaseManager.java:25-26, 29-30) make a direct `add` or `update` of such a student fail; in the model it succeeds. Every path through `StudentService` validates first and rejects both `null` and `""`.
- Text is a sequence of Unicode code points. Three things differ for text outside the Basic Multilingual Plane or with non-ASCII digits. First, Java's `length()` counts UTF-16 code units, so the length rules (ValidationService.java:23, 29 and 53) see "😀" as length 2 where the model sees 1. Second, `CASE_INSENSITIVE_ORDER` compares UTF-16 code units, which orders supplementary characters differently from code points. Third, `Integer.parseInt` accepts any Unicode decimal digit through `Character.digit` (for example "٣٠٠" is 300), while `Numbers.ParseInt` returns `None` for it.
- Domain.Student.constructor: `LocalDate.now()` is the `today` parameter. Fields the Java constructor leaves `null` or zero are `""` and `0`.
- Csv.Esc: its contract states the identity case, the wrapping in quotes and the quote parity. The exact content between the quotes is stated by `Csv.DoubleQuotes` and by what parsing it gives back (`Csv.RawFieldsOfEsc`).
- Lists of `Student` objects are lists of `StudentRecord` values. The rows a query returns are fresh objects anyway. Because of this, the model does not cover aliasing between a list passed to the service and the objects in it.
