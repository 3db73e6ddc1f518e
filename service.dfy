/** `StudentService`: validated writes to the repository, the sorted views,
    and the batch import of a student file with its per-row outcomes. */
module Service {
  import opened Wrappers
  import opened Strings
  import opened Numbers
  import opened Dates
  import opened Domain
  import opened Validation
  import opened Csv
  import opened Ordering
  import opened Repository

  const NotEnoughColumns := "Not enough columns"
  const SaveFailed := "Failed to save. Please try again."
  const UpdateFailed := "Failed to update. Record may not exist."

  function DuplicateMessage(id: string): string
  {
    "Student ID '" + id + "' already exists."
  }

  // The messages of the exceptions `parseRow` can raise.

  /** `NumberFormatException` of `Integer.parseInt`. */
  function IntError(t: string): string
  {
    "For input string: \"" + t + "\""
  }

  /** `NumberFormatException` of `Double.parseDouble`. */
  function DoubleError(t: string): string
  {
    if t == "" then "empty String" else "For input string: \"" + t + "\""
  }

  /** `DateTimeParseException` of `LocalDate.parse`. */
  function DateError(t: string): string
  {
    "Text '" + t + "' could not be parsed"
  }

  /** `IllegalArgumentException` of `StudentStatus.valueOf`. */
  function StatusError(name: string): string
  {
    "No enum constant com.sms2.domain.Student.StudentStatus." + name
  }

  /** The date column: empty means today, otherwise `LocalDate.parse`. */
  function RowDate(dateText: string, today: Date): Option<Date>
  {
    if dateText == "" then Some(today) else ParseDate(dateText)
  }

  /** The optional status column: absent or blank leaves ACTIVE, otherwise
      `valueOf` of its trimmed, upper-cased text. */
  function RowStatus(r: seq<string>): Result<Status, string>
  {
    if |r| > 8 && !IsBlank(r[8]) then
      var name := Upper(Trim(r[8]));
      match StatusValueOf(name)
      case None => Failure(StatusError(name))
      case Some(st) => Success(st)
    else Success(Active)
  }

  /** What `parseRow(r)` builds, or the message of the exception it throws. */
  function RowRecord(r: seq<string>, today: Date): (res: Result<StudentRecord, string>)
    ensures |r| < 8 <==> res == Failure(NotEnoughColumns)
    ensures res.Success? ==>
      && IsTrimmed(res.value.studentId) && IsTrimmed(res.value.fullName) && IsTrimmed(res.value.programme)
      && IsTrimmed(res.value.email) && IsTrimmed(res.value.phoneNumber)
      && Int32Min <= res.value.level <= Int32Max
  {
    if |r| < 8 then Failure(NotEnoughColumns)
    else
      match ParseInt(Trim(r[3]))
      case None => Failure(IntError(Trim(r[3])))
      case Some(level) =>
        match ParseDouble(Trim(r[4]))
        case None => Failure(DoubleError(Trim(r[4])))
        case Some(gpa) =>
          match RowDate(Trim(r[7]), today)
          case None => Failure(DateError(Trim(r[7])))
          case Some(date) =>
            match RowStatus(r)
            case Failure(m) => Failure(m)
            case Success(st) =>
              Success(StudentRecord(Trim(r[0]), Trim(r[1]), Trim(r[2]), level, gpa,
                                    Trim(r[5]), Trim(r[6]), date, st))
  }

  /** `parseRow`: a new student filled in through its setters; a column that
      does not parse ends the row with that exception's message. */
  method ParseRow(r: seq<string>, today: Date) returns (s: Student, failure: Option<string>)
    ensures fresh(s)
    ensures failure.None? ==> RowRecord(r, today) == Success(s.Value())
    ensures failure.Some? ==> RowRecord(r, today) == Failure(failure.value)
  {
    s := new Student(today);
    if |r| < 8 {
      return s, Some(NotEnoughColumns);
    }
    s.SetStudentId(Trim(r[0]));
    s.SetFullName(Trim(r[1]));
    s.SetProgramme(Trim(r[2]));
    var level := ParseInt(Trim(r[3]));
    if level.None? {
      return s, Some(IntError(Trim(r[3])));
    }
    s.SetLevel(level.value);
    var gpa := ParseDouble(Trim(r[4]));
    if gpa.None? {
      return s, Some(DoubleError(Trim(r[4])));
    }
    s.SetGpa(gpa.value);
    s.SetEmail(Trim(r[5]));
    s.SetPhoneNumber(Trim(r[6]));
    var dateText := Trim(r[7]);
    if dateText == "" {
      s.SetDateAdded(today);
    } else {
      var date := ParseDate(dateText);
      if date.None? {
        return s, Some(DateError(dateText));
      }
      s.SetDateAdded(date.value);
    }
    if |r| > 8 && !IsBlank(r[8]) {
      var name := Upper(Trim(r[8]));
      var st := StatusValueOf(name);
      if st.None? {
        return s, Some(StatusError(name));
      }
      s.SetStatus(st.value);
    }
    failure := None;
  }

  // What `parseRow` promises.

  /** A row of fewer than eight columns is rejected before anything is read. */
  lemma ShortRowRejected(r: seq<string>, today: Date)
    requires |r| < 8
    ensures RowRecord(r, today) == Failure(NotEnoughColumns)
  {
  }

  /** The text columns are taken trimmed and the numbers parsed from the
      trimmed text. */
  lemma ParsedRowColumns(r: seq<string>, today: Date)
    requires RowRecord(r, today).Success?
    ensures var rec := RowRecord(r, today).value;
      && |r| >= 8
      && rec.studentId == Trim(r[0]) && rec.fullName == Trim(r[1]) && rec.programme == Trim(r[2])
      && rec.email == Trim(r[5]) && rec.phoneNumber == Trim(r[6])
      && Some(rec.level) == ParseInt(Trim(r[3])) && Some(rec.gpa) == ParseDouble(Trim(r[4]))
      && Some(rec.dateAdded) == RowDate(Trim(r[7]), today) && Success(rec.status) == RowStatus(r)
  {
  }

  /** A parsed row whose date column is empty was added today. */
  lemma EmptyDateIsToday(r: seq<string>, today: Date)
    requires RowRecord(r, today).Success? && Trim(r[7]) == ""
    ensures RowRecord(r, today).value.dateAdded == today
  {
  }

  /** A parsed row whose status column is missing or blank is ACTIVE. */
  lemma MissingStatusIsActive(r: seq<string>, today: Date)
    requires RowRecord(r, today).Success? && (|r| <= 8 || IsBlank(r[8]))
    ensures RowRecord(r, today).value.status == Active
  {
  }

  /** A status column that names neither status, even after upper-casing,
      makes the row an error. */
  lemma UnknownStatusRejected(r: seq<string>, today: Date)
    requires |r| > 8 && !IsBlank(r[8]) && StatusValueOf(Upper(Trim(r[8]))).None?
    ensures RowStatus(r) == Failure(StatusError(Upper(Trim(r[8])))) && RowRecord(r, today).Failure?
  {
  }

  /** The record of a row whose text columns are trimmed and whose number,
      date and status columns parse. */
  lemma RowFromColumns(rec: StudentRecord, today: Date, lv: string, gp: string, dt: string, st: string)
    requires IsTrimmed(rec.studentId) && IsTrimmed(rec.fullName) && IsTrimmed(rec.programme)
    requires IsTrimmed(rec.email) && IsTrimmed(rec.phoneNumber)
    requires IsTrimmed(lv) && ParseInt(lv) == Some(rec.level)
    requires IsTrimmed(gp) && ParseDouble(gp) == Some(rec.gpa)
    requires IsTrimmed(dt) && dt != "" && ParseDate(dt) == Some(rec.dateAdded)
    requires !IsBlank(st) && StatusValueOf(Upper(Trim(st))) == Some(rec.status)
    ensures RowRecord([rec.studentId, rec.fullName, rec.programme, lv, gp, rec.email, rec.phoneNumber, dt, st], today)
         == Success(rec)
  {
    TrimTrimmed(rec.studentId);
    TrimTrimmed(rec.fullName);
    TrimTrimmed(rec.programme);
    TrimTrimmed(rec.email);
    TrimTrimmed(rec.phoneNumber);
    TrimTrimmed(lv);
    TrimTrimmed(gp);
    TrimTrimmed(dt);
    var r := [rec.studentId, rec.fullName, rec.programme, lv, gp, rec.email, rec.phoneNumber, dt, st];
    assert RowStatus(r) == Success(rec.status) by { assert |r| > 8 && r[8] == st; }
  }

  /** `toUpperCase` leaves a status name as it is. */
  lemma StatusNameUpper(st: Status)
    ensures Upper(StatusName(st)) == StatusName(st)
  {
    var n := StatusName(st);
    assert forall i :: 0 <= i < |n| ==> 'A' <= n[i] <= 'Z';
  }

  /** The status column is not blank and names its status again. */
  lemma StatusColumn(st: Status)
    ensures !IsBlank(StatusName(st)) && StatusValueOf(Upper(Trim(StatusName(st)))) == Some(st)
  {
    StatusTextIsPlain(st);
    PlainIsClean(StatusName(st));
    TrimTrimmed(StatusName(st));
    StatusNameUpper(st);
    assert StatusName(st)[0] != ' ';
  }

  /** The level column is trimmed and parses back to the level. */
  lemma LevelColumn(n: int)
    requires Int32Min <= n <= Int32Max
    ensures IsTrimmed(IntToString(n)) && ParseInt(IntToString(n)) == Some(n)
  {
    IntTextIsPlain(n);
    IntRoundTrip(n);
    PlainIsClean(IntToString(n));
  }

  /** The GPA column is trimmed and parses back to the GPA. */
  lemma GpaColumn(x: real)
    requires IsHundredths(x)
    ensures IsTrimmed(Fixed2(x)) && ParseDouble(Fixed2(x)) == Some(x)
  {
    GpaTextIsPlain(x);
    Fixed2RoundTrip(x);
    PlainIsClean(Fixed2(x));
  }

  /** The date column is trimmed, not empty, and parses back to the date. */
  lemma DateColumn(d: Date)
    requires ValidDate(d) && 0 <= d.year <= 9999
    ensures IsTrimmed(FormatDate(d)) && FormatDate(d) != "" && ParseDate(FormatDate(d)) == Some(d)
  {
    DateTextIsPlain(d);
    DateRoundTrip(d);
    PlainIsClean(FormatDate(d));
  }

  /** The exported columns parse into the record they came from. */
  lemma ExportedColumnsParse(rec: StudentRecord, today: Date)
    requires IsTrimmed(rec.studentId) && IsTrimmed(rec.fullName) && IsTrimmed(rec.programme)
    requires IsTrimmed(rec.email) && IsTrimmed(rec.phoneNumber)
    requires Int32Min <= rec.level <= Int32Max
    requires IsHundredths(rec.gpa)
    requires ValidDate(rec.dateAdded) && 0 <= rec.dateAdded.year <= 9999
    ensures RowRecord(StudentColumns(rec), today) == Success(rec)
  {
    LevelColumn(rec.level);
    GpaColumn(rec.gpa);
    DateColumn(rec.dateAdded);
    StatusColumn(rec.status);
    RowFromColumns(rec, today, IntToString(rec.level), Fixed2(rec.gpa), FormatDate(rec.dateAdded),
                   StatusName(rec.status));
  }

  /** A student exported by `exportStudents` is read back by `parseRow` as the
      same record, when its text columns are trimmed and hold no quote, its GPA
      has at most two decimals and its date a four-digit year. */
  lemma ExportedRowParses(rec: StudentRecord, today: Date)
    requires Clean(rec.studentId) && Clean(rec.fullName) && Clean(rec.programme)
    requires Clean(rec.email) && Clean(rec.phoneNumber)
    requires Int32Min <= rec.level <= Int32Max
    requires IsHundredths(rec.gpa)
    requires ValidDate(rec.dateAdded) && 0 <= rec.dateAdded.year <= 9999
    ensures RowRecord(ParsedFields(StudentLine(rec)), today) == Success(rec)
  {
    ExportedLineSplits(rec);
    ExportedColumnsParse(rec, today);
  }

  // The batch import.

  /** `readCsv` either produced the file's lines or failed with a message. */
  datatype ReadOutcome = Lines(lines: seq<string>) | ReadFailed(reason: string)

  /** What one data row contributed: a stored student, or an error entry. */
  datatype RowOutcome = Imported(record: StudentRecord) | Rejected(message: string)

  function RowTag(n: int): string
  {
    "Row " + IntToString(n) + ": "
  }

  /** A parsed row that passes validation, or the message its row reports:
      the exception's, or the validation messages joined by `; `. */
  function CheckRow(r: seq<string>, today: Date): (c: Result<StudentRecord, string>)
    ensures c.Success? <==> RowRecord(r, today).Success? && ValidRecord(RowRecord(r, today).value)
    ensures c.Success? || RowRecord(r, today).Failure? ==> c == RowRecord(r, today)
  {
    match RowRecord(r, today)
    case Failure(m) => Failure(m)
    case Success(rec) =>
      NoMessagesIffValid(rec);
      if Messages(rec) != [] then Failure(Join(Messages(rec), "; ")) else Success(rec)
  }

  function CheckAll(rows: seq<seq<string>>, today: Date): (r: seq<Result<StudentRecord, string>>)
    ensures |r| == |rows| && forall k :: 0 <= k < |rows| ==> r[k] == CheckRow(rows[k], today)
  {
    seq(|rows|, k requires 0 <= k < |rows| => CheckRow(rows[k], today))
  }

  lemma CheckRowFailed(r: seq<string>, today: Date, m: string)
    requires RowRecord(r, today) == Failure(m)
    ensures CheckRow(r, today) == Failure(m)
  {
  }

  lemma CheckRowParsed(r: seq<string>, today: Date, rec: StudentRecord)
    requires RowRecord(r, today) == Success(rec)
    ensures CheckRow(r, today) == if Messages(rec) != [] then Failure(Join(Messages(rec), "; ")) else Success(rec)
  {
  }

  /** The loop body of `importFromCsv` for data row number `n` against table `t`:
      a checked row with a new id is stored, any other row is an error. */
  function RowOutcomeOf(t: map<string, StudentRecord>, c: Result<StudentRecord, string>, n: int): RowOutcome
  {
    match c
    case Failure(m) => Rejected(RowTag(n) + m)
    case Success(rec) =>
      if rec.studentId in t then Rejected(RowTag(n) + "Duplicate ID '" + rec.studentId + "'")
      else Imported(rec)
  }

  datatype ImportState = ImportState(table: map<string, StudentRecord>, outcomes: seq<RowOutcome>)

  /** The table and the row outcomes after importing the checked rows `cs`
      into `t`; the first data row is row 2, the header being row 1. */
  function ImportRows(t: map<string, StudentRecord>, cs: seq<Result<StudentRecord, string>>): (st: ImportState)
    ensures |st.outcomes| == |cs|
  {
    if |cs| == 0 then ImportState(t, [])
    else
      var prev := ImportRows(t, cs[..|cs| - 1]);
      var o := RowOutcomeOf(prev.table, cs[|cs| - 1], |cs| + 1);
      ImportState(if o.Imported? then prev.table[o.record.studentId := o.record] else prev.table,
                  prev.outcomes + [o])
  }

  function Successes(os: seq<RowOutcome>): nat
  {
    if |os| == 0 then 0 else Successes(os[..|os| - 1]) + (if os[|os| - 1].Imported? then 1 else 0)
  }

  function Errors(os: seq<RowOutcome>): seq<string>
  {
    if |os| == 0 then []
    else Errors(os[..|os| - 1]) + (if os[|os| - 1].Rejected? then [os[|os| - 1].message] else [])
  }

  /** Every row is counted exactly once: as a success or as an error. */
  lemma {:induction false} OutcomesCounted(os: seq<RowOutcome>)
    ensures Successes(os) + |Errors(os)| == |os|
  {
    if |os| > 0 {
      OutcomesCounted(os[..|os| - 1]);
    }
  }

  lemma ImportCounts(t: map<string, StudentRecord>, cs: seq<Result<StudentRecord, string>>)
    ensures var os := ImportRows(t, cs).outcomes;
      Successes(os) + |Errors(os)| == |cs|
  {
    OutcomesCounted(ImportRows(t, cs).outcomes);
  }

  /** Importing one more checked row. */
  lemma ImportStep(t: map<string, StudentRecord>, cs: seq<Result<StudentRecord, string>>, k: nat)
    requires k < |cs|
    ensures var prev := ImportRows(t, cs[..k]);
      var o := RowOutcomeOf(prev.table, cs[k], k + 2);
      && ImportRows(t, cs[..k + 1]).table == (if o.Imported? then prev.table[o.record.studentId := o.record] else prev.table)
      && ImportRows(t, cs[..k + 1]).outcomes == prev.outcomes + [o]
  {
    assert cs[..k + 1][..k] == cs[..k];
  }

  lemma OutcomesSnoc(os: seq<RowOutcome>, o: RowOutcome)
    ensures Successes(os + [o]) == Successes(os) + (if o.Imported? then 1 else 0)
    ensures Errors(os + [o]) == Errors(os) + (if o.Rejected? then [o.message] else [])
  {
    assert (os + [o])[..|os|] == os;
  }

  lemma OutcomeTagged(t: map<string, StudentRecord>, c: Result<StudentRecord, string>, n: int)
    ensures RowOutcomeOf(t, c, n).Rejected? ==> RowTag(n) <= RowOutcomeOf(t, c, n).message
  {
    var tag := RowTag(n);
    match c
    case Failure(m) =>
      assert (tag + m)[..|tag|] == tag;
    case Success(rec) =>
      var rest := "Duplicate ID '" + rec.studentId + "'";
      assert tag + "Duplicate ID '" + rec.studentId + "'" == tag + rest;
      assert (tag + rest)[..|tag|] == tag;
  }

  /** The error of data row `k` (zero-based) is tagged `Row k+2: `. */
  lemma {:induction false} ImportTags(t: map<string, StudentRecord>, cs: seq<Result<StudentRecord, string>>)
    ensures var os := ImportRows(t, cs).outcomes;
      forall k :: 0 <= k < |os| && os[k].Rejected? ==> RowTag(k + 2) <= os[k].message
  {
    if |cs| > 0 {
      var n := |cs| - 1;
      ImportTags(t, cs[..n]);
      ImportStep(t, cs, n);
      assert cs[..n + 1] == cs;
      var prev := ImportRows(t, cs[..n]);
      var o := RowOutcomeOf(prev.table, cs[n], n + 2);
      OutcomeTagged(prev.table, cs[n], n + 2);
      TagsSnoc(prev.outcomes, o);
    }
  }

  lemma TagsSnoc(os: seq<RowOutcome>, o: RowOutcome)
    requires forall k :: 0 <= k < |os| && os[k].Rejected? ==> RowTag(k + 2) <= os[k].message
    requires o.Rejected? ==> RowTag(|os| + 2) <= o.message
    ensures var os' := os + [o];
      forall k :: 0 <= k < |os'| && os'[k].Rejected? ==> RowTag(k + 2) <= os'[k].message
  {
    var os' := os + [o];
    forall k | 0 <= k < |os'| && os'[k].Rejected? ensures RowTag(k + 2) <= os'[k].message {
      if k < |os| {
        assert os'[k] == os[k];
      }
    }
  }

  /** Ids in the table stay keyed by themselves through an import. */
  lemma {:induction false} ImportKeepsKeys(t: map<string, StudentRecord>, cs: seq<Result<StudentRecord, string>>)
    requires forall id :: id in t ==> t[id].studentId == id
    ensures var t' := ImportRows(t, cs).table;
      forall id :: id in t' ==> t'[id].studentId == id
  {
    if |cs| > 0 {
      var n := |cs| - 1;
      ImportKeepsKeys(t, cs[..n]);
      ImportStep(t, cs, n);
      assert cs[..n + 1] == cs;
    }
  }

  /** The imported rows are added to the table and nothing it already held
      changes. */
  lemma {:induction false} ImportKeepsRows(t: map<string, StudentRecord>, cs: seq<Result<StudentRecord, string>>)
    ensures var st := ImportRows(t, cs);
      forall id :: id in t ==> id in st.table && st.table[id] == t[id]
  {
    if |cs| > 0 {
      var n := |cs| - 1;
      ImportKeepsRows(t, cs[..n]);
      ImportStep(t, cs, n);
      assert cs[..n + 1] == cs;
    }
  }

  /** A row counted as imported was a valid, new record, and the table holds it. */
  lemma {:induction false} ImportedRows(t: map<string, StudentRecord>, cs: seq<Result<StudentRecord, string>>)
    ensures var st := ImportRows(t, cs);
      forall k :: 0 <= k < |st.outcomes| && st.outcomes[k].Imported? ==>
        var rec := st.outcomes[k].record;
        cs[k] == Success(rec) && rec.studentId !in t && rec.studentId in st.table && st.table[rec.studentId] == rec
  {
    if |cs| > 0 {
      var n := |cs| - 1;
      var prev := ImportRows(t, cs[..n]);
      ImportedRows(t, cs[..n]);
      ImportKeepsRows(t, cs[..n]);
      ImportStep(t, cs, n);
      assert cs[..n + 1] == cs;
      var o := RowOutcomeOf(prev.table, cs[n], n + 2);
      var st := ImportRows(t, cs);
      forall k | 0 <= k < |st.outcomes| && st.outcomes[k].Imported?
        ensures var rec := st.outcomes[k].record;
          cs[k] == Success(rec) && rec.studentId !in t && rec.studentId in st.table && st.table[rec.studentId] == rec
      {
        if k < n {
          assert st.outcomes[k] == prev.outcomes[k];
          assert cs[..n][k] == cs[k];
        } else {
          assert st.outcomes[k] == o;
        }
      }
    }
  }

  /** The table after an import holds the old ids and the imported ones, and no others. */
  lemma {:induction false} ImportTable(t: map<string, StudentRecord>, cs: seq<Result<StudentRecord, string>>)
    ensures var st := ImportRows(t, cs);
      forall id :: id in st.table <==>
        id in t || exists k :: 0 <= k < |st.outcomes| && st.outcomes[k].Imported? && st.outcomes[k].record.studentId == id
  {
    var st := ImportRows(t, cs);
    ImportKeepsRows(t, cs);
    ImportedRows(t, cs);
    forall id | id in st.table
      ensures id in t || exists k :: 0 <= k < |st.outcomes| && st.outcomes[k].Imported? && st.outcomes[k].record.studentId == id
    {
      if id !in t {
        ImportNewKey(t, cs, id);
      }
    }
  }

  lemma {:induction false} ImportNewKey(t: map<string, StudentRecord>, cs: seq<Result<StudentRecord, string>>, id: string)
    requires id in ImportRows(t, cs).table && id !in t
    ensures var os := ImportRows(t, cs).outcomes;
      exists k :: 0 <= k < |os| && os[k].Imported? && os[k].record.studentId == id
  {
    var n := |cs| - 1;
    var prev := ImportRows(t, cs[..n]);
    ImportStep(t, cs, n);
    assert cs[..n + 1] == cs;
    var o := RowOutcomeOf(prev.table, cs[n], n + 2);
    var os := ImportRows(t, cs).outcomes;
    if id in prev.table {
      ImportNewKey(t, cs[..n], id);
      var k :| 0 <= k < |prev.outcomes| && prev.outcomes[k].Imported? && prev.outcomes[k].record.studentId == id;
      assert os[k] == prev.outcomes[k];
    } else {
      assert os[n] == o;
    }
  }

  /** The CHECK constraints of the table accept every record `validate` passes. */
  lemma ValidIsAccepted(r: StudentRecord)
    requires Messages(r) == []
    ensures SchemaAccepts(r)
  {
    NoMessagesIffValid(r);
  }

  class StudentService {
    const repo: StudentRepository

    constructor (repo: StudentRepository)
      ensures this.repo == repo
    {
      this.repo := repo;
    }

    /** `addStudent`: validation first, then the uniqueness of the id; a
        student that passes both is stamped with today's date and stored. */
    method AddStudent(s: Student, today: Date) returns (errors: seq<string>)
      requires repo.Valid()
      modifies s, repo
      ensures repo.Valid()
      ensures Messages(old(s.Value())) != [] ==>
        errors == Messages(old(s.Value())) && repo.table == old(repo.table) && s.Value() == old(s.Value())
      ensures Messages(old(s.Value())) == [] && old(s.studentId) in old(repo.table) ==>
        errors == [DuplicateMessage(old(s.studentId))] && repo.table == old(repo.table) && s.Value() == old(s.Value())
      ensures Messages(old(s.Value())) == [] && old(s.studentId) !in old(repo.table) ==>
        errors == [] && s.Value() == old(s.Value()).(dateAdded := today)
        && repo.table == old(repo.table)[s.studentId := s.Value()]
    {
      errors := Validate(s);
      if errors != [] {
        return;
      }
      var taken := repo.ExistsById(s.studentId);
      if taken {
        errors := errors + [DuplicateMessage(s.studentId)];
        return;
      }
      s.SetDateAdded(today);
      ValidIsAccepted(s.Value());
      var ok := repo.Add(s);
      if !ok {
        errors := errors + [SaveFailed];
      }
    }

    /** `updateStudent`: validation, then the update; no uniqueness check. */
    method UpdateStudent(s: Student) returns (errors: seq<string>)
      requires repo.Valid()
      modifies repo
      ensures repo.Valid()
      ensures Messages(s.Value()) != [] ==> errors == Messages(s.Value()) && repo.table == old(repo.table)
      ensures Messages(s.Value()) == [] && s.studentId !in old(repo.table) ==>
        errors == [UpdateFailed] && repo.table == old(repo.table)
      ensures Messages(s.Value()) == [] && s.studentId in old(repo.table) ==>
        errors == [] && repo.table == old(repo.table)[s.studentId := s.Value().(dateAdded := old(repo.table)[s.studentId].dateAdded)]
    {
      errors := Validate(s);
      if errors != [] {
        return;
      }
      ValidIsAccepted(s.Value());
      var ok := repo.Update(s);
      if !ok {
        errors := errors + [UpdateFailed];
      }
    }

    /** `deleteStudent`. */
    method DeleteStudent(id: string) returns (ok: bool)
      requires repo.Valid()
      modifies repo
      ensures repo.Valid()
      ensures ok <==> id in old(repo.table)
      ensures repo.table == old(repo.table) - {id}
    {
      ok := repo.Delete(id);
    }

    // The pass-throughs to the repository.

    function FindById(id: string): (r: Option<StudentRecord>)
      requires repo.Valid()
      reads repo
      ensures r.Some? <==> id in repo.table
      ensures r.Some? ==> r.value.studentId == id
    {
      repo.FindById(id)
    }

    method GetAllStudents() returns (list: seq<StudentRecord>)
      requires repo.Valid()
      ensures forall r :: multiset(list)[r] == if r in repo.table.Values then 1 else 0
      ensures Sorted(NameBinary, list)
    {
      list := repo.FindAll();
    }

    method SearchStudents(q: string) returns (list: seq<StudentRecord>)
      requires repo.Valid()
      ensures forall r :: multiset(list)[r] == if r in repo.table.Values && SearchMatches(q, r) then 1 else 0
    {
      list := repo.Search(q);
    }

    method FilterStudents(programme: string, level: Option<int>, status: string) returns (list: seq<StudentRecord>)
      requires repo.Valid()
      ensures forall r ::
        multiset(list)[r] == if r in repo.table.Values && FilterMatches(programme, level, status, r) then 1 else 0
      ensures Sorted(NameBinary, list)
    {
      list := repo.Filter(programme, level, status);
    }

    method GetAllProgrammes() returns (list: seq<string>)
      requires repo.Valid()
      ensures forall p :: p in list <==> exists id :: id in repo.table && repo.table[id].programme == p
      ensures StrictlyAscending(list)
    {
      list := repo.GetAllProgrammes();
    }

    /** One pass of the loop of `importFromCsv`, for data row number `n`. */
    method ImportRow(r: seq<string>, n: int, today: Date, result: ImportResult)
      requires repo.Valid() && result.Valid()
      modifies repo, result
      ensures repo.Valid() && result.Valid()
      ensures var o := RowOutcomeOf(old(repo.table), CheckRow(r, today), n);
        && repo.table == (if o.Imported? then old(repo.table)[o.record.studentId := o.record] else old(repo.table))
        && result.successCount == old(result.successCount) + (if o.Imported? then 1 else 0)
        && result.errors == old(result.errors) + (if o.Rejected? then [o.message] else [])
    {
      var s, failure := ParseRow(r, today);
      if failure.Some? {
        CheckRowFailed(r, today, failure.value);
        result.AddError(RowTag(n) + failure.value);
        return;
      }
      var errs := Validate(s);
      CheckRowParsed(r, today, s.Value());
      if errs != [] {
        result.AddError(RowTag(n) + Join(errs, "; "));
      } else {
        var taken := repo.ExistsById(s.studentId);
        if taken {
          result.AddError(RowTag(n) + "Duplicate ID '" + s.studentId + "'");
        } else {
          ValidIsAccepted(s.Value());
          var _ := repo.Add(s);
          result.IncrementSuccess();
        }
      }
    }

    /** The loop of `importFromCsv` over the parsed data rows. */
    method ImportAll(rows: seq<seq<string>>, today: Date, result: ImportResult)
      requires repo.Valid() && result.Valid() && result.successCount == 0 && result.errors == []
      modifies repo, result
      ensures repo.Valid() && result.Valid()
      ensures var st := ImportRows(old(repo.table), CheckAll(rows, today));
        && repo.table == st.table
        && result.successCount == Successes(st.outcomes) && result.errors == Errors(st.outcomes)
    {
      ghost var t0 := repo.table;
      ghost var cs := CheckAll(rows, today);
      var k := 0;
      while k < |rows|
        invariant 0 <= k <= |rows|
        invariant repo.Valid() && result.Valid()
        invariant var st := ImportRows(t0, cs[..k]);
          && repo.table == st.table
          && result.successCount == Successes(st.outcomes) && result.errors == Errors(st.outcomes)
      {
        ghost var prev := ImportRows(t0, cs[..k]);
        ImportRow(rows[k], k + 2, today, result);
        ImportStep(t0, cs, k);
        OutcomesSnoc(prev.outcomes, RowOutcomeOf(prev.table, cs[k], k + 2));
        k := k + 1;
      }
      assert cs[..k] == cs;
    }

    /** `importFromCsv`: one success or one tagged error per data row; a file
        that cannot be read gives a single error and changes nothing. When
        there are errors, their report is the second result. */
    method ImportFromCsv(source: ReadOutcome, today: Date) returns (result: ImportResult, report: Option<seq<string>>)
      requires repo.Valid()
      modifies repo
      ensures repo.Valid()
      ensures fresh(result) && result.Valid()
      ensures source.ReadFailed? ==>
        && result.successCount == 0 && result.errors == ["Cannot read file: " + source.reason]
        && repo.table == old(repo.table) && report == None
      ensures source.Lines? ==>
        var st := ImportRows(old(repo.table), CheckAll(ParseAll(DataLines(source.lines)), today));
        && repo.table == st.table
        && result.successCount == Successes(st.outcomes) && result.errors == Errors(st.outcomes)
        && report == (if |result.errors| > 0 then Some([ErrorHeader] + EscAll(result.errors)) else None)
    {
      result := new ImportResult();
      report := None;
      if source.ReadFailed? {
        result.AddError("Cannot read file: " + source.reason);
        return;
      }
      var rows := ReadCsv(source.lines);
      ImportAll(rows, today, result);
      if result.errorCount > 0 {
        var lines := ExportErrors(result.errors);
        report := Some(lines);
      }
    }

    /** `getSortedByGpa`: a sorted copy, ascending or descending, in which
        students of equal GPA keep their order. */
    method GetSortedByGpa(list: seq<StudentRecord>, asc: bool) returns (s: seq<StudentRecord>)
      ensures var o := if asc then GpaAscending else GpaDescending;
        Sorted(o, s) && multiset(s) == multiset(list) && forall e :: Ties(o, e, s) == Ties(o, e, list)
    {
      var o := if asc then GpaAscending else GpaDescending;
      s := Sort(o, list);
      SortSorted(o, list);
      forall e ensures Ties(o, e, s) == Ties(o, e, list) {
        SortStable(o, e, list);
      }
    }

    /** `getSortedByName`: a copy sorted by full name ignoring case, stable. */
    method GetSortedByName(list: seq<StudentRecord>) returns (s: seq<StudentRecord>)
      ensures Sorted(NameIgnoringCase, s) && multiset(s) == multiset(list)
      ensures forall e :: Ties(NameIgnoringCase, e, s) == Ties(NameIgnoringCase, e, list)
    {
      s := Sort(NameIgnoringCase, list);
      SortSorted(NameIgnoringCase, list);
      forall e ensures Ties(NameIgnoringCase, e, s) == Ties(NameIgnoringCase, e, list) {
        SortStable(NameIgnoringCase, e, list);
      }
    }
  }
}
