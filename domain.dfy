/** The roster's entities: the mutable `Student` record with its two-valued
    status, its value snapshot `StudentRecord`, and the `ImportResult` counter
    object of a batch import. A Java `null` string field is represented by the
    empty string, which every check of the roster treats the same way. */
module Domain {
  import opened Wrappers
  import opened Dates

  /** `Student.StudentStatus`: a status is always exactly one of the two. */
  datatype Status = Active | Inactive

  /** `StudentStatus.name()`. */
  function StatusName(s: Status): string
  {
    match s
    case Active => "ACTIVE"
    case Inactive => "INACTIVE"
  }

  /** `StudentStatus.valueOf(name)`: exact names only; anything else is an
      IllegalArgumentException. */
  function StatusValueOf(name: string): (r: Option<Status>)
    ensures r.Some? <==> name == StatusName(Active) || name == StatusName(Inactive)
    ensures r.Some? ==> StatusName(r.value) == name
  {
    if name == "ACTIVE" then Some(Active)
    else if name == "INACTIVE" then Some(Inactive)
    else None
  }

  /** `valueOf` inverts `name`. */
  lemma StatusNameRoundTrip(s: Status)
    ensures StatusValueOf(StatusName(s)) == Some(s)
  {
  }

  /** The nine fields of a student, as one value. */
  datatype StudentRecord = StudentRecord(
    studentId: string,
    fullName: string,
    programme: string,
    level: int,
    gpa: real,
    email: string,
    phoneNumber: string,
    dateAdded: Date,
    status: Status)

  /** The mutable `Student` object. */
  class Student {
    var studentId: string
    var fullName: string
    var programme: string
    var level: int
    var gpa: real
    var email: string
    var phoneNumber: string
    var dateAdded: Date
    var status: Status

    /** The current field values. */
    function Value(): StudentRecord
      reads this
    {
      StudentRecord(studentId, fullName, programme, level, gpa, email, phoneNumber, dateAdded, status)
    }

    /** `new Student()`: added today, ACTIVE, every other field unset. */
    constructor (today: Date)
      ensures Value() == StudentRecord("", "", "", 0, 0.0, "", "", today, Active)
    {
      studentId, fullName, programme := "", "", "";
      level, gpa := 0, 0.0;
      email, phoneNumber := "", "";
      dateAdded, status := today, Active;
    }

    /** `new Student(id, name, programme, level, gpa, email, phone)`: the seven
        given values, added today, and the default status ACTIVE. */
    constructor WithFields(today: Date, studentId: string, fullName: string, programme: string,
                           level: int, gpa: real, email: string, phoneNumber: string)
      ensures Value() == StudentRecord(studentId, fullName, programme, level, gpa, email, phoneNumber, today, Active)
    {
      this.studentId, this.fullName, this.programme := studentId, fullName, programme;
      this.level, this.gpa := level, gpa;
      this.email, this.phoneNumber := email, phoneNumber;
      this.dateAdded, this.status := today, Active;
    }

    // Each setter changes its own field and no other.

    method SetStudentId(v: string)
      modifies this
      ensures Value() == old(Value()).(studentId := v)
    {
      studentId := v;
    }

    method SetFullName(v: string)
      modifies this
      ensures Value() == old(Value()).(fullName := v)
    {
      fullName := v;
    }

    method SetProgramme(v: string)
      modifies this
      ensures Value() == old(Value()).(programme := v)
    {
      programme := v;
    }

    method SetLevel(v: int)
      modifies this
      ensures Value() == old(Value()).(level := v)
    {
      level := v;
    }

    method SetGpa(v: real)
      modifies this
      ensures Value() == old(Value()).(gpa := v)
    {
      gpa := v;
    }

    method SetEmail(v: string)
      modifies this
      ensures Value() == old(Value()).(email := v)
    {
      email := v;
    }

    method SetPhoneNumber(v: string)
      modifies this
      ensures Value() == old(Value()).(phoneNumber := v)
    {
      phoneNumber := v;
    }

    method SetDateAdded(v: Date)
      modifies this
      ensures Value() == old(Value()).(dateAdded := v)
    {
      dateAdded := v;
    }

    method SetStatus(v: Status)
      modifies this
      ensures Value() == old(Value()).(status := v)
    {
      status := v;
    }
  }

  /** The outcome of a batch import: successes, and the error messages with their count. */
  class ImportResult {
    var successCount: int
    var errorCount: int
    var errors: seq<string>

    /** The error count always tracks the error list. */
    ghost predicate Valid()
      reads this
    {
      successCount >= 0 && errorCount == |errors|
    }

    constructor ()
      ensures Valid()
      ensures successCount == 0 && errorCount == 0 && errors == []
    {
      successCount, errorCount, errors := 0, 0, [];
    }

    /** One more success; the errors are untouched. */
    method IncrementSuccess()
      requires Valid()
      modifies this
      ensures Valid()
      ensures successCount == old(successCount) + 1
      ensures errors == old(errors) && errorCount == old(errorCount)
    {
      successCount := successCount + 1;
    }

    /** Appends `error`; earlier entries and the success count are untouched. */
    method AddError(error: string)
      requires Valid()
      modifies this
      ensures Valid()
      ensures errors == old(errors) + [error] && errorCount == old(errorCount) + 1
      ensures successCount == old(successCount)
    {
      errors := errors + [error];
      errorCount := errorCount + 1;
    }
  }
}
