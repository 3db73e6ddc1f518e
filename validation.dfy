/** `ValidationService`: seven per-field checks append their messages, in a
    fixed order, to one list. A failed required-field check ends the checks of
    that field; the other checks of a field are independent of each other. */
module Validation {
  import opened Strings
  import opened Domain
  import opened Dates

  const IdRequired := "Student ID is required."
  const IdLength := "Student ID must be 4\U{2013}20 characters."
  const IdCharset := "Student ID must contain only letters and digits."
  const NameRequired := "Full name is required."
  const NameLength := "Full name must be 2\U{2013}60 characters."
  const NameDigits := "Full name must not contain digits."
  const ProgrammeRequired := "Programme is required."
  const LevelInvalid := "Level must be one of: 100,200,300,400,500,600,700."
  const GpaRange := "GPA must be between 0.0 and 4.0."
  const EmailRequired := "Email is required."
  const EmailFormat := "Email must contain '@' and '.'."
  const PhoneRequired := "Phone number is required."
  const PhoneDigits := "Phone number must contain digits only."
  const PhoneLength := "Phone must be 10\U{2013}15 digits."

  const ValidLevels: set<int> := {100, 200, 300, 400, 500, 600, 700}

  // The messages each check contributes.

  function IdMessages(id: string): seq<string>
  {
    if IsBlank(id) then [IdRequired]
    else
      (if |id| < 4 || |id| > 20 then [IdLength] else [])
      + (if !AllAlnum(id) then [IdCharset] else [])
  }

  function NameMessages(n: string): seq<string>
  {
    if IsBlank(n) then [NameRequired]
    else
      (if |n| < 2 || |n| > 60 then [NameLength] else [])
      + (if HasDigit(n) then [NameDigits] else [])
  }

  function ProgrammeMessages(p: string): seq<string>
  {
    if IsBlank(p) then [ProgrammeRequired] else []
  }

  function LevelMessages(l: int): seq<string>
  {
    if l !in ValidLevels then [LevelInvalid] else []
  }

  function GpaMessages(g: real): seq<string>
  {
    if g < 0.0 || g > 4.0 then [GpaRange] else []
  }

  function EmailMessages(em: string): seq<string>
  {
    if IsBlank(em) then [EmailRequired]
    else if '@' !in em || '.' !in em then [EmailFormat]
    else []
  }

  function PhoneMessages(ph: string): seq<string>
  {
    if IsBlank(ph) then [PhoneRequired]
    else
      (if !AllDigits(ph) then [PhoneDigits] else [])
      + (if |ph| < 10 || |ph| > 15 then [PhoneLength] else [])
  }

  /** What `validate` returns for a record: the seven checks in their fixed order. */
  function Messages(s: StudentRecord): seq<string>
  {
    IdMessages(s.studentId) + NameMessages(s.fullName) + ProgrammeMessages(s.programme)
      + LevelMessages(s.level) + GpaMessages(s.gpa) + EmailMessages(s.email)
      + PhoneMessages(s.phoneNumber)
  }

  /** The field constraints of a student record, stated independently of the checks. */
  ghost predicate ValidRecord(s: StudentRecord)
  {
    && 4 <= |s.studentId| <= 20 && AllAlnum(s.studentId)
    && !IsBlank(s.fullName) && 2 <= |s.fullName| <= 60 && !HasDigit(s.fullName)
    && !IsBlank(s.programme)
    && s.level in ValidLevels
    && 0.0 <= s.gpa <= 4.0
    && '@' in s.email && '.' in s.email
    && 10 <= |s.phoneNumber| <= 15 && AllDigits(s.phoneNumber)
  }

  // The checks, appending to the caller's list `e`.

  method ValidateStudentId(id: string, e: seq<string>) returns (e': seq<string>)
    ensures e' == e + IdMessages(id)
  {
    e' := e;
    if IsBlank(id) { e' := e' + [IdRequired]; return; }
    if |id| < 4 || |id| > 20 { e' := e' + [IdLength]; }
    if !AllAlnum(id) { e' := e' + [IdCharset]; }
  }

  method ValidateFullName(n: string, e: seq<string>) returns (e': seq<string>)
    ensures e' == e + NameMessages(n)
  {
    e' := e;
    if IsBlank(n) { e' := e' + [NameRequired]; return; }
    if |n| < 2 || |n| > 60 { e' := e' + [NameLength]; }
    if HasDigit(n) { e' := e' + [NameDigits]; }
  }

  method ValidateProgramme(p: string, e: seq<string>) returns (e': seq<string>)
    ensures e' == e + ProgrammeMessages(p)
  {
    e' := e;
    if IsBlank(p) { e' := e' + [ProgrammeRequired]; }
  }

  method ValidateLevel(l: int, e: seq<string>) returns (e': seq<string>)
    ensures e' == e + LevelMessages(l)
  {
    e' := e;
    if l !in ValidLevels { e' := e' + [LevelInvalid]; }
  }

  method ValidateGpa(g: real, e: seq<string>) returns (e': seq<string>)
    ensures e' == e + GpaMessages(g)
  {
    e' := e;
    if g < 0.0 || g > 4.0 { e' := e' + [GpaRange]; }
  }

  method ValidateEmail(em: string, e: seq<string>) returns (e': seq<string>)
    ensures e' == e + EmailMessages(em)
  {
    e' := e;
    if IsBlank(em) { e' := e' + [EmailRequired]; return; }
    if '@' !in em || '.' !in em { e' := e' + [EmailFormat]; }
  }

  method ValidatePhone(ph: string, e: seq<string>) returns (e': seq<string>)
    ensures e' == e + PhoneMessages(ph)
  {
    e' := e;
    if IsBlank(ph) { e' := e' + [PhoneRequired]; return; }
    if !AllDigits(ph) { e' := e' + [PhoneDigits]; }
    if |ph| < 10 || |ph| > 15 { e' := e' + [PhoneLength]; }
  }

  /** `validate(s)`: the messages of the seven checks, in order. */
  method Validate(s: Student) returns (e: seq<string>)
    ensures e == Messages(s.Value())
  {
    e := [];
    e := ValidateStudentId(s.studentId, e);
    assert e == IdMessages(s.studentId);
    e := ValidateFullName(s.fullName, e);
    e := ValidateProgramme(s.programme, e);
    e := ValidateLevel(s.level, e);
    e := ValidateGpa(s.gpa, e);
    e := ValidateEmail(s.email, e);
    e := ValidatePhone(s.phoneNumber, e);
  }

  /** `isValid(s)`: the record meets every field constraint. */
  method IsValid(s: Student) returns (b: bool)
    ensures b <==> ValidRecord(s.Value())
  {
    var e := Validate(s);
    b := e == [];
    NoMessagesIffValid(s.Value());
  }

  /** `isValidGpaThreshold(t)`. */
  function IsValidGpaThreshold(t: real): bool
  {
    t >= 0.0 && t <= 4.0
  }

  /** The threshold check accepts exactly the GPAs that validation accepts. */
  lemma ThresholdMatchesGpaCheck(t: real)
    ensures IsValidGpaThreshold(t) <==> GpaMessages(t) == []
  {
  }

  /** `validate` returns no message exactly when every field constraint holds. */
  lemma NoMessagesIffValid(s: StudentRecord)
    ensures Messages(s) == [] <==> ValidRecord(s)
  {
    if ValidRecord(s) {
      AlnumNotBlank(s.studentId);
      CharNotBlank(s.email, '@');
      AlnumNotBlank(s.phoneNumber);
      assert AllAlnum(s.phoneNumber);
    }
  }

  /** A blank id gives exactly the one required message; otherwise the length
      and charset messages appear independently, each exactly when its rule fails. */
  lemma IdChecks(id: string)
    ensures IsBlank(id) ==> IdMessages(id) == [IdRequired]
    ensures !IsBlank(id) ==> IdRequired !in IdMessages(id)
    ensures !IsBlank(id) ==> (IdLength in IdMessages(id) <==> |id| < 4 || |id| > 20)
    ensures !IsBlank(id) ==> (IdCharset in IdMessages(id) <==> !AllAlnum(id))
  {
  }

  /** The same shape for the full name: length 2-60, and no digit. */
  lemma NameChecks(n: string)
    ensures IsBlank(n) ==> NameMessages(n) == [NameRequired]
    ensures !IsBlank(n) ==> NameRequired !in NameMessages(n)
    ensures !IsBlank(n) ==> (NameLength in NameMessages(n) <==> |n| < 2 || |n| > 60)
    ensures !IsBlank(n) ==> (NameDigits in NameMessages(n) <==> HasDigit(n))
  {
  }

  /** The same shape for the phone number: digits only, and length 10-15. */
  lemma PhoneChecks(ph: string)
    ensures IsBlank(ph) ==> PhoneMessages(ph) == [PhoneRequired]
    ensures !IsBlank(ph) ==> PhoneRequired !in PhoneMessages(ph)
    ensures !IsBlank(ph) ==> (PhoneDigits in PhoneMessages(ph) <==> !AllDigits(ph))
    ensures !IsBlank(ph) ==> (PhoneLength in PhoneMessages(ph) <==> |ph| < 10 || |ph| > 15)
  {
  }

  /** A blank email gives the required message only; otherwise the format
      message appears exactly when `@` or `.` is missing. */
  lemma EmailChecks(em: string)
    ensures IsBlank(em) ==> EmailMessages(em) == [EmailRequired]
    ensures !IsBlank(em) ==> (EmailMessages(em) == [EmailFormat] <==> '@' !in em || '.' !in em)
    ensures !IsBlank(em) ==> (EmailMessages(em) == [] <==> '@' in em && '.' in em)
  {
  }

  /** Level is accepted exactly for 100, 200, ..., 700, and GPA exactly on [0, 4]. */
  lemma LevelAndGpaChecks(l: int, g: real)
    ensures LevelMessages(l) == [] <==> exists k :: 1 <= k <= 7 && l == 100 * k
    ensures GpaMessages(g) == [] <==> 0.0 <= g <= 4.0
  {
    if l in ValidLevels {
      assert l == 100 * (l / 100);
    }
  }

  /** The sample student STU001 / "Alice Smith" / CS / 300 / 3.5 / a@b.com / 0241234567 is valid. */
  lemma SampleStudentIsValid(today: Date)
    ensures Messages(StudentRecord("STU001", "Alice Smith", "CS", 300, 3.5, "a@b.com", "0241234567", today, Active)) == []
  {
    SampleIdPasses();
    SampleNamePasses();
    SamplePhonePasses();
    assert !IsWhitespace("CS"[0]);
    var em := "a@b.com";
    assert !IsWhitespace(em[0]) && em[1] == '@' && em[3] == '.';
  }

  lemma SampleIdPasses()
    ensures IdMessages("STU001") == []
  {
    var id := "STU001";
    forall i | 0 <= i < |id| ensures IsAsciiAlnum(id[i]) {
      assert id[i] in "STU001";
    }
    assert !IsWhitespace(id[0]);
  }

  lemma SampleNamePasses()
    ensures NameMessages("Alice Smith") == []
  {
    var name := "Alice Smith";
    forall i | 0 <= i < |name| ensures !IsDigit(name[i]) {
      assert name[i] in "Alice Smith";
    }
    assert !IsWhitespace(name[0]);
  }

  lemma SamplePhonePasses()
    ensures PhoneMessages("0241234567") == []
  {
    var phone := "0241234567";
    forall i | 0 <= i < |phone| ensures IsDigit(phone[i]) {
      assert phone[i] in "0241234567";
    }
    assert !IsWhitespace(phone[0]);
  }
}
