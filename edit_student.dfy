/**
 * The edit-student page: the admin-only entry check, loading a record into
 * the form, the per-keystroke change handler and the submit handler that
 * re-validates everything, adds the required-field checks and either blocks
 * with the collected errors or issues an update of the record.
 */
module EditStudent {
  import opened Wrappers
  import opened JsText
  import opened Validation
  import opened Records
  import opened Session

  const AllFields: set<Field> := {
    StudentName, RollNumber, Semester, DateOfBirth, EmailAddress, TotalClasses,
    ClassesAttended, Subject1Name, Subject1Marks, Subject2Name, Subject2Marks, OverallGrade
  }

  const NameRequiredMessage := "Student name is required"
  const RollRequiredMessage := "Roll number is required"
  const SemesterRequiredMessage := "Semester is required"

  // ---------------------------------------------------------------------------
  // Form state
  // ---------------------------------------------------------------------------

  /** The shape every form state has: an entry for each of the twelve fields,
      and no number in a field whose record type is text. */
  ghost predicate WellFormed(form: map<Field, FieldValue>) {
    && form.Keys == AllFields
    && forall f :: f in form && !IsNumericField(f) ==> !form[f].Num?
  }

  /** Typing text into any field keeps the form well formed. */
  lemma TextEntryKeepsShape(form: map<Field, FieldValue>, name: Field, value: string)
    requires WellFormed(form)
    ensures WellFormed(form[name := Text(value)])
  {
    assert name in AllFields;
  }

  /** `formData[key]`: `undefined` for a key the form does not hold. */
  function Entry(form: map<Field, FieldValue>, f: Field): FieldValue {
    if f in form then form[f] else Absent
  }

  /** The form before any record is loaded. */
  function InitialForm(): (form: map<Field, FieldValue>)
    ensures WellFormed(form)
  {
    map f | f in AllFields :: if IsNumericField(f) then Absent else Text("")
  }

  /** `value || ''` for a text field of the record. */
  function TextOrEmpty(v: Option<string>): FieldValue {
    Text(v.GetOr(""))
  }

  /** A number field of the record, kept as it is (`undefined` stays `undefined`). */
  function NumberOrAbsent(v: Option<int>): FieldValue {
    match v
    case None => Absent
    case Some(n) => Num(n)
  }

  /** The entry a loaded record gives field `f`; `isoDay` stands for the
      conversion of a stored date to its `yyyy-mm-dd` form. */
  function RecordEntry(r: StudentRecord, f: Field, isoDay: string -> string): (v: FieldValue)
    ensures v.Text? <==> !IsNumericField(f)
  {
    match f
    case StudentName => TextOrEmpty(r.studentName)
    case RollNumber => NumberOrAbsent(r.rollNumber)
    case Semester => TextOrEmpty(r.semester)
    case DateOfBirth =>
      if r.dateOfBirth.Some? && r.dateOfBirth.value != "" then Text(isoDay(r.dateOfBirth.value)) else Text("")
    case EmailAddress => TextOrEmpty(r.emailAddress)
    case TotalClasses => NumberOrAbsent(r.totalClasses)
    case ClassesAttended => NumberOrAbsent(r.classesAttended)
    case Subject1Name => TextOrEmpty(r.subject1Name)
    case Subject1Marks => NumberOrAbsent(r.subject1Marks)
    case Subject2Name => TextOrEmpty(r.subject2Name)
    case Subject2Marks => NumberOrAbsent(r.subject2Marks)
    case OverallGrade => TextOrEmpty(r.overallGrade)
  }

  /** The form filled from a loaded record: every field, text fields as text
      and number fields as numbers or `undefined`. */
  function FormOfRecord(r: StudentRecord, isoDay: string -> string): (form: map<Field, FieldValue>)
    ensures WellFormed(form)
    ensures forall f :: f in form && !IsNumericField(f) ==> form[f].Text?
    ensures forall f :: f in form && IsNumericField(f) ==> !form[f].Text?
  {
    map f | f in AllFields :: RecordEntry(r, f, isoDay)
  }

  // ---------------------------------------------------------------------------
  // Submission, as a function of the form
  // ---------------------------------------------------------------------------

  /** The rule errors of the fields in `keys`: each field whose
      `validateField` is not `''`, with its message. */
  function FieldErrors(form: map<Field, FieldValue>, keys: set<Field>): map<Field, string> {
    map f | f in keys && f in form && ValidateField(f, form[f], Entry(form, TotalClasses)) != ""
          :: ValidateField(f, form[f], Entry(form, TotalClasses))
  }

  /** `!value?.trim()`: `undefined`, or a string of whitespace only. A number has
      no `trim`; a well-formed form never holds one in the fields checked so. */
  predicate IsBlankEntry(v: FieldValue) {
    match v
    case Absent => true
    case Text(s) => Trim(s) == []
    case Num(_) => false
  }

  /** The required-field check that fails for `f`, if any. */
  predicate RequiredFails(form: map<Field, FieldValue>, f: Field) {
    || (f == StudentName && IsBlankEntry(Entry(form, StudentName)))
    || (f == RollNumber && !Truthy(Entry(form, RollNumber)))
    || (f == Semester && IsBlankEntry(Entry(form, Semester)))
  }

  function RequiredMessage(f: Field): string {
    if f == StudentName then NameRequiredMessage
    else if f == RollNumber then RollRequiredMessage
    else SemesterRequiredMessage
  }

  /** The required-field checks, applied after the rule errors: each
      overwrites whatever the rules said about its field. */
  function WithRequired(form: map<Field, FieldValue>, errs: map<Field, string>): map<Field, string> {
    var e1 := if RequiredFails(form, StudentName) then errs[StudentName := NameRequiredMessage] else errs;
    var e2 := if RequiredFails(form, RollNumber) then e1[RollNumber := RollRequiredMessage] else e1;
    if RequiredFails(form, Semester) then e2[Semester := SemesterRequiredMessage] else e2
  }

  /** Every error the submit handler collects. */
  function SubmitErrors(form: map<Field, FieldValue>): map<Field, string> {
    WithRequired(form, FieldErrors(form, form.Keys))
  }

  /** What `update` is called with: the editable fields of the record. A number
      field that is falsy is sent as `undefined`, otherwise as `Number(value)`. */
  datatype UpdatePayload = UpdatePayload(
    id: string,
    studentName: Option<string>,
    rollNumber: Option<JsNumber>,
    semester: Option<string>,
    dateOfBirth: Option<string>,
    emailAddress: Option<string>,
    totalClasses: Option<JsNumber>,
    classesAttended: Option<JsNumber>,
    subject1Name: Option<string>,
    subject1Marks: Option<JsNumber>,
    subject2Name: Option<string>,
    subject2Marks: Option<JsNumber>,
    overallGrade: Option<string>)

  /** A text entry passed on as it is. */
  function TextEntry(v: FieldValue): Option<string> {
    match v
    case Absent => None
    case Text(s) => Some(s)
    case Num(n) => Some(IntToString(n))
  }

  /** `value ? Number(value) : undefined`. */
  function NumberEntry(v: FieldValue): Option<JsNumber> {
    if Truthy(v) then Some(NumberOf(v)) else None
  }

  /** `value || undefined`. */
  function DateEntry(v: FieldValue): Option<string> {
    if Truthy(v) then TextEntry(v) else None
  }

  function BuildPayload(id: string, form: map<Field, FieldValue>): UpdatePayload {
    UpdatePayload(
      id,
      TextEntry(Entry(form, StudentName)),
      NumberEntry(Entry(form, RollNumber)),
      TextEntry(Entry(form, Semester)),
      DateEntry(Entry(form, DateOfBirth)),
      TextEntry(Entry(form, EmailAddress)),
      NumberEntry(Entry(form, TotalClasses)),
      NumberEntry(Entry(form, ClassesAttended)),
      TextEntry(Entry(form, Subject1Name)),
      NumberEntry(Entry(form, Subject1Marks)),
      TextEntry(Entry(form, Subject2Name)),
      NumberEntry(Entry(form, Subject2Marks)),
      TextEntry(Entry(form, OverallGrade)))
  }

  /** What a submission does: nothing without a record id; otherwise it is
      blocked by the collected errors, or it issues an update. */
  datatype SubmitOutcome = NoRecordId | Blocked(errors: map<Field, string>) | Update(payload: UpdatePayload)

  function SubmitResult(id: string, form: map<Field, FieldValue>): SubmitOutcome {
    if id == "" then NoRecordId
    else
      var errs := SubmitErrors(form);
      if errs != map[] then Blocked(errs) else Update(BuildPayload(id, form))
  }

  // ---------------------------------------------------------------------------
  // The page's admin-only entry check
  // ---------------------------------------------------------------------------

  datatype EditEntry = RedirectToDashboard | LoadRecordAction(id: string) | AwaitId

  /** On mount: anyone whose stored role is not `admin` is sent to the
      dashboard; an admin with a record id loads that record. */
  function EditGuard(items: map<string, string>, id: string): (r: EditEntry)
    ensures r.RedirectToDashboard? <==> UserRoleKey !in items || items[UserRoleKey] != "admin"
    ensures r.LoadRecordAction? ==> r.id == id && id != ""
  {
    if UserRoleKey !in items || items[UserRoleKey] != "admin" then RedirectToDashboard
    else if id != "" then LoadRecordAction(id)
    else AwaitId
  }

  // ---------------------------------------------------------------------------
  // The page's state
  // ---------------------------------------------------------------------------

  class StudentForm {
    /** The `:id` route parameter. */
    const id: string
    var formData: map<Field, FieldValue>
    var errors: map<Field, string>

    ghost predicate Valid()
      reads this
    {
      WellFormed(formData)
    }

    constructor (id: string)
      ensures this.id == id
      ensures formData == InitialForm() && errors == map[]
      ensures Valid()
    {
      this.id := id;
      var form := InitialForm();
      assert WellFormed(form);
      formData := form;
      errors := map[];
    }

    /** A record arrived from the collection: the form shows its values. */
    method LoadRecord(r: StudentRecord, isoDay: string -> string)
      requires Valid()
      modifies this`formData
      ensures Valid() && formData == FormOfRecord(r, isoDay)
    {
      formData := FormOfRecord(r, isoDay);
    }

    /** `handleChange`: the input `name` now holds `value`; only that entry of
        the form and that entry of the errors change. */
    method HandleChange(name: Field, value: string)
      requires Valid()
      modifies this`formData, this`errors
      ensures Valid()
      ensures formData == old(formData)[name := Text(value)]
      ensures errors == old(errors)[name := ValidateField(name, Text(value), Entry(old(formData), TotalClasses))]
    {
      var error := ValidateField(name, Text(value), Entry(formData, TotalClasses));
      TextEntryKeepsShape(formData, name, value);
      formData := formData[name := Text(value)];
      errors := errors[name := error];
    }

    /** `handleSubmit`: re-validates every entry, adds the required checks,
        and either replaces the errors (blocked) or builds the update. */
    method HandleSubmit() returns (outcome: SubmitOutcome)
      requires Valid()
      modifies this`errors
      ensures outcome == SubmitResult(id, formData)
      ensures errors == if outcome.Blocked? then outcome.errors else old(errors)
    {
      if id == "" {
        return NoRecordId;
      }
      var newErrors := CollectFieldErrors(formData);
      if RequiredFails(formData, StudentName) {
        newErrors := newErrors[StudentName := NameRequiredMessage];
      }
      if RequiredFails(formData, RollNumber) {
        newErrors := newErrors[RollNumber := RollRequiredMessage];
      }
      if RequiredFails(formData, Semester) {
        newErrors := newErrors[Semester := SemesterRequiredMessage];
      }
      if newErrors != map[] {
        errors := newErrors;
        return Blocked(newErrors);
      }
      return Update(BuildPayload(id, formData));
    }
  }

  /** `Object.keys(formData).forEach(...)`: runs `validateField` on every entry
      and keeps the non-empty messages. */
  method CollectFieldErrors(form: map<Field, FieldValue>) returns (newErrors: map<Field, string>)
    ensures newErrors == FieldErrors(form, form.Keys)
  {
    var total := Entry(form, TotalClasses);
    newErrors := map[];
    var pending := form.Keys;
    while pending != {}
      invariant pending <= form.Keys
      invariant newErrors == FieldErrors(form, form.Keys - pending)
      decreases pending
    {
      var key :| key in pending;
      var error := ValidateField(key, form[key], total);
      FieldErrorsInsert(form, form.Keys - pending, key);
      if error != "" {
        newErrors := newErrors[key := error];
      }
      assert form.Keys - (pending - {key}) == (form.Keys - pending) + {key};
      pending := pending - {key};
    }
    assert form.Keys - pending == form.Keys;
  }

  /** Adding one key to those already validated adds at most its own error. */
  lemma FieldErrorsInsert(form: map<Field, FieldValue>, done: set<Field>, key: Field)
    requires key in form && key !in done
    ensures var error := ValidateField(key, form[key], Entry(form, TotalClasses));
            FieldErrors(form, done + {key})
              == if error != "" then FieldErrors(form, done)[key := error] else FieldErrors(form, done)
  {
  }
}

/**
 * What submitting the edit form promises, stated over `SubmitResult`.
 */
module EditStudentProperties {
  import opened Wrappers
  import opened JsText
  import opened Validation
  import opened EditStudent

  lemma EveryFieldIsInTheForm(form: map<Field, FieldValue>, f: Field)
    requires WellFormed(form)
    ensures f in form
  {
    assert f in AllFields;
  }

  /** The collected errors are exactly the fields whose required check fails,
      with the required message, and the other fields whose rules reject
      them, with the rule's message. */
  lemma SubmitErrorsExactly(form: map<Field, FieldValue>, f: Field)
    requires WellFormed(form)
    ensures f in form
    ensures f in SubmitErrors(form) <==>
              RequiredFails(form, f) || CheckField(f, form[f], Entry(form, TotalClasses)).Some?
    ensures f in SubmitErrors(form) ==>
              SubmitErrors(form)[f] == if RequiredFails(form, f) then RequiredMessage(f)
                                       else ValidateField(f, form[f], Entry(form, TotalClasses))
  {
    EveryFieldIsInTheForm(form, f);
    var errs := FieldErrors(form, form.Keys);
    var msg := ValidateField(f, form[f], Entry(form, TotalClasses));
    assert f in errs <==> msg != "";
    assert f in errs ==> errs[f] == msg;
    WithRequiredAt(form, errs, f);
  }

  /** The required checks add or overwrite the entries of their own fields only. */
  lemma WithRequiredAt(form: map<Field, FieldValue>, errs: map<Field, string>, f: Field)
    ensures f in WithRequired(form, errs) <==> RequiredFails(form, f) || f in errs
    ensures f in WithRequired(form, errs) ==>
              WithRequired(form, errs)[f] == if RequiredFails(form, f) then RequiredMessage(f) else errs[f]
  {
  }

  /** A required check fails only on a value that every rule accepts, so
      the required message never hides a rule's message. */
  lemma RequiredNeverMasksRule(form: map<Field, FieldValue>, f: Field)
    requires WellFormed(form) && RequiredFails(form, f)
    ensures CheckField(f, Entry(form, f), Entry(form, TotalClasses)).None?
  {
    EveryFieldIsInTheForm(form, f);
    var v := form[f];
    if f != RollNumber && v.Text? {
      TrimEmptyIffBlank(v.text);
      assert !ContainsDigit(v.text) by {
        forall i | 0 <= i < |v.text| ensures !IsDigit(v.text[i]) {
          assert IsWhitespace(v.text[i]);
        }
      }
    }
  }

  /** A submission with a record id issues an update exactly when every rule
      accepts every field and the three required checks pass; otherwise it
      is blocked. */
  lemma SubmitUpdatesIffValid(id: string, form: map<Field, FieldValue>)
    requires WellFormed(form) && id != ""
    ensures SubmitResult(id, form).Update? || SubmitResult(id, form).Blocked?
    ensures SubmitResult(id, form).Update? <==>
              && (forall f :: f in form ==> CheckField(f, form[f], Entry(form, TotalClasses)).None?)
              && !IsBlankEntry(form[StudentName]) && Truthy(form[RollNumber]) && !IsBlankEntry(form[Semester])
  {
    forall f ensures f in form { EveryFieldIsInTheForm(form, f); }
    var errs := SubmitErrors(form);
    if errs == map[] {
      forall f | f in form ensures CheckField(f, form[f], Entry(form, TotalClasses)).None? && !RequiredFails(form, f) {
        SubmitErrorsExactly(form, f);
      }
      assert !RequiredFails(form, StudentName) && !RequiredFails(form, RollNumber) && !RequiredFails(form, Semester);
    } else {
      var f :| f in errs;
      SubmitErrorsExactly(form, f);
    }
  }

  /** A number the update carries is non-negative. */
  predicate NonNegative(x: Option<JsNumber>) {
    x.None? || (x.value.Finite? && x.value.mantissa >= 0)
  }

  /** Marks the update carries lie between 0 and 100. */
  predicate WithinMarks(x: Option<JsNumber>) {
    NonNegative(x) && (x.None? || !GreaterThanInt(x.value, 100))
  }

  predicate NoDigitsIn(x: Option<string>) {
    x.None? || !ContainsDigit(x.value)
  }

  /** The number invariants of the data model, read on an update: a roll
      number, non-negative numbers, marks within 0 to 100, and no more
      classes attended than held. */
  ghost predicate NumberInvariants(p: UpdatePayload) {
    && p.rollNumber.Some? && NonNegative(p.rollNumber)
    && NonNegative(p.totalClasses) && NonNegative(p.classesAttended)
    && WithinMarks(p.subject1Marks) && WithinMarks(p.subject2Marks)
    && (p.classesAttended.Some? && p.totalClasses.Some? ==>
          !GreaterThan(p.classesAttended.value, p.totalClasses.value))
  }

  /** The text invariants: names without digits, a semester that is not a
      bare number, and an e-mail address that is empty or matches the pattern. */
  ghost predicate TextInvariants(p: UpdatePayload) {
    && p.studentName.Some? && Trim(p.studentName.value) != [] && NoDigitsIn(p.studentName)
    && p.semester.Some? && Trim(p.semester.value) != [] && !IsDigitRun(p.semester.value)
    && NoDigitsIn(p.subject1Name) && NoDigitsIn(p.subject2Name)
    && (p.emailAddress.Some? ==> p.emailAddress.value == "" || MatchesEmailRegex(p.emailAddress.value))
  }

  ghost predicate RecordInvariants(p: UpdatePayload) {
    NumberInvariants(p) && TextInvariants(p)
  }

  /** A form that passes every rule and every required check. */
  ghost predicate Accepted(form: map<Field, FieldValue>) {
    && (forall f :: f in form ==> CheckField(f, form[f], Entry(form, TotalClasses)).None?)
    && !IsBlankEntry(Entry(form, StudentName)) && Truthy(Entry(form, RollNumber))
    && !IsBlankEntry(Entry(form, Semester))
  }

  lemma AcceptedNumberEntry(form: map<Field, FieldValue>, f: Field)
    requires WellFormed(form) && IsNumericField(f)
    requires CheckField(f, form[f], Entry(form, TotalClasses)).None?
    ensures NonNegative(NumberEntry(form[f]))
    ensures IsMarksField(f) ==> WithinMarks(NumberEntry(form[f]))
  {
    if Truthy(form[f]) {
      AcceptedNumber(f, form[f], Entry(form, TotalClasses));
    }
  }

  lemma AcceptedNameEntry(form: map<Field, FieldValue>, f: Field)
    requires WellFormed(form) && IsNameField(f)
    requires CheckField(f, form[f], Entry(form, TotalClasses)).None?
    ensures NoDigitsIn(TextEntry(form[f]))
  {
    EveryFieldIsInTheForm(form, f);
    NameFieldRule(f, form[f], Entry(form, TotalClasses));
  }

  lemma AcceptedNumbers(id: string, form: map<Field, FieldValue>)
    requires WellFormed(form) && Accepted(form)
    ensures NumberInvariants(BuildPayload(id, form))
  {
    forall f ensures f in form { EveryFieldIsInTheForm(form, f); }
    var total := Entry(form, TotalClasses);
    AcceptedNumberEntry(form, RollNumber);
    AcceptedNumberEntry(form, TotalClasses);
    AcceptedNumberEntry(form, ClassesAttended);
    AcceptedNumberEntry(form, Subject1Marks);
    AcceptedNumberEntry(form, Subject2Marks);
    if Truthy(form[ClassesAttended]) && Truthy(total) {
      AcceptedNumber(ClassesAttended, form[ClassesAttended], total);
    }
  }

  lemma AcceptedNames(id: string, form: map<Field, FieldValue>)
    requires WellFormed(form) && Accepted(form)
    ensures var p := BuildPayload(id, form);
            NoDigitsIn(p.studentName) && NoDigitsIn(p.subject1Name) && NoDigitsIn(p.subject2Name)
  {
    AcceptedNameEntry(form, StudentName);
    AcceptedNameEntry(form, Subject1Name);
    AcceptedNameEntry(form, Subject2Name);
  }

  lemma AcceptedSemesterAndEmail(id: string, form: map<Field, FieldValue>)
    requires WellFormed(form) && Accepted(form)
    ensures var p := BuildPayload(id, form);
            && p.semester.Some? && !IsDigitRun(p.semester.value)
            && (p.emailAddress.Some? ==> p.emailAddress.value == "" || MatchesEmailRegex(p.emailAddress.value))
  {
    EveryFieldIsInTheForm(form, Semester);
    EveryFieldIsInTheForm(form, EmailAddress);
    var total := Entry(form, TotalClasses);
    assert CheckField(Semester, form[Semester], total).None?;
    SemesterRule(form[Semester].text, total);
    assert CheckField(EmailAddress, form[EmailAddress], total).None?;
    EmailRule(form[EmailAddress], total);
  }

  lemma AcceptedRequiredTexts(id: string, form: map<Field, FieldValue>)
    requires WellFormed(form)
    requires !IsBlankEntry(Entry(form, StudentName)) && !IsBlankEntry(Entry(form, Semester))
    ensures var p := BuildPayload(id, form);
            && p.studentName.Some? && Trim(p.studentName.value) != []
            && p.semester.Some? && Trim(p.semester.value) != []
  {
    EveryFieldIsInTheForm(form, StudentName);
    EveryFieldIsInTheForm(form, Semester);
    RequiredTextEntry(Entry(form, StudentName));
    RequiredTextEntry(Entry(form, Semester));
  }

  /** A required text entry that is not blank is sent as a non-blank string. */
  lemma RequiredTextEntry(v: FieldValue)
    requires !IsBlankEntry(v) && !v.Num?
    ensures TextEntry(v).Some? && Trim(TextEntry(v).value) != []
  {
  }

  /** Every update the form issues satisfies the record invariants. */
  lemma UpdateMeetsRecordInvariants(id: string, form: map<Field, FieldValue>, p: UpdatePayload)
    requires WellFormed(form) && SubmitResult(id, form) == Update(p)
    ensures p.id == id && id != ""
    ensures RecordInvariants(p)
  {
    SubmitUpdatesIffValid(id, form);
    assert p == BuildPayload(id, form);
    AcceptedNumbers(id, form);
    AcceptedRequiredTexts(id, form);
    AcceptedNames(id, form);
    AcceptedSemesterAndEmail(id, form);
  }

  /** Submitting a record exactly as it was loaded writes its values back,
      except that a missing text field is sent as `''` and a number field
      holding 0 is sent as `undefined`. */
  lemma LoadThenSubmit(id: string, r: Records.StudentRecord, isoDay: string -> string, p: UpdatePayload)
    requires p == BuildPayload(id, FormOfRecord(r, isoDay))
    ensures p.studentName == Some(r.studentName.GetOr(""))
    ensures p.semester == Some(r.semester.GetOr(""))
    ensures p.emailAddress == Some(r.emailAddress.GetOr(""))
    ensures p.overallGrade == Some(r.overallGrade.GetOr(""))
    ensures p.rollNumber == if r.rollNumber.GetOr(0) != 0 then Some(Finite(r.rollNumber.value, 0)) else None
    ensures p.totalClasses == if r.totalClasses.GetOr(0) != 0 then Some(Finite(r.totalClasses.value, 0)) else None
    ensures p.subject1Marks == if r.subject1Marks.GetOr(0) != 0 then Some(Finite(r.subject1Marks.value, 0)) else None
    ensures p.subject1Name == Some(r.subject1Name.GetOr(""))
    ensures p.subject2Name == Some(r.subject2Name.GetOr(""))
    ensures p.classesAttended == if r.classesAttended.GetOr(0) != 0 then Some(Finite(r.classesAttended.value, 0)) else None
    ensures p.subject2Marks == if r.subject2Marks.GetOr(0) != 0 then Some(Finite(r.subject2Marks.value, 0)) else None
    ensures p.dateOfBirth == if r.dateOfBirth.Some? && r.dateOfBirth.value != "" && isoDay(r.dateOfBirth.value) != ""
                             then Some(isoDay(r.dateOfBirth.value)) else None
  {
  }

  /** A semester the way the form asks for it. */
  const SampleSemester := "Fall 2024"

  /** A semester with letters in it passes the semester rule. */
  lemma FallSemesterPasses(total: FieldValue)
    ensures ValidateField(Semester, Text(SampleSemester), total) == ""
  {
    assert !IsDigit(SampleSemester[0]);
    SemesterRule(SampleSemester, total);
  }

  /** A form whose only truthy entry is that semester passes every rule. */
  lemma OnlySemesterPassesRules(form: map<Field, FieldValue>)
    requires Semester in form && form[Semester] == Text(SampleSemester)
    requires forall f :: f in form && f != Semester ==> !Truthy(form[f])
    ensures FieldErrors(form, form.Keys) == map[]
  {
    forall f | f in form ensures ValidateField(f, form[f], Entry(form, TotalClasses)) == "" {
      if f == Semester {
        FallSemesterPasses(Entry(form, TotalClasses));
      } else {
        UncheckedValues(f, form[f], Entry(form, TotalClasses));
      }
    }
  }

  /** The entries of the form that gives only a semester. */
  lemma SemesterOnlyEntries(form: map<Field, FieldValue>)
    requires form == InitialForm()[Semester := Text(SampleSemester)]
    ensures Semester in form && form[Semester] == Text(SampleSemester)
    ensures forall f :: f in form && f != Semester ==> !Truthy(form[f])
  {
  }

  /** Its required checks: the name and the roll number fail, the semester passes. */
  lemma SemesterOnlyRequired(form: map<Field, FieldValue>)
    requires form == InitialForm()[Semester := Text(SampleSemester)]
    ensures RequiredFails(form, StudentName) && RequiredFails(form, RollNumber) && !RequiredFails(form, Semester)
  {
    assert Entry(form, StudentName) == Text("") && Entry(form, RollNumber) == Absent;
    assert Entry(form, Semester) == Text(SampleSemester);
    FallSemesterNotBlank();
  }

  lemma FallSemesterNotBlank()
    ensures !IsBlankEntry(Text(SampleSemester))
  {
    assert !IsWhitespace(SampleSemester[|SampleSemester| - 1]);
    VisibleEndNotBlank(SampleSemester);
  }

  /** With no rule errors, the name and roll number missing and the semester
      present, the submit is blocked with exactly the two required messages. */
  lemma BlockedOnNameAndRollNumber(id: string, form: map<Field, FieldValue>)
    requires id != "" && FieldErrors(form, form.Keys) == map[]
    requires RequiredFails(form, StudentName) && RequiredFails(form, RollNumber) && !RequiredFails(form, Semester)
    ensures SubmitResult(id, form) == Blocked(map[StudentName := NameRequiredMessage, RollNumber := RollRequiredMessage])
  {
    var expected := map[StudentName := NameRequiredMessage, RollNumber := RollRequiredMessage];
    assert WithRequired(form, map[]) == map[][StudentName := NameRequiredMessage][RollNumber := RollRequiredMessage];
    assert SubmitErrors(form) == expected;
    assert StudentName in expected;
  }

  lemma MissingNameAndRollNumber()
    ensures SubmitResult("r1", InitialForm()[Semester := Text(SampleSemester)])
              == Blocked(map[StudentName := NameRequiredMessage, RollNumber := RollRequiredMessage])
  {
    var form := InitialForm()[Semester := Text(SampleSemester)];
    SemesterOnlyEntries(form);
    SemesterOnlyRequired(form);
    OnlySemesterPassesRules(form);
    BlockedOnNameAndRollNumber("r1", form);
  }
}
