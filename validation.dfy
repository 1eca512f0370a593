/**
 * Field-level validation of the student form: `validateField` maps a field,
 * its value and the form's current total of classes to an error message,
 * or to the empty string when the value is acceptable.
 */
module Validation {
  import opened Wrappers
  import opened JsText

  /** The twelve fields of the form, one per editable record field. */
  datatype Field =
    | StudentName | RollNumber | Semester | DateOfBirth | EmailAddress
    | TotalClasses | ClassesAttended | Subject1Name | Subject1Marks
    | Subject2Name | Subject2Marks | OverallGrade

  /** A form entry: `undefined`, a string (what an input element delivers) or
      a number (what the collection returned when the record was loaded). */
  datatype FieldValue = Absent | Text(text: string) | Num(n: int)

  /** JavaScript truthiness: `undefined`, `''` and `0` are falsy. */
  predicate Truthy(v: FieldValue) {
    match v
    case Absent => false
    case Text(s) => s != ""
    case Num(n) => n != 0
  }

  /** `String(v)`: the text a regular expression's `test` examines. */
  function AsText(v: FieldValue): string {
    match v
    case Absent => "undefined"
    case Text(s) => s
    case Num(n) => IntToString(n)
  }

  /** `Number(v)`. */
  function NumberOf(v: FieldValue): JsNumber {
    match v
    case Absent => NaN
    case Text(s) => ToNumber(s)
    case Num(n) => Finite(n, 0)
  }

  predicate IsNameField(f: Field) {
    f == StudentName || f == Subject1Name || f == Subject2Name
  }

  predicate IsNumericField(f: Field) {
    f == RollNumber || f == TotalClasses || f == ClassesAttended || f == Subject1Marks || f == Subject2Marks
  }

  predicate IsMarksField(f: Field) {
    f == Subject1Marks || f == Subject2Marks
  }

  /** The ways a single field can be rejected. */
  datatype FieldError =
    | NoDigits | SemesterFormat | NotANumber | Negative | MarksRange | ExceedsTotal | InvalidEmail

  const NoDigitsMessage := "Cannot contain numbers"
  const SemesterFormatMessage := "Semester should be like \"Fall 2024\" or \"Spring 2025\""
  const NotANumberMessage := "Must be a valid number"
  const NegativeMessage := "Cannot be negative"
  const MarksRangeMessage := "Marks must be between 0 and 100"
  const ExceedsTotalMessage := "Cannot exceed total classes"
  const InvalidEmailMessage := "Invalid email format"

  /** The message shown for each rejection. */
  function Message(e: FieldError): (m: string)
    ensures m != ""
  {
    match e
    case NoDigits => NoDigitsMessage
    case SemesterFormat => SemesterFormatMessage
    case NotANumber => NotANumberMessage
    case Negative => NegativeMessage
    case MarksRange => MarksRangeMessage
    case ExceedsTotal => ExceedsTotalMessage
    case InvalidEmail => InvalidEmailMessage
  }

  /** The length and last character of a message, which tell the
      messages apart. */
  function MessageShape(e: FieldError): (int, char) {
    match e
    case NoDigits => (22, 's')
    case SemesterFormat => (52, '"')
    case NotANumber => (22, 'r')
    case Negative => (18, 'e')
    case MarksRange => (31, '0')
    case ExceedsTotal => (27, 's')
    case InvalidEmail => (20, 't')
  }

  lemma MessageHasShape(e: FieldError)
    ensures (|Message(e)|, Message(e)[|Message(e)| - 1]) == MessageShape(e)
  {
  }

  /** Distinct rejections show distinct messages, so a message names its rejection. */
  lemma MessageInjective(e1: FieldError, e2: FieldError)
    ensures Message(e1) == Message(e2) <==> e1 == e2
  {
    MessageHasShape(e1);
    MessageHasShape(e2);
    assert MessageShape(e1) == MessageShape(e2) ==> e1 == e2;
  }

  // ---------------------------------------------------------------------------
  // The e-mail pattern /^[^\s@]+@[^\s@]+\.[^\s@]+$/
  // ---------------------------------------------------------------------------

  /** Every character of `s` belongs to the class `[^\s@]`. */
  ghost predicate NoSpaceOrAt(s: string) {
    forall i :: 0 <= i < |s| ==> !IsWhitespace(s[i]) && s[i] != '@'
  }

  /** One way the pattern can match `s`: the `@` at index `at` and the
      literal `.` at index `dot`, with a non-empty run of `[^\s@]` before,
      between and after them. */
  ghost predicate EmailSplit(s: string, at: int, dot: int) {
    && 0 < at && at + 1 < dot && dot + 1 < |s|
    && s[at] == '@' && s[dot] == '.'
    && NoSpaceOrAt(s[..at]) && NoSpaceOrAt(s[at + 1..dot]) && NoSpaceOrAt(s[dot + 1..])
  }

  /** The regular expression matches `s`. */
  ghost predicate MatchesEmailRegex(s: string) {
    exists at, dot :: EmailSplit(s, at, dot)
  }

  /** The index of the first `c` in `s`, or `|s|` when there is none. */
  function IndexOf(s: string, c: char): (k: nat)
    ensures k <= |s| && (k < |s| ==> s[k] == c)
    ensures forall i :: 0 <= i < k ==> s[i] != c
  {
    if s == [] || s[0] == c then 0
    else
      var k := 1 + IndexOf(s[1..], c);
      assert forall i :: 1 <= i < k ==> s[i] == s[1..][i - 1];
      k
  }

  /** Some character of `s` is whitespace. */
  function ContainsWhitespace(s: string): (r: bool)
    ensures r <==> exists i :: 0 <= i < |s| && IsWhitespace(s[i])
  {
    if s == [] then false
    else if IsWhitespace(s[0]) then true
    else
      var r := ContainsWhitespace(s[1..]);
      assert forall i :: 0 <= i < |s| - 1 ==> s[1..][i] == s[i + 1];
      r
  }

  /** The pattern, stated operationally: no whitespace anywhere, a non-empty
      part before the first `@`, no second `@`, and a `.` in the domain
      that is neither the domain's first nor its last character. */
  predicate MatchesEmailPattern(s: string) {
    var at := IndexOf(s, '@');
    var domain := if at < |s| then s[at + 1..] else [];
    && 0 < at < |s|
    && !ContainsWhitespace(s)
    && '@' !in domain
    && |domain| >= 3 && '.' in domain[1..|domain| - 1]
  }

  lemma EmailPatternSound(s: string)
    requires MatchesEmailPattern(s)
    ensures MatchesEmailRegex(s)
  {
    var at := IndexOf(s, '@');
    var domain := s[at + 1..];
    var inner := domain[1..|domain| - 1];
    var j :| 0 <= j < |inner| && inner[j] == '.';
    var dot := at + 2 + j;
    assert s[dot] == '.';
    forall i | 0 <= i < |s| && i != at ensures !IsWhitespace(s[i]) && s[i] != '@' {
      if i > at {
        assert s[i] == domain[i - at - 1];
      }
    }
    assert EmailSplit(s, at, dot);
  }

  /** In a split, every character other than the `@` is in `[^\s@]`. */
  lemma EmailSplitChars(s: string, at: int, dot: int)
    requires EmailSplit(s, at, dot)
    ensures forall i :: 0 <= i < |s| && i != at ==> !IsWhitespace(s[i]) && s[i] != '@'
  {
    assert forall i :: 0 <= i < at ==> s[i] == s[..at][i];
    assert forall i :: at < i < dot ==> s[i] == s[at + 1..dot][i - at - 1];
    assert forall i :: dot < i < |s| ==> s[i] == s[dot + 1..][i - dot - 1];
  }

  lemma EmailPatternComplete(s: string, at: int, dot: int)
    requires EmailSplit(s, at, dot)
    ensures MatchesEmailPattern(s)
  {
    EmailSplitChars(s, at, dot);
    assert IndexOf(s, '@') == at;
    assert !ContainsWhitespace(s);
    var domain := s[at + 1..];
    assert '@' !in domain by {
      forall k | 0 <= k < |domain| ensures domain[k] != '@' {
        assert domain[k] == s[at + 1 + k];
      }
    }
    var inner := domain[1..|domain| - 1];
    assert '.' in inner by {
      assert inner[dot - at - 2] == s[dot];
    }
  }

  /** The operational reading of the e-mail check agrees with the regular
      expression, in both directions. */
  lemma EmailPatternIsRegex(s: string)
    ensures MatchesEmailPattern(s) <==> MatchesEmailRegex(s)
  {
    if MatchesEmailPattern(s) {
      EmailPatternSound(s);
    }
    if MatchesEmailRegex(s) {
      var at, dot :| EmailSplit(s, at, dot);
      EmailPatternComplete(s, at, dot);
    }
  }

  // ---------------------------------------------------------------------------
  // validateField
  // ---------------------------------------------------------------------------

  /** The name-like fields: no digit anywhere. */
  function NameCheck(value: FieldValue): Option<FieldError> {
    if Truthy(value) && ContainsDigit(AsText(value)) then Some(NoDigits) else None
  }

  /** The semester: not digits only. */
  function SemesterCheck(value: FieldValue): Option<FieldError> {
    if Truthy(value) && IsDigitRun(AsText(value)) then Some(SemesterFormat) else None
  }

  /** The numeric fields, in order: a number, not negative, marks within
      0..100, and the attendance not above the form's `totalClasses`. */
  function NumberCheck(name: Field, value: FieldValue, totalClasses: FieldValue): Option<FieldError> {
    if Truthy(value) && NumberOf(value).NaN? then Some(NotANumber)
    else if Truthy(value) && IsNegative(NumberOf(value)) then Some(Negative)
    else if IsMarksField(name) && Truthy(value)
            && (IsNegative(NumberOf(value)) || GreaterThanInt(NumberOf(value), 100)) then Some(MarksRange)
    else if name == ClassesAttended && Truthy(totalClasses) && Truthy(value)
            && GreaterThan(NumberOf(value), NumberOf(totalClasses)) then Some(ExceedsTotal)
    else None
  }

  /** The e-mail address: the pattern must match. */
  function EmailCheck(value: FieldValue): Option<FieldError> {
    if Truthy(value) && !MatchesEmailPattern(AsText(value)) then Some(InvalidEmail) else None
  }

  /** The checks of `validateField(name, value)`, one block per group of
      fields as in the source, where `totalClasses` is the form's current
      `totalClasses` entry: the first check that fails gives the rejection,
      and `None` means accepted. */
  function CheckField(name: Field, value: FieldValue, totalClasses: FieldValue): Option<FieldError> {
    match name
    case StudentName | Subject1Name | Subject2Name => NameCheck(value)
    case Semester => SemesterCheck(value)
    case RollNumber | TotalClasses | ClassesAttended | Subject1Marks | Subject2Marks =>
      NumberCheck(name, value, totalClasses)
    case EmailAddress => EmailCheck(value)
    case DateOfBirth | OverallGrade => None
  }

  /** `validateField(name, value)`: the message of the rejection, or `''`. */
  function ValidateField(name: Field, value: FieldValue, totalClasses: FieldValue): (r: string)
    ensures r == "" <==> CheckField(name, value, totalClasses).None?
  {
    match CheckField(name, value, totalClasses)
    case None => ""
    case Some(e) => Message(e)
  }

  /** A name-like field is rejected exactly when its value is truthy and
      contains a digit, and then only for containing digits. */
  lemma NameFieldRule(f: Field, v: FieldValue, total: FieldValue)
    requires IsNameField(f)
    ensures CheckField(f, v, total).Some? ==> CheckField(f, v, total) == Some(NoDigits)
    ensures CheckField(f, v, total).Some? <==>
              Truthy(v) && exists i :: 0 <= i < |AsText(v)| && IsDigit(AsText(v)[i])
  {
    assert !IsNumericField(f) && !IsMarksField(f) && f != Semester && f != ClassesAttended && f != EmailAddress;
  }

  /** The semester is rejected exactly when its untrimmed value is a
      non-empty string of digits only. */
  lemma SemesterRule(s: string, total: FieldValue)
    ensures CheckField(Semester, Text(s), total).Some? ==> CheckField(Semester, Text(s), total) == Some(SemesterFormat)
    ensures CheckField(Semester, Text(s), total).Some? <==>
              |s| > 0 && forall i :: 0 <= i < |s| ==> IsDigit(s[i])
  {
  }

  /** A numeric field is checked by the number block alone. */
  lemma NumericFieldChecks(f: Field, v: FieldValue, total: FieldValue)
    requires IsNumericField(f)
    ensures CheckField(f, v, total) == NumberCheck(f, v, total)
  {
  }

  /** For a numeric field `Number(value)` being NaN takes precedence over
      its being negative ... */
  lemma NotANumberRule(f: Field, v: FieldValue, total: FieldValue)
    requires IsNumericField(f)
    ensures CheckField(f, v, total) == Some(NotANumber) <==> Truthy(v) && NumberOf(v).NaN?
  {
    NumericFieldChecks(f, v, total);
  }

  /** ... and a negative value is always reported as such. */
  lemma NegativeRule(f: Field, v: FieldValue, total: FieldValue)
    requires IsNumericField(f)
    ensures CheckField(f, v, total) == Some(Negative) <==> Truthy(v) && IsNegative(NumberOf(v))
  {
    NumericFieldChecks(f, v, total);
  }

  /** The roll number and the total have no rules beyond these two. */
  lemma CountFieldErrors(f: Field, v: FieldValue, total: FieldValue)
    requires f == RollNumber || f == TotalClasses
    ensures CheckField(f, v, total) in {None, Some(NotANumber), Some(Negative)}
  {
    NumericFieldChecks(f, v, total);
  }

  lemma NumericFieldRule(f: Field, v: FieldValue, total: FieldValue)
    requires IsNumericField(f)
    ensures CheckField(f, v, total) == Some(NotANumber) <==> Truthy(v) && NumberOf(v).NaN?
    ensures CheckField(f, v, total) == Some(Negative) <==> Truthy(v) && IsNegative(NumberOf(v))
    ensures f == RollNumber || f == TotalClasses ==>
              CheckField(f, v, total) in {None, Some(NotANumber), Some(Negative)}
  {
    NotANumberRule(f, v, total);
    NegativeRule(f, v, total);
    if f == RollNumber || f == TotalClasses {
      CountFieldErrors(f, v, total);
    }
  }

  /** Marks are rejected as out of range exactly when they exceed 100: the
      lower-bound half of the range check can never fire, because a negative
      value has already been reported as negative. */
  lemma MarksRule(f: Field, v: FieldValue, total: FieldValue)
    requires IsMarksField(f)
    ensures CheckField(f, v, total) == Some(MarksRange) <==> Truthy(v) && GreaterThanInt(NumberOf(v), 100)
    ensures CheckField(f, v, total) in {None, Some(NotANumber), Some(Negative), Some(MarksRange)}
  {
    NumericFieldChecks(f, v, total);
    assert f != ClassesAttended;
  }

  /** The attendance is rejected for exceeding the total exactly when both
      entries are truthy, the attendance is a non-negative number, and it is
      greater than the total. */
  lemma AttendanceRule(v: FieldValue, total: FieldValue)
    ensures CheckField(ClassesAttended, v, total) == Some(ExceedsTotal) <==>
              Truthy(total) && Truthy(v) && !IsNegative(NumberOf(v))
              && GreaterThan(NumberOf(v), NumberOf(total))
    ensures CheckField(ClassesAttended, v, total) in {None, Some(NotANumber), Some(Negative), Some(ExceedsTotal)}
  {
    NumericFieldChecks(ClassesAttended, v, total);
    assert !IsMarksField(ClassesAttended);
  }

  /** An attendance numerically equal to the total is never rejected for
      exceeding it, whatever form either takes (text or number, `"40"` or
      `"40.0"`). */
  lemma AttendanceEqualToTotal(v: FieldValue, total: FieldValue)
    requires NumberOf(v).Finite? && NumberOf(total).Finite?
    requires NumberOf(v).mantissa * Pow10(NumberOf(total).scale)
             == NumberOf(total).mantissa * Pow10(NumberOf(v).scale)
    ensures CheckField(ClassesAttended, v, total) != Some(ExceedsTotal)
  {
    AttendanceRule(v, total);
  }

  /** An attendance compared with itself is never rejected for exceeding it,
      even when it is not a number. */
  lemma AttendanceSameAsTotal(v: FieldValue)
    ensures CheckField(ClassesAttended, v, v) != Some(ExceedsTotal)
  {
  }

  /** The e-mail field is accepted exactly when it is empty or absent, or the
      regular expression matches it. */
  lemma EmailRule(v: FieldValue, total: FieldValue)
    ensures CheckField(EmailAddress, v, total).Some? ==> CheckField(EmailAddress, v, total) == Some(InvalidEmail)
    ensures CheckField(EmailAddress, v, total).None? <==> !Truthy(v) || MatchesEmailRegex(AsText(v))
  {
    EmailPatternIsRegex(AsText(v));
  }

  /** A falsy value, and any value of a field without rules, is accepted. */
  lemma UncheckedValues(f: Field, v: FieldValue, total: FieldValue)
    requires !Truthy(v) || f == DateOfBirth || f == OverallGrade
    ensures ValidateField(f, v, total) == ""
  {
    if Truthy(v) {
      assert !IsNameField(f) && !IsNumericField(f) && !IsMarksField(f);
    }
  }

  /** What an accepted numeric value is: a number, not negative, at most 100
      for marks, and not above a truthy total for the attendance. */
  lemma AcceptedNumber(f: Field, v: FieldValue, total: FieldValue)
    requires IsNumericField(f) && Truthy(v) && CheckField(f, v, total).None?
    ensures NumberOf(v).Finite? && NumberOf(v).mantissa >= 0
    ensures IsMarksField(f) ==> !GreaterThanInt(NumberOf(v), 100)
    ensures f == ClassesAttended && Truthy(total) ==> !GreaterThan(NumberOf(v), NumberOf(total))
  {
    NumericFieldRule(f, v, total);
    if IsMarksField(f) {
      MarksRule(f, v, total);
    } else if f == ClassesAttended {
      AttendanceRule(v, total);
    }
  }

  // ---------------------------------------------------------------------------
  // Worked examples
  // ---------------------------------------------------------------------------

  lemma NameExamples()
    ensures CheckField(StudentName, Text("John3"), Absent) == Some(NoDigits)
    ensures CheckField(StudentName, Text("John"), Absent) == None
  {
    assert IsDigit("John3"[4]);
    assert !IsDigit("John"[0]) && !IsDigit("John"[1]) && !IsDigit("John"[2]) && !IsDigit("John"[3]);
  }

  /** A semester of digits only is rejected; one with a letter or a space is not. */
  lemma SemesterExamples()
    ensures CheckField(Semester, Text("2024"), Absent) == Some(SemesterFormat)
    ensures CheckField(Semester, Text("Fall 2024"), Absent) == None
    ensures CheckField(Semester, Text(" 2024"), Absent) == None
  {
    SemesterRule("Fall 2024", Absent);
    SemesterRule(" 2024", Absent);
    assert !IsDigit("Fall 2024"[0]) && !IsDigit(" 2024"[0]);
  }

  /** The number a decimal text denotes. */
  lemma NumberOfDecimalText(s: string, n: nat)
    requires s == NatToString(n)
    ensures NumberOf(Text(s)) == Finite(n, 0) && Truthy(Text(s))
  {
    ToNumberOfIntString(n);
  }

  lemma MarksAboveHundred()
    ensures CheckField(Subject1Marks, Text("150"), Absent) == Some(MarksRange)
  {
    NumberOfDecimalText("150", 150);
    MarksRule(Subject1Marks, Text("150"), Absent);
  }

  lemma MarksWithinRange()
    ensures CheckField(Subject2Marks, Text("85"), Absent) == None
  {
    NumberOfDecimalText("85", 85);
    MarksRule(Subject2Marks, Text("85"), Absent);
    NumericFieldRule(Subject2Marks, Text("85"), Absent);
  }

  /** A text that starts with a letter is not a number. */
  lemma NotANumberExample()
    ensures CheckField(RollNumber, Text("abc"), Absent) == Some(NotANumber)
  {
    ToNumberOfNonNumeric("abc");
    NumericFieldRule(RollNumber, Text("abc"), Absent);
  }

  /** The decimal form of any negative integer is rejected as negative. */
  lemma NegativeIntegerText(f: Field, n: int, total: FieldValue)
    requires IsNumericField(f) && n < 0
    ensures CheckField(f, Text(IntToString(n)), total) == Some(Negative)
  {
    ToNumberOfIntString(n);
    NumericFieldRule(f, Text(IntToString(n)), total);
  }

  /** More classes attended than held is rejected, whether the total is
      text ... */
  lemma AttendanceAboveTextTotal(a: nat, t: nat)
    requires a > t > 0
    ensures CheckField(ClassesAttended, Text(NatToString(a)), Text(NatToString(t))) == Some(ExceedsTotal)
  {
    NumberOfDecimalText(NatToString(a), a);
    NumberOfDecimalText(NatToString(t), t);
    assert GreaterThan(Finite(a, 0), Finite(t, 0)) by {
      assert Pow10(0) == 1;
    }
    AttendanceRule(Text(NatToString(a)), Text(NatToString(t)));
  }

  /** ... or a number. */
  lemma AttendanceAboveNumericTotal(v: FieldValue, a: int, t: int)
    requires Truthy(v) && NumberOf(v) == Finite(a, 0) && a > t > 0
    ensures CheckField(ClassesAttended, v, Num(t)) == Some(ExceedsTotal)
  {
    assert GreaterThan(Finite(a, 0), Finite(t, 0)) by {
      assert Pow10(0) == 1;
    }
    AttendanceRule(v, Num(t));
  }

  /** At most as many classes attended as held is accepted. */
  lemma AttendanceWithinTotal(a: nat, t: nat)
    requires a <= t
    ensures CheckField(ClassesAttended, Text(NatToString(a)), Text(NatToString(t))) == None
  {
    NumberOfDecimalText(NatToString(a), a);
    NumberOfDecimalText(NatToString(t), t);
    AttendanceRule(Text(NatToString(a)), Text(NatToString(t)));
    NumericFieldRule(ClassesAttended, Text(NatToString(a)), Text(NatToString(t)));
  }

  /** The text of a count against the same count held as a number, as when
      the total comes back from the server as a number and the attendance is
      typed in, passes. */
  lemma AttendanceTextAgainstEqualNumber(n: nat)
    ensures CheckField(ClassesAttended, Text(NatToString(n)), Num(n)) == None
  {
    var v := Text(NatToString(n));
    var r := CheckField(ClassesAttended, v, Num(n));
    NumberOfDecimalText(NatToString(n), n);
    assert r != Some(ExceedsTotal) by {
      assert Pow10(0) == 1;
      AttendanceEqualToTotal(v, Num(n));
    }
    assert r != Some(NotANumber) && r != Some(Negative) by {
      NumericFieldRule(ClassesAttended, v, Num(n));
    }
    AttendanceRule(v, Num(n));
  }

  /** A total of the text `"0"` is truthy, so the comparison still runs ... */
  lemma AttendanceAgainstZeroText(a: nat)
    requires a > 0
    ensures CheckField(ClassesAttended, Text(NatToString(a)), Text("0")) == Some(ExceedsTotal)
  {
    NumberOfDecimalText(NatToString(a), a);
    NumberOfDecimalText("0", 0);
    assert GreaterThan(Finite(a, 0), Finite(0, 0)) by {
      assert Pow10(0) == 1;
    }
    AttendanceRule(Text(NatToString(a)), Text("0"));
  }

  /** ... while a numeric total of zero is falsy and switches it off. */
  lemma AttendanceAgainstZeroNumber(v: FieldValue)
    requires NumberOf(v).Finite? && !IsNegative(NumberOf(v))
    ensures CheckField(ClassesAttended, v, Num(0)) == None
  {
    AttendanceRule(v, Num(0));
    NumericFieldRule(ClassesAttended, v, Num(0));
  }

  lemma EmailAccepted()
    ensures CheckField(EmailAddress, Text("ann@school.edu"), Absent) == None
  {
    var s := "ann@school.edu";
    assert EmailSplit(s, 3, 10) by {
      assert s[..3] == "ann" && s[4..10] == "school" && s[11..] == "edu";
    }
    EmailRule(Text(s), Absent);
  }

  /** An address without a dot, or without an `@`, is rejected. */
  lemma EmailWithoutDotOrAt(s: string)
    requires s != [] && ('.' !in s || '@' !in s)
    ensures CheckField(EmailAddress, Text(s), Absent) == Some(InvalidEmail)
  {
    EmailRule(Text(s), Absent);
  }
}
