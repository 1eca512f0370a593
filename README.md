# Student records front end: a verified model of its rules

This project models the logic inside three pages of a small React front
end that an administrator and a viewer use to browse and edit student
records held in a hosted collection (`studentrecords`):

- **The home page** holds the login form. Two fixed accounts, `admin`/`admin123`
  and `viewer`/`viewer123`, are accepted. Each writes its role and user name
  into the browser's `localStorage` and leads to the dashboard. Every other
  pair shows one fixed message.
- **The dashboard**:
  - sends a visitor without a stored role and user name back home;
  - lists the records, with a case-insensitive search over name, semester
    and roll number;
  - shows every record's attendance percentage and a colour for its grade;
  - shows three statistics over all records;
  - lets only the admin delete, after a confirmation;
  - logs out by forgetting the session.
- **The edit page**:
  - sends everyone but the admin to the dashboard;
  - loads a record into a form;
  - validates each field as it is typed;
  - on submit re-validates everything and adds three required-field
    checks, then either shows the collected errors or sends an update of
    the record.

The model describes the JavaScript values the pages handle, in these terms:

- **Form values** (`Validation.FieldValue`):
  - `Absent` stands for `undefined`;
  - `Text(s)` is what an input delivers;
  - `Num(n)` is a number loaded from the collection.
  - Truthiness follows JavaScript: `Absent`, `""` and `Num(0)` are falsy; the text `"0"` is truthy.
- **`Number(text)`** (`JsText.ToNumber`): the text is trimmed, and a blank text is 0. What remains must be an optionally signed decimal literal, held as an exact value (`JsNumber`), or the result is `NaN`.
- **Regular expressions**:
  - `/\d/`, `/^\d+$/` and `/^[^\s@]+@[^\s@]+\.[^\s@]+$/` are written out as predicates.
  - The e-mail pattern has both a declarative and an operational form, proved equal.
- **Browser storage**: `localStorage` is the class `Session.SessionStore` over a `map`.
- **Page state**:
  - the edit form (`EditStudent.StudentForm`), the dashboard (`Dashboard.DashboardPage`) and the login form (`Login.LoginPage`) are classes whose fields are the pages' state variables;
  - each handler is a method whose `modifies` clause names the state it sets;
  - navigation and remote calls are returned as values (`SubmitOutcome`, `DeleteAction`, `MountAction`, destinations).

Each page's rules are also stated as functions: `Validation.CheckField`, `EditStudent.SubmitResult`, `Dashboard.FilterStudents`, `Dashboard.StatsOf`, `Dashboard.GradeColor` and `Login.CheckCredentials`. The methods are proved against those functions, and lemmas state what the functions promise.

Modules (one per file):

- `Wrappers`: `Option`.
- `JsText`: the JavaScript string and number operations the pages use.
- `Records`: the stored record.
- `Session`: the browser store.
- `Validation`: `validateField`.
- `EditStudent`: the edit page's state and handlers.
- `EditStudentProperties`: what a submission promises.
- `Dashboard`: the dashboard page.
- `Login`: the home page's login form.
- `SessionFlow`: how the pages meet through the store.

Behaviour of the code worth knowing:

- The semester rule tests the untrimmed value, so `" 2024"` passes and `"2024"` fails.
- The attendance rule compares against a total of the text `"0"`, which is truthy. Only a missing, empty or numeric-zero total switches the rule off (`Validation.AttendanceAgainstZeroText`, `Validation.AttendanceAgainstZeroNumber`).
- The per-keystroke validation reads `formData.totalClasses` from the render in which the handler was created, that is, before the keystroke's own update (`EditStudent.StudentForm.HandleChange`).
- A number field holding 0 is sent in the update as `undefined` (`EditStudentProperties.LoadThenSubmit`).
- A successful load sets both lists, and the search effect then runs again because `students` changed. They are two methods: `LoadSucceeded`, then `SearchEffect`.

## Model

| member | source | states |
|---|---|---|
| JsText.ContainsDigit | src/components/pages/EditStudentPage.tsx:80 | `/\d/.test(s)` holds exactly when some character of `s` is a decimal digit |
| JsText.AllDigits | src/components/pages/EditStudentPage.tsx:87 | true exactly when every character is a digit, the core of `/^\d+$/` |
| JsText.TrimStart | src/components/pages/EditStudentPage.tsx:165 | the result is a suffix of the input that does not start with whitespace, and everything cut off is whitespace |
| JsText.TrimEnd | src/components/pages/EditStudentPage.tsx:165 | the result does not end with whitespace, and everything cut off is whitespace |
| JsText.Trim | src/components/pages/EditStudentPage.tsx:165-171 | `s.trim()`, both ends cut; its promises are stated by `JsText.TrimEmptyIffBlank`, `JsText.VisibleEndNotBlank` and `JsText.TrimOfTrimmed` |
| JsText.TrimEmptyIffBlank | src/components/pages/DashboardPage.tsx:61 | `s.trim() === ''` exactly when every character of `s` is whitespace |
| JsText.VisibleEndNotBlank | src/components/pages/EditStudentPage.tsx:171 | a string ending in a visible character does not trim to `''` |
| JsText.TrimOfTrimmed | src/components/pages/EditStudentPage.tsx:100 | a string with no whitespace at either end is its own trim |
| JsText.UpperCharIs | src/components/pages/DashboardPage.tsx:101 | upper-casing gives a letter exactly for that letter and its lower-case partner |
| JsText.Includes | src/components/pages/DashboardPage.tsx:67-69 | `s.includes(t)` holds exactly when `t` occurs in `s` at some index |
| JsText.NatToString | src/components/pages/DashboardPage.tsx:69 | `n.toString()` of a natural number is a non-empty run of digits |
| JsText.NatToStringValue | src/components/pages/DashboardPage.tsx:69 | reading the decimal form of `n` back in base ten gives `n` |
| JsText.UnsignedDecimalOfDigits | src/components/pages/EditStudentPage.tsx:100 | a run of digits is the unsigned literal of its base-ten value |
| JsText.ToNumber | src/components/pages/EditStudentPage.tsx:100-118 | `Number(text)`; its promises are stated by `JsText.ToNumberOfDigits`, `JsText.ToNumberOfNegatedDigits`, `JsText.ToNumberOfNonNumeric` and `JsText.ToNumberOfIntString` |
| JsText.ToNumberOfDigits | src/components/pages/EditStudentPage.tsx:100-118 | `Number` of a run of digits is its base-ten value |
| JsText.ToNumberOfNegatedDigits | src/components/pages/EditStudentPage.tsx:103 | `Number` of `-` followed by digits is the negated value |
| JsText.ToNumberOfNonNumeric | src/components/pages/EditStudentPage.tsx:100 | a text that cannot begin a decimal literal is `NaN` |
| JsText.ToNumberOfIntString | src/components/pages/EditStudentPage.tsx:100 | `Number(n.toString()) === n` for every integer |
| JsText.RoundDiv | src/components/pages/DashboardPage.tsx:96 | `Math.round(p / q)` is the integer nearest to p/q, a half going up, for either sign of q |
| JsText.NearestIsUnique | src/components/pages/DashboardPage.tsx:96 | only one integer is nearest to p/q in that sense |
| JsText.RoundDivBetween | src/components/pages/DashboardPage.tsx:110-115 | a quotient between two integers rounds to an integer between them |
| JsText.RoundDivExact | src/components/pages/DashboardPage.tsx:96 | an exact quotient rounds to itself |
| Session.SessionStore.SetItem | src/components/pages/HomePage.tsx:92-93 | `setItem` stores the value under its key and keeps every other entry |
| Session.SessionStore.RemoveItem | src/components/pages/DashboardPage.tsx:76-77 | `removeItem` drops its key and keeps every other entry |
| Session.SessionStore.GetItem | src/components/pages/DashboardPage.tsx:34-35 | `getItem`: the value under a key or `null`; `SetItem` and `RemoveItem` state what it returns after each change, for the changed key and every other |
| Validation.Message | src/components/pages/EditStudentPage.tsx:81-126 | every rejection has a non-empty message, so `''` means accepted |
| Validation.MessageInjective | src/components/pages/EditStudentPage.tsx:81-126 | two rejections have the same message only when they are the same rejection |
| Validation.EmailPatternSound | src/components/pages/EditStudentPage.tsx:125 | a text that meets the operational reading of the e-mail check matches the regular expression |
| Validation.EmailSplitChars | src/components/pages/EditStudentPage.tsx:125 | in any match of the regular expression every character but the `@` is in `[^\s@]` |
| Validation.EmailPatternComplete | src/components/pages/EditStudentPage.tsx:125 | every way of matching the regular expression meets the operational reading |
| Validation.EmailPatternIsRegex | src/components/pages/EditStudentPage.tsx:125 | the operational reading and the regular expression agree, in both directions |
| Validation.ValidateField | src/components/pages/EditStudentPage.tsx:77-131 | `validateField` returns `''` exactly when no check of the field's group rejects the value |
| Validation.CheckField | src/components/pages/EditStudentPage.tsx:77-131 | the rejection `validateField` reports, if any; its promises are stated field group by field group by `Validation.NameFieldRule`, `Validation.SemesterRule`, `Validation.NumericFieldRule`, `Validation.MarksRule`, `Validation.AttendanceRule`, `Validation.EmailRule` and `Validation.UncheckedValues` |
| Validation.NameFieldRule | src/components/pages/EditStudentPage.tsx:79-83 | a name-like field is rejected exactly when its value is truthy and contains a digit, and then only for containing digits |
| Validation.SemesterRule | src/components/pages/EditStudentPage.tsx:86-90 | the semester is rejected exactly when its untrimmed value is a non-empty run of digits, and then only for its format |
| Validation.NumericFieldChecks | src/components/pages/EditStudentPage.tsx:93-121 | a numeric field is judged by the number checks alone |
| Validation.NotANumberRule | src/components/pages/EditStudentPage.tsx:100-102 | a numeric field reports "not a number" exactly when its value is truthy and `Number` of it is `NaN` |
| Validation.NegativeRule | src/components/pages/EditStudentPage.tsx:103-105 | a numeric field reports "negative" exactly when its value is truthy and negative |
| Validation.CountFieldErrors | src/components/pages/EditStudentPage.tsx:93-106 | the roll number and the total have no rejection besides those two |
| Validation.NumericFieldRule | src/components/pages/EditStudentPage.tsx:93-106 | the not-a-number check takes precedence, negatives are always reported as negative, and counts have only these two errors |
| Validation.MarksRule | src/components/pages/EditStudentPage.tsx:109-113 | marks are out of range exactly when truthy and above 100, because the lower-bound half can never fire |
| Validation.AttendanceRule | src/components/pages/EditStudentPage.tsx:116-121 | attendance exceeds the total exactly when both are truthy, the attendance is a non-negative number, and it is greater than the total |
| Validation.AttendanceEqualToTotal | src/components/pages/EditStudentPage.tsx:116-121 | an attendance numerically equal to the total, in any mix of text and number, is never rejected for exceeding it |
| Validation.AttendanceSameAsTotal | src/components/pages/EditStudentPage.tsx:116-121 | an attendance compared with itself as the total is never rejected for exceeding it, even when it is not a number |
| Validation.EmailRule | src/components/pages/EditStudentPage.tsx:124-128 | the e-mail is accepted exactly when it is falsy or matches the regular expression, and is otherwise rejected as an invalid format |
| Validation.UncheckedValues | src/components/pages/EditStudentPage.tsx:80-130 | a falsy value, and any value of the date of birth or the grade, validates to `''` |
| Validation.AcceptedNumber | src/components/pages/EditStudentPage.tsx:93-121 | an accepted truthy numeric value is a non-negative number, at most 100 for marks, and not above a truthy total for the attendance |
| Validation.NameExamples | src/components/pages/EditStudentPage.tsx:79-83 | `"John3"` is rejected and `"John"` is accepted as a name |
| Validation.SemesterExamples | src/components/pages/EditStudentPage.tsx:86-90 | `"2024"` is rejected and `"Fall 2024"` and `" 2024"` pass |
| Validation.NumberOfDecimalText | src/components/pages/EditStudentPage.tsx:100 | the decimal text of a natural number is truthy, and its number is that natural number |
| Validation.MarksAboveHundred | src/components/pages/EditStudentPage.tsx:109-113 | marks of `"150"` are out of range |
| Validation.MarksWithinRange | src/components/pages/EditStudentPage.tsx:109-113 | marks of `"85"` are accepted |
| Validation.NotANumberExample | src/components/pages/EditStudentPage.tsx:100-102 | a roll number of `"abc"` is not a number |
| Validation.NegativeIntegerText | src/components/pages/EditStudentPage.tsx:103-105 | the decimal text of any negative integer is rejected as negative in every numeric field |
| Validation.AttendanceAboveTextTotal | src/components/pages/EditStudentPage.tsx:116-121 | more classes attended than held, both typed as text, is rejected |
| Validation.AttendanceAboveNumericTotal | src/components/pages/EditStudentPage.tsx:116-121 | more classes attended than a loaded numeric total is rejected |
| Validation.AttendanceWithinTotal | src/components/pages/EditStudentPage.tsx:116-121 | at most as many classes attended as held is accepted |
| Validation.AttendanceTextAgainstEqualNumber | src/components/pages/EditStudentPage.tsx:116-121 | a typed count against the same count loaded as a number is accepted |
| Validation.AttendanceAgainstZeroText | src/components/pages/EditStudentPage.tsx:117-118 | a total of the text `"0"` is truthy, so any positive attendance exceeds it |
| Validation.AttendanceAgainstZeroNumber | src/components/pages/EditStudentPage.tsx:117-118 | a numeric total of 0 is falsy and switches the attendance rule off |
| Validation.EmailAccepted | src/components/pages/EditStudentPage.tsx:124-128 | `"ann@school.edu"` is accepted |
| Validation.EmailWithoutDotOrAt | src/components/pages/EditStudentPage.tsx:124-128 | a non-empty address without a `.` or without an `@` is rejected |
| EditStudent.TextEntryKeepsShape | src/components/pages/EditStudentPage.tsx:137-140 | typing text into any field keeps the form's twelve entries, and keeps numbers out of text fields |
| EditStudent.InitialForm | src/components/pages/EditStudentPage.tsx:15-28 | the initial form has an entry for every field and no number in a text field |
| EditStudent.RecordEntry | src/components/pages/EditStudentPage.tsx:52-67 | a loaded record fills each text field with text and each number field with a number or `undefined` |
| EditStudent.FormOfRecord | src/components/pages/EditStudentPage.tsx:52-67 | the loaded form has every field, text fields as text and number fields not as text |
| EditStudent.EditGuard | src/components/pages/EditStudentPage.tsx:33-43 | the page redirects exactly when the stored role is not `admin`, and loads only the record of a given id |
| EditStudent.StudentForm.constructor | src/components/pages/EditStudentPage.tsx:15-29 | the form starts as the initial form with no errors |
| EditStudent.StudentForm.LoadRecord | src/components/pages/EditStudentPage.tsx:52-67 | after a load the form is the record's form and stays well formed |
| EditStudent.StudentForm.HandleChange | src/components/pages/EditStudentPage.tsx:133-148 | only the changed entry of the form and of the errors is replaced; the error is validated against the total before the change |
| EditStudent.StudentForm.HandleSubmit | src/components/pages/EditStudentPage.tsx:150-199 | the outcome is the submission function's, and the errors are replaced wholesale exactly when it is blocked |
| EditStudent.CollectFieldErrors | src/components/pages/EditStudentPage.tsx:156-162 | the loop over the form's keys collects exactly the fields whose validation message is not `''` |
| EditStudent.FieldErrorsInsert | src/components/pages/EditStudentPage.tsx:157-161 | validating one more key adds at most that key's own error |
| EditStudent.SubmitErrors | src/components/pages/EditStudentPage.tsx:155-173 | the errors a submission collects; stated by `EditStudentProperties.SubmitErrorsExactly`, `EditStudentProperties.WithRequiredAt` and `EditStudentProperties.RequiredNeverMasksRule` |
| EditStudent.BuildPayload | src/components/pages/EditStudentPage.tsx:181-197 | the update sent for a form; stated by `EditStudentProperties.UpdateMeetsRecordInvariants`, the `EditStudentProperties.Accepted` lemmas and `EditStudentProperties.LoadThenSubmit` |
| EditStudent.SubmitResult | src/components/pages/EditStudentPage.tsx:150-199 | the outcome of a submission; stated by `EditStudentProperties.SubmitUpdatesIffValid` and `EditStudentProperties.UpdateMeetsRecordInvariants` |
| EditStudentProperties.EveryFieldIsInTheForm | src/components/pages/EditStudentPage.tsx:15-28 | a well-formed form holds every field |
| EditStudentProperties.SubmitErrorsExactly | src/components/pages/EditStudentPage.tsx:155-173 | a field has a submit error exactly when its required check fails or its rule rejects it; the required message overwrites the rule's |
| EditStudentProperties.WithRequiredAt | src/components/pages/EditStudentPage.tsx:164-173 | the required checks add or overwrite the entries of their own fields only |
| EditStudentProperties.RequiredNeverMasksRule | src/components/pages/EditStudentPage.tsx:164-173 | a required check fails only on a value every rule accepts, so it never hides a rule's message |
| EditStudentProperties.SubmitUpdatesIffValid | src/components/pages/EditStudentPage.tsx:175-199 | with a record id, a submission updates exactly when every field passes its rules and the three required checks pass, and is blocked otherwise |
| EditStudentProperties.AcceptedNumberEntry | src/components/pages/EditStudentPage.tsx:186-195 | an accepted numeric entry is sent as a non-negative number or `undefined`, marks within 0 to 100 |
| EditStudentProperties.AcceptedNameEntry | src/components/pages/EditStudentPage.tsx:185-194 | an accepted name-like entry is sent without digits |
| EditStudentProperties.AcceptedNumbers | src/components/pages/EditStudentPage.tsx:183-197 | an accepted form's update has a roll number, non-negative numbers, marks within 0 to 100 and no more attended than held |
| EditStudentProperties.AcceptedNames | src/components/pages/EditStudentPage.tsx:185-194 | an accepted form's update carries names without digits |
| EditStudentProperties.AcceptedSemesterAndEmail | src/components/pages/EditStudentPage.tsx:187-189 | an accepted form's update has a semester that is not a bare number, and an e-mail that is empty or matches the pattern |
| EditStudentProperties.AcceptedRequiredTexts | src/components/pages/EditStudentPage.tsx:185-187 | the update carries a non-blank name and semester when their required checks pass |
| EditStudentProperties.RequiredTextEntry | src/components/pages/EditStudentPage.tsx:165-173 | a required text entry that is not blank is sent as a non-blank string |
| EditStudentProperties.UpdateMeetsRecordInvariants | src/components/pages/EditStudentPage.tsx:150-199 | every update a submission issues carries the route's id and satisfies all number and text invariants the rules promise |
| EditStudentProperties.LoadThenSubmit | src/components/pages/EditStudentPage.tsx:52-67 | submitting a record as it was loaded writes back every field: texts as loaded, `''` for a missing one; numbers as loaded, a missing one or 0 as `undefined`; the date as converted, `undefined` when missing or empty |
| EditStudentProperties.FallSemesterPasses | src/components/pages/EditStudentPage.tsx:86-90 | `"Fall 2024"` passes the semester rule |
| EditStudentProperties.OnlySemesterPassesRules | src/components/pages/EditStudentPage.tsx:156-162 | a form whose only truthy entry is that semester has no rule errors |
| EditStudentProperties.SemesterOnlyEntries | src/components/pages/EditStudentPage.tsx:15-28 | the initial form with only the semester filled in has no other truthy entry |
| EditStudentProperties.SemesterOnlyRequired | src/components/pages/EditStudentPage.tsx:164-173 | in that form the name and roll-number checks fail and the semester check passes |
| EditStudentProperties.FallSemesterNotBlank | src/components/pages/EditStudentPage.tsx:171 | `"Fall 2024"` is not blank |
| EditStudentProperties.BlockedOnNameAndRollNumber | src/components/pages/EditStudentPage.tsx:164-178 | with no rule errors and only the name and roll number missing, the submit is blocked with exactly the two required messages |
| EditStudentProperties.MissingNameAndRollNumber | src/components/pages/EditStudentPage.tsx:150-178 | submitting the initial form with only a semester is blocked on the name and the roll number |
| Dashboard.DashboardGuard | src/components/pages/DashboardPage.tsx:33-40 | the page admits a session exactly when both keys hold a non-empty value, and then shows exactly the stored role and user name |
| Dashboard.MatchesQuery | src/components/pages/DashboardPage.tsx:65-70 | whether a record matches the query; stated through the filter by `Dashboard.FilterBy`, `Dashboard.FilterByCounts` and `Dashboard.FilterIgnoresQueryCase` |
| Dashboard.FilterBy | src/components/pages/DashboardPage.tsx:65-70 | the filter keeps exactly the records that match, in their order, as a subsequence |
| Dashboard.FilterByCounts | src/components/pages/DashboardPage.tsx:65-70 | the filter keeps every copy of a matching record and no copy of any other |
| Dashboard.FilterStudents | src/components/pages/DashboardPage.tsx:60-73 | a blank query shows every record; any other keeps exactly the records matching the lower-cased, untrimmed query, every copy of each, as a subsequence |
| Dashboard.SubsequenceReflexive | src/components/pages/DashboardPage.tsx:62 | the full list is a subsequence of itself |
| Dashboard.FilterByIdempotent | src/components/pages/DashboardPage.tsx:65-70 | filtering an already filtered list changes nothing |
| Dashboard.LowerCharWhitespace | src/components/pages/DashboardPage.tsx:61-64 | lower-casing keeps a character whitespace exactly when it was |
| Dashboard.FilterIgnoresQueryCase | src/components/pages/DashboardPage.tsx:60-73 | two queries that agree once lower-cased show the same records |
| Dashboard.AttendancePercentage | src/components/pages/DashboardPage.tsx:94-97 | a record's attendance percentage; stated by `Dashboard.AttendancePercentageMeaning`, `Dashboard.AttendancePercentageBounds`, `Dashboard.FullAttendance` and `Dashboard.AttendanceAboveHundred` |
| Dashboard.AttendancePercentageMeaning | src/components/pages/DashboardPage.tsx:94-97 | the percentage is 0 when a count is missing or zero, and otherwise the integer nearest to 100·attended/total, a half rounded up |
| Dashboard.AttendancePercentageBounds | src/components/pages/DashboardPage.tsx:94-97 | with attended between zero and the total, the percentage lies in [0, 100] |
| Dashboard.FullAttendance | src/components/pages/DashboardPage.tsx:96 | full attendance is exactly 100 |
| Dashboard.AttendanceAboveHundred | src/components/pages/DashboardPage.tsx:96 | the percentage is not clamped: 3 of 2 is 150 |
| Dashboard.SumPercentagesBounds | src/components/pages/DashboardPage.tsx:111-114 | the reduced sum over consistent records lies between 0 and 100 per record |
| Dashboard.HighPerformers | src/components/pages/DashboardPage.tsx:117 | the filter keeps exactly the high performers, and keeps all records only when all are high performers |
| Dashboard.HighPerformersExactly | src/components/pages/DashboardPage.tsx:117 | the high performers are drawn in order from the records, every copy of a high performer kept and no copy of any other |
| Dashboard.HighPerformersAppend | src/components/pages/DashboardPage.tsx:117 | selecting high performers distributes over concatenation |
| Dashboard.IndicesSnoc | src/components/pages/DashboardPage.tsx:117 | appending a record adds its position to the high-performer positions exactly when it is a high performer |
| Dashboard.HighPerformerCount | src/components/pages/DashboardPage.tsx:117 | the number of high performers is the number of positions holding one |
| Dashboard.HighPerformerGrade | src/components/pages/DashboardPage.tsx:117 | a record is a high performer exactly when its grade begins with `A` or `a` |
| Dashboard.StatsBounds | src/components/pages/DashboardPage.tsx:107-118 | the total is the list length, the average is 0 for no records and within [0, 100] for consistent ones, and the high performers never outnumber the records |
| Dashboard.StatsHighPerformerCount | src/components/pages/DashboardPage.tsx:117 | the high-performer statistic is the number of positions whose grade starts with `A` in either case |
| Dashboard.StatsOf | src/components/pages/DashboardPage.tsx:107-118 | the three statistics; stated by `Dashboard.StatsBounds`, `Dashboard.StatsHighPerformerCount` and `Dashboard.StatsUseAllRecords` |
| Dashboard.StatsUseAllRecords | src/components/pages/DashboardPage.tsx:107-108 | the statistics count every loaded record, never fewer than the search shows |
| Dashboard.GradeColor | src/components/pages/DashboardPage.tsx:99-105 | every grade gets one of the four classes |
| Dashboard.UpperGradeIs | src/components/pages/DashboardPage.tsx:101-103 | a grade upper-cases to a letter, or to the letter and `+`, exactly when it is that in either case |
| Dashboard.GradeColorClassification | src/components/pages/DashboardPage.tsx:99-105 | missing or empty grades, the A grades in either case and the B grades in either case each get their own class, exactly |
| Dashboard.TopGradeIsHighPerformer | src/components/pages/DashboardPage.tsx:102-117 | every record coloured as a top grade is counted as a high performer |
| Dashboard.DashboardPage.constructor | src/components/pages/DashboardPage.tsx:26-30 | the page starts with empty lists, query, role and user name |
| Dashboard.DashboardPage.Mount | src/components/pages/DashboardPage.tsx:33-45 | without both keys the page goes home and sets nothing; otherwise it shows the stored role and user name and loads |
| Dashboard.DashboardPage.LoadSucceeded | src/components/pages/DashboardPage.tsx:50-52 | after a load both lists are the loaded records |
| Dashboard.DashboardPage.SetSearchQuery | src/components/pages/DashboardPage.tsx:227 | typing sets the query and nothing else |
| Dashboard.DashboardPage.SearchEffect | src/components/pages/DashboardPage.tsx:60-73 | the shown list becomes the filter of the records by the query, always drawn in order from them |
| Dashboard.DashboardPage.HandleDelete | src/components/pages/DashboardPage.tsx:81-92 | a non-admin gets nothing; only an admin's confirmed request deletes, and then the given record |
| Dashboard.DashboardPage.HandleLogout | src/components/pages/DashboardPage.tsx:75-79 | logout removes both session keys, keeps the rest of the store and goes to `/` |
| Login.CheckCredentials | src/components/pages/HomePage.tsx:91-101 | a login is granted exactly for the two built-in pairs, with the user name as the role |
| Login.VariantsRejected | src/components/pages/HomePage.tsx:91-95 | case and space variants of the user names are rejected whatever the password |
| Login.LoginPage.constructor | src/components/pages/HomePage.tsx:76-78 | the form starts empty, with no error |
| Login.LoginPage.SetUsername | src/components/pages/HomePage.tsx:243 | typing a user name sets it |
| Login.LoginPage.SetPassword | src/components/pages/HomePage.tsx:259 | typing a password sets it |
| Login.LoginPage.HandleLogin | src/components/pages/HomePage.tsx:87-102 | a granted login stores the role and the user name, clears the error and goes to the dashboard; any other leaves the store alone and shows the fixed message |
| SessionFlow.LoginAdmitsDashboard | src/components/pages/HomePage.tsx:91-98 | after a granted login the dashboard admits the session with the account's name as role and user |
| SessionFlow.LogoutClosesDashboard | src/components/pages/DashboardPage.tsx:37-39 | after a logout the dashboard sends the visitor home whatever else the store holds |
| SessionFlow.LogoutClosesEditing | src/components/pages/EditStudentPage.tsx:34-37 | after a logout the edit page redirects to the dashboard |
| SessionFlow.OnlyAdminEdits | src/components/pages/EditStudentPage.tsx:33-43 | after a login only the admin account may load a record for editing |
| SessionFlow.LoginVisitLogout | src/components/pages/DashboardPage.tsx:33-79 | a login, a dashboard visit and a logout show the records and leave no session behind |

## Left out

- Rendering, styling, animation (`FadeIn`, `ParallaxImage`, `GlowingGrid`) and the random background `dataStream` built from `Math.random`: none of them holds a rule.
- The remote collection service (`getAll`, `getById`, `update`, `delete`). It lives outside the repository, so its calls become returned outcomes, and the records it loads become method parameters. A failed load, submit or delete (the `catch` branches, `alert`, `console.error`) is not modelled.
- `navigate`, `confirm` and `alert` are not modelled as calls. A destination is returned, and the answer to `confirm` is a parameter.
- The `loading` and `submitting` flags and the ordering of `async`/`await`. Each handler is one sequential step.
- React's render cycle: the effects run only when their method is called, and a state update is seen at once by the next call.
- The conversion of a stored date to `yyyy-mm-dd` (`new Date(...).toISOString()`) is the parameter `isoDay`, and the displayed dates are not modelled.
- Floating point. Numbers are exact decimals, `x / total * 100` is computed exactly before rounding, and stored numbers are integers.
- Number literals that `Number()` accepts but are not modelled: exponents (`"1e3"`), hexadecimal, binary and octal forms (`"0x1F"`), and `"Infinity"`. The model reads each of them as `NaN`, so it rejects some values the page accepts.
- The login form's two inputs are marked `required` (`src/components/pages/HomePage.tsx:246` and `:262`), so the browser never submits an empty field. `Login.LoginPage.HandleLogin` still handles empty fields, which it rejects like any other unknown pair.
- Case mapping covers the ASCII letters only; the Unicode mappings of `toLowerCase` and `toUpperCase` are not part of this model.
- Typing into the edit form delivers text. The model does not send a number into a text field, which the page never does either.
- The route table (`src/components/Router.tsx`) is not part of this model. The add-student page it names is not part of this model either, and neither is the behaviour of other routes.
- Dashboard.DashboardPage.HandleDelete: the reload after a successful delete is left to a later `LoadSucceeded` call.
