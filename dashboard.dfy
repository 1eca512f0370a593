/**
 * The dashboard page: the session guard on entry, the search filter over
 * the loaded records, the attendance percentage, the summary statistics,
 * the grade colour, the admin-only delete and the logout.
 */
module Dashboard {
  import opened Wrappers
  import opened JsText
  import opened Records
  import opened Session

  // ---------------------------------------------------------------------------
  // Session guard
  // ---------------------------------------------------------------------------

  /** What the page does on mount. */
  datatype Admission = RedirectHome | Admit(role: string, user: string)

  /** A stored value that is present and not the empty string. */
  predicate HasValue(items: map<string, string>, key: string) {
    key in items && items[key] != ""
  }

  /** The page admits a session only when both keys hold a non-empty value,
      and then shows exactly the stored role and user name. */
  function DashboardGuard(items: map<string, string>): (r: Admission)
    ensures r.Admit? <==> HasValue(items, UserRoleKey) && HasValue(items, UsernameKey)
    ensures r.Admit? ==> r.role == items[UserRoleKey] && r.user == items[UsernameKey]
    ensures r.Admit? ==> r.role != "" && r.user != ""
  {
    if IsFalsy(if UserRoleKey in items then Some(items[UserRoleKey]) else None)
       || IsFalsy(if UsernameKey in items then Some(items[UsernameKey]) else None)
    then RedirectHome
    else Admit(items[UserRoleKey], items[UsernameKey])
  }

  // ---------------------------------------------------------------------------
  // Search
  // ---------------------------------------------------------------------------

  /** `value?.toLowerCase().includes(query)`. */
  predicate TextIncludes(v: Option<string>, query: string) {
    v.Some? && Includes(ToLower(v.value), query)
  }

  /** Whether a record is shown for the lower-cased `query`: its name or its
      semester contains it regardless of case, or its roll number's decimal
      form contains it. */
  predicate MatchesQuery(s: StudentRecord, query: string) {
    || TextIncludes(s.studentName, query)
    || TextIncludes(s.semester, query)
    || (s.rollNumber.Some? && Includes(IntToString(s.rollNumber.value), query))
  }

  /** `a` is `b` with some elements left out, in the same order. */
  ghost predicate IsSubsequence<T>(a: seq<T>, b: seq<T>)
    decreases |b|
  {
    if b == [] then a == []
    else (a != [] && a[0] == b[0] && IsSubsequence(a[1..], b[1..])) || IsSubsequence(a, b[1..])
  }

  /** `students.filter(s => MatchesQuery(s, query))`. */
  function FilterBy(xs: seq<StudentRecord>, query: string): (r: seq<StudentRecord>)
    ensures |r| <= |xs|
    ensures forall i :: 0 <= i < |r| ==> MatchesQuery(r[i], query)
    ensures forall x :: x in r <==> x in xs && MatchesQuery(x, query)
    ensures IsSubsequence(r, xs)
  {
    if xs == [] then []
    else
      var rest := FilterBy(xs[1..], query);
      assert forall x :: x in xs <==> x == xs[0] || x in xs[1..];
      if MatchesQuery(xs[0], query) then
        assert ([xs[0]] + rest)[1..] == rest;
        [xs[0]] + rest
      else rest
  }

  /** The search effect: a blank query shows every record; any other query
      shows the records that match it lower-cased (it is not trimmed). */
  function FilterStudents(students: seq<StudentRecord>, searchQuery: string): (r: seq<StudentRecord>)
    ensures Trim(searchQuery) == [] ==> r == students
    ensures Trim(searchQuery) != [] ==>
              forall x :: x in r <==> x in students && MatchesQuery(x, ToLower(searchQuery))
    ensures Trim(searchQuery) != [] ==>
              forall x :: multiset(r)[x] == if MatchesQuery(x, ToLower(searchQuery)) then multiset(students)[x] else 0
    ensures IsSubsequence(r, students)
  {
    if Trim(searchQuery) == [] then
      SubsequenceReflexive(students);
      students
    else
      FilterByCounts(students, ToLower(searchQuery));
      FilterBy(students, ToLower(searchQuery))
  }

  /** The filter keeps every copy of a matching record and no copy of any
      other: the number of times a record appears is fixed, not only
      whether it appears. */
  lemma {:induction false} FilterByCounts(xs: seq<StudentRecord>, query: string)
    ensures forall x :: multiset(FilterBy(xs, query))[x] == if MatchesQuery(x, query) then multiset(xs)[x] else 0
    decreases |xs|
  {
    if xs != [] {
      FilterByCounts(xs[1..], query);
      assert xs == [xs[0]] + xs[1..];
      assert multiset(xs) == multiset{xs[0]} + multiset(xs[1..]);
      var rest := FilterBy(xs[1..], query);
      if MatchesQuery(xs[0], query) {
        assert multiset([xs[0]] + rest) == multiset{xs[0]} + multiset(rest);
      }
    }
  }

  lemma {:induction false} SubsequenceReflexive<T>(a: seq<T>)
    ensures IsSubsequence(a, a)
    decreases |a|
  {
    if a != [] {
      SubsequenceReflexive(a[1..]);
    }
  }

  /** Filtering what was already filtered changes nothing. */
  lemma {:induction false} FilterByIdempotent(xs: seq<StudentRecord>, query: string)
    ensures FilterBy(FilterBy(xs, query), query) == FilterBy(xs, query)
    decreases |xs|
  {
    if xs != [] {
      FilterByIdempotent(xs[1..], query);
      var rest := FilterBy(xs[1..], query);
      if MatchesQuery(xs[0], query) {
        assert ([xs[0]] + rest)[1..] == rest;
      }
    }
  }

  /** Lower-casing a character keeps it whitespace exactly when it was. */
  lemma LowerCharWhitespace(c: char)
    ensures IsWhitespace(LowerChar(c)) <==> IsWhitespace(c)
  {
  }

  /** The search ignores the case of the query: two queries that agree once
      lower-cased show the same records. */
  lemma FilterIgnoresQueryCase(students: seq<StudentRecord>, q1: string, q2: string)
    requires ToLower(q1) == ToLower(q2)
    ensures FilterStudents(students, q1) == FilterStudents(students, q2)
  {
    assert |q1| == |q2|;
    forall i | 0 <= i < |q1| ensures IsWhitespace(q1[i]) <==> IsWhitespace(q2[i]) {
      assert ToLower(q1)[i] == ToLower(q2)[i];
      LowerCharWhitespace(q1[i]);
      LowerCharWhitespace(q2[i]);
    }
    TrimEmptyIffBlank(q1);
    TrimEmptyIffBlank(q2);
  }

  // ---------------------------------------------------------------------------
  // Attendance and statistics
  // ---------------------------------------------------------------------------

  /** `calculateAttendancePercentage(attended, total)`: 0 when either is
      absent or zero, otherwise `Math.round(attended / total * 100)`. */
  function AttendancePercentage(attended: Option<int>, total: Option<int>): int {
    if attended.None? || attended.value == 0 || total.None? || total.value == 0 then 0
    else RoundDiv(100 * attended.value, total.value)
  }

  /** The percentage is 0 when a count is missing or zero, and otherwise the
      integer nearest to 100·attended/total, a half rounded up. */
  lemma AttendancePercentageMeaning(a: Option<int>, t: Option<int>)
    ensures (a.None? || a.value == 0 || t.None? || t.value == 0) ==> AttendancePercentage(a, t) == 0
    ensures a.Some? && a.value != 0 && t.Some? && t.value > 0 ==>
              var p := AttendancePercentage(a, t);
              (2 * p - 1) * t.value <= 200 * a.value < (2 * p + 1) * t.value
  {
  }

  /** For a count attended between zero and the total, the percentage lies in [0, 100]. */
  lemma AttendancePercentageBounds(a: int, t: int)
    requires 0 <= a <= t
    ensures 0 <= AttendancePercentage(Some(a), Some(t)) <= 100
  {
    if a != 0 {
      RoundDivBetween(100 * a, t, 0, 100);
    }
  }

  /** Full attendance is exactly 100. */
  lemma FullAttendance(t: int)
    requires t != 0
    ensures AttendancePercentage(Some(t), Some(t)) == 100
  {
    RoundDivExact(100, t);
  }

  /** The percentage is not clamped: more attended than held exceeds 100. */
  lemma AttendanceAboveHundred()
    ensures AttendancePercentage(Some(3), Some(2)) == 150
  {
  }

  /** `students.reduce((acc, s) => acc + percentage(s), 0)`. */
  function SumPercentages(xs: seq<StudentRecord>): int {
    if xs == [] then 0
    else AttendancePercentage(xs[0].classesAttended, xs[0].totalClasses) + SumPercentages(xs[1..])
  }

  /** A record whose attended count lies between zero and its total. */
  predicate AttendanceConsistent(s: StudentRecord) {
    s.classesAttended.Some? && s.totalClasses.Some? ==> 0 <= s.classesAttended.value <= s.totalClasses.value
  }

  /** Each percentage of a consistent record counts between 0 and 100 towards the sum. */
  lemma {:induction false} SumPercentagesBounds(xs: seq<StudentRecord>)
    requires forall i :: 0 <= i < |xs| ==> AttendanceConsistent(xs[i])
    ensures 0 <= SumPercentages(xs) <= 100 * |xs|
    decreases |xs|
  {
    if xs != [] {
      var s := xs[0];
      assert AttendanceConsistent(s);
      if s.classesAttended.Some? && s.totalClasses.Some? {
        AttendancePercentageBounds(s.classesAttended.value, s.totalClasses.value);
      }
      SumPercentagesBounds(xs[1..]);
    }
  }

  /** `s.overallGrade?.toUpperCase().startsWith('A')`. */
  predicate IsHighPerformer(s: StudentRecord) {
    s.overallGrade.Some? && StartsWith(ToUpper(s.overallGrade.value), "A")
  }

  /** `students.filter(IsHighPerformer)`. */
  function HighPerformers(xs: seq<StudentRecord>): (r: seq<StudentRecord>)
    ensures |r| <= |xs|
    ensures forall x :: x in r <==> x in xs && IsHighPerformer(x)
    ensures |r| == |xs| <==> forall i :: 0 <= i < |xs| ==> IsHighPerformer(xs[i])
  {
    if xs == [] then []
    else
      var rest := HighPerformers(xs[1..]);
      assert forall x :: x in xs <==> x == xs[0] || x in xs[1..];
      assert (forall i :: 0 <= i < |xs| ==> IsHighPerformer(xs[i])) <==>
             IsHighPerformer(xs[0]) && forall i :: 0 <= i < |xs[1..]| ==> IsHighPerformer(xs[1..][i]) by {
        if forall i :: 0 <= i < |xs[1..]| ==> IsHighPerformer(xs[1..][i]) {
          assert forall i :: 1 <= i < |xs| ==> xs[i] == xs[1..][i - 1];
        }
      }
      if IsHighPerformer(xs[0]) then [xs[0]] + rest else rest
  }

  /** The high performers are drawn in order from the records, with every
      copy of a high performer kept and no copy of any other record. */
  lemma {:induction false} HighPerformersExactly(xs: seq<StudentRecord>)
    ensures IsSubsequence(HighPerformers(xs), xs)
    ensures forall x :: multiset(HighPerformers(xs))[x] == if IsHighPerformer(x) then multiset(xs)[x] else 0
    decreases |xs|
  {
    if xs != [] {
      HighPerformersExactly(xs[1..]);
      assert xs == [xs[0]] + xs[1..];
      assert multiset(xs) == multiset{xs[0]} + multiset(xs[1..]);
      var rest := HighPerformers(xs[1..]);
      if IsHighPerformer(xs[0]) {
        assert ([xs[0]] + rest)[1..] == rest;
        assert multiset([xs[0]] + rest) == multiset{xs[0]} + multiset(rest);
      }
    }
  }

  /** The positions of the high performers in `xs`. */
  ghost function HighPerformerIndices(xs: seq<StudentRecord>): set<int> {
    set i | 0 <= i < |xs| && IsHighPerformer(xs[i])
  }

  /** Selecting high performers distributes over concatenation. */
  lemma {:induction false} HighPerformersAppend(a: seq<StudentRecord>, b: seq<StudentRecord>)
    ensures HighPerformers(a + b) == HighPerformers(a) + HighPerformers(b)
    decreases |a|
  {
    if a != [] {
      assert (a + b)[1..] == a[1..] + b;
      HighPerformersAppend(a[1..], b);
    } else {
      assert a + b == b;
    }
  }

  /** Appending one record adds its position to the high-performer
      positions exactly when it is a high performer. */
  lemma IndicesSnoc(front: seq<StudentRecord>, x: StudentRecord)
    ensures HighPerformerIndices(front + [x])
            == HighPerformerIndices(front) + (if IsHighPerformer(x) then {|front|} else {})
  {
    var xs := front + [x];
    forall i | 0 <= i < |front|
      ensures i in HighPerformerIndices(xs) <==> i in HighPerformerIndices(front)
    {
      assert xs[i] == front[i];
    }
    assert xs[|front|] == x;
  }

  /** The high-performer statistic counts exactly the positions whose
      upper-cased grade starts with `A`. */
  lemma {:induction false} HighPerformerCount(xs: seq<StudentRecord>)
    ensures |HighPerformers(xs)| == |HighPerformerIndices(xs)|
    decreases |xs|
  {
    if xs != [] {
      var n := |xs| - 1;
      var front := xs[..n];
      HighPerformerCount(front);
      assert xs == front + [xs[n]];
      HighPerformersAppend(front, [xs[n]]);
      IndicesSnoc(front, xs[n]);
      var before := HighPerformerIndices(front);
      assert n !in before;
      if IsHighPerformer(xs[n]) {
        assert HighPerformers([xs[n]]) == [xs[n]];
        assert |before + {n}| == |before| + 1;
      } else {
        assert HighPerformers([xs[n]]) == [];
      }
    }
  }

  /** A grade counts as high exactly when it begins with `A` or `a`. */
  lemma HighPerformerGrade(s: StudentRecord)
    ensures IsHighPerformer(s) <==> s.overallGrade.Some? && |s.overallGrade.value| > 0
                                    && s.overallGrade.value[0] in {'A', 'a'}
  {
    if s.overallGrade.Some? && |s.overallGrade.value| > 0 {
      var g := s.overallGrade.value;
      var u := ToUpper(g);
      UpperCharIs(g[0], 'A');
      assert u[0] == UpperChar(g[0]);
      assert StartsWith(u, "A") <==> u[0] == 'A' by {
        if u[0] == 'A' {
          assert u[..1] == "A";
        }
      }
    }
  }

  datatype Stats = Stats(total: nat, avgAttendance: int, highPerformers: nat)

  /** The statistics shown above the list, always over every loaded record. */
  function StatsOf(students: seq<StudentRecord>): Stats {
    Stats(
      |students|,
      if |students| == 0 then 0 else RoundDiv(SumPercentages(students), |students|),
      |HighPerformers(students)|)
  }

  /** The average attendance is 0 for no records and, when every record is
      consistent, lies between 0 and 100; the high performers never outnumber
      the records. */
  lemma StatsBounds(students: seq<StudentRecord>)
    requires forall i :: 0 <= i < |students| ==> AttendanceConsistent(students[i])
    ensures StatsOf(students).total == |students|
    ensures |students| == 0 ==> StatsOf(students).avgAttendance == 0
    ensures 0 <= StatsOf(students).avgAttendance <= 100
    ensures StatsOf(students).highPerformers <= |students|
  {
    if |students| > 0 {
      SumPercentagesBounds(students);
      RoundDivBetween(SumPercentages(students), |students|, 0, 100);
    }
  }

  /** The high-performer figure is the number of records, counted by
      position, whose upper-cased grade starts with `A`. */
  lemma StatsHighPerformerCount(students: seq<StudentRecord>)
    ensures StatsOf(students).highPerformers == |HighPerformerIndices(students)|
  {
    HighPerformerCount(students);
  }

  /** The statistics do not depend on the search: they are the same for
      the full list whatever is shown. */
  lemma StatsUseAllRecords(students: seq<StudentRecord>, searchQuery: string)
    ensures StatsOf(students).total == |students|
    ensures |FilterStudents(students, searchQuery)| <= StatsOf(students).total
  {
    if Trim(searchQuery) != [] {
      assert |FilterBy(students, ToLower(searchQuery))| <= |students|;
    }
  }

  // ---------------------------------------------------------------------------
  // Grade colour
  // ---------------------------------------------------------------------------

  const MissingGradeClass := "text-foreground/50"
  const TopGradeClass := "text-electric-teal"
  const SecondGradeClass := "text-secondary"
  const OtherGradeClass := "text-foreground/70"

  /** `getGradeColor(grade)`. */
  function GradeColor(grade: Option<string>): (c: string)
    ensures c in {MissingGradeClass, TopGradeClass, SecondGradeClass, OtherGradeClass}
  {
    if grade.None? || grade.value == "" then MissingGradeClass
    else
      var upper := ToUpper(grade.value);
      if upper == "A" || upper == "A+" then TopGradeClass
      else if upper == "B" || upper == "B+" then SecondGradeClass
      else OtherGradeClass
  }

  /** A grade is upper-cased to `Letter` or `Letter+` exactly when it is that,
      written in either case. */
  lemma UpperGradeIs(g: string, letter: char)
    requires 'A' <= letter <= 'Z'
    ensures ToUpper(g) == [letter] <==> g == [letter] || g == [(letter as int + 32) as char]
    ensures ToUpper(g) == [letter, '+'] <==>
              g == [letter, '+'] || g == [(letter as int + 32) as char, '+']
  {
    if |g| == 1 {
      UpperCharIs(g[0], letter);
      assert ToUpper(g)[0] == UpperChar(g[0]);
    }
    if |g| == 2 {
      UpperCharIs(g[0], letter);
      UpperCharIs(g[1], '+');
      assert ToUpper(g)[0] == UpperChar(g[0]) && ToUpper(g)[1] == UpperChar(g[1]);
    }
  }

  /** The four classes partition the grades: missing or empty, an A or A+
      in either case, a B or B+ in either case, and everything else. */
  lemma GradeColorClassification(grade: Option<string>)
    ensures GradeColor(grade) == MissingGradeClass <==> grade.None? || grade.value == ""
    ensures GradeColor(grade) == TopGradeClass <==> grade.Some? && grade.value in {"A", "a", "A+", "a+"}
    ensures GradeColor(grade) == SecondGradeClass <==> grade.Some? && grade.value in {"B", "b", "B+", "b+"}
  {
    if grade.Some? {
      UpperGradeIs(grade.value, 'A');
      UpperGradeIs(grade.value, 'B');
    }
  }

  /** Every record coloured as a top grade is counted as a high performer. */
  lemma TopGradeIsHighPerformer(s: StudentRecord)
    requires GradeColor(s.overallGrade) == TopGradeClass
    ensures IsHighPerformer(s)
  {
    GradeColorClassification(s.overallGrade);
    HighPerformerGrade(s);
  }

  // ---------------------------------------------------------------------------
  // The page's state
  // ---------------------------------------------------------------------------

  /** What mounting the page leads to. */
  datatype MountAction = NavigateHome | LoadStudents

  /** What a click on a record's delete button leads to. */
  datatype DeleteAction = NotPermitted | Cancelled | DeleteRecord(id: string)

  class DashboardPage {
    var students: seq<StudentRecord>
    var filteredStudents: seq<StudentRecord>
    var searchQuery: string
    var userRole: string
    var username: string

    /** The records shown are always drawn, in order, from the records loaded. */
    ghost predicate Valid()
      reads this
    {
      IsSubsequence(filteredStudents, students)
    }

    constructor ()
      ensures students == [] && filteredStudents == [] && searchQuery == ""
      ensures userRole == "" && username == ""
      ensures Valid()
    {
      students, filteredStudents, searchQuery := [], [], "";
      userRole, username := "", "";
    }

    /** The guard on mount: without a stored role and user name, go home and
        load nothing; otherwise show them and load the records. */
    method Mount(store: SessionStore) returns (action: MountAction)
      modifies this`userRole, this`username
      ensures DashboardGuard(store.items).RedirectHome? ==>
                action == NavigateHome && userRole == old(userRole) && username == old(username)
      ensures DashboardGuard(store.items).Admit? ==>
                action == LoadStudents
                && userRole == DashboardGuard(store.items).role
                && username == DashboardGuard(store.items).user
    {
      var role := store.GetItem(UserRoleKey);
      var user := store.GetItem(UsernameKey);
      if IsFalsy(role) || IsFalsy(user) {
        return NavigateHome;
      }
      userRole := role.value;
      username := user.value;
      action := LoadStudents;
    }

    /** A successful load shows every loaded record. */
    method LoadSucceeded(items: seq<StudentRecord>)
      modifies this`students, this`filteredStudents
      ensures students == items && filteredStudents == items
      ensures Valid()
    {
      students := items;
      filteredStudents := items;
      SubsequenceReflexive(items);
    }

    /** Typing in the search box. */
    method SetSearchQuery(query: string)
      modifies this`searchQuery
      ensures searchQuery == query
      ensures Valid() <==> old(Valid())
    {
      searchQuery := query;
    }

    /** The effect that runs whenever the query or the records change. */
    method SearchEffect()
      modifies this`filteredStudents
      ensures filteredStudents == FilterStudents(students, searchQuery)
      ensures Valid()
    {
      filteredStudents := FilterStudents(students, searchQuery);
    }

    /** Only an admin is asked to confirm, and only a confirmed request
        deletes; nothing on the page changes here. */
    method HandleDelete(id: string, confirmed: bool) returns (action: DeleteAction)
      ensures action.NotPermitted? <==> userRole != "admin"
      ensures action.DeleteRecord? <==> userRole == "admin" && confirmed
      ensures action.DeleteRecord? ==> action.id == id
    {
      if userRole != "admin" {
        return NotPermitted;
      }
      if confirmed {
        action := DeleteRecord(id);
      } else {
        action := Cancelled;
      }
    }

    /** Logout forgets the session and goes home. */
    method HandleLogout(store: SessionStore) returns (destination: string)
      modifies store
      ensures store.items == old(store.items) - {UserRoleKey, UsernameKey}
      ensures destination == "/"
    {
      store.RemoveItem(UserRoleKey);
      store.RemoveItem(UsernameKey);
      destination := "/";
    }
  }
}
