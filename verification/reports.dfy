/**
  The read-only views: the student listing, the attendance of one date, the
  absent/late report and the dashboard statistics. Each is a join of the
  roster and the ledger, filtered by the optional form and class, and the
  listings come back ordered by name.
 */
module Reports {
  import opened Base
  import opened Clock
  import opened Domain
  import opened Lists

  // ---------------------------------------------------------------------------
  // GET /api/students
  // ---------------------------------------------------------------------------

  function StudentName(s: Student): string {
    s.name
  }

  /** The roster rows that pass the form and class filter, in roster order. */
  function Enrolled(students: seq<Student>, f: Filter): (r: seq<Student>)
    ensures forall s :: s in r ==> s in students && Passes(s, f)
    ensures forall i :: 0 <= i < |students| && Passes(students[i], f) ==> students[i] in r
    ensures IsSubsequence(r, students)
  {
    Where(students, s => Passes(s, f))
  }

  /** The students passing the filter, ordered by name. */
  function ListStudents(students: seq<Student>, f: Filter): (r: seq<Student>)
    ensures SortedBy(r, StudentName)
    ensures multiset(r) == multiset(Enrolled(students, f))
    ensures forall s :: s in r ==> s in students && Passes(s, f)
    ensures forall i :: 0 <= i < |students| && Passes(students[i], f) ==> students[i] in r
  {
    var e := Enrolled(students, f);
    var r := SortByName(e, StudentName);
    assert forall s :: s in r <==> s in e by {
      forall s ensures s in r <==> s in e {
        SortByNameMembers(e, StudentName, s);
      }
    }
    r
  }

  // ---------------------------------------------------------------------------
  // GET /api/attendance/:date
  // ---------------------------------------------------------------------------

  /** An attendance row with the student's name, class and form joined in (`a.*, s.name, s.class, s.form`). */
  datatype AttendanceRow = AttendanceRow(record: Record, name: string, cls: string, form: int)

  function RowName(x: AttendanceRow): string {
    x.name
  }

  function JoinRow(r: Record, s: Student): AttendanceRow {
    AttendanceRow(r, s.name, s.cls, s.form)
  }

  /** The inner join: a record of that date, paired with its student, who passes the filters. */
  predicate Joins(r: Record, s: Student, date: Date, f: Filter) {
    r.studentId == s.studentId && r.date == date && Passes(s, f)
  }

  /** The joined rows one attendance row contributes: one per matching student. */
  function JoinOne(r: Record, students: seq<Student>, date: Date, f: Filter): (out: seq<AttendanceRow>)
    ensures forall x :: x in out ==> x.record == r && exists s :: s in students && Joins(r, s, date, f) && x == JoinRow(r, s)
    ensures forall s :: s in students && Joins(r, s, date, f) ==> JoinRow(r, s) in out
    ensures (forall s :: s in students ==> !Joins(r, s, date, f)) ==> out == []
    decreases |students|
  {
    if |students| == 0 then []
    else
      var rest := JoinOne(r, students[1..], date, f);
      assert forall s :: s in students[1..] ==> s in students;
      assert students == [students[0]] + students[1..];
      if Joins(r, students[0], date, f) then [JoinRow(r, students[0])] + rest else rest
  }

  /** The inner join of the ledger and the roster on one date, in ledger order. */
  function JoinDay(rows: seq<Record>, students: seq<Student>, date: Date, f: Filter): (out: seq<AttendanceRow>)
    ensures forall x :: x in out ==> x.record in rows && exists s :: s in students && Joins(x.record, s, date, f) && x == JoinRow(x.record, s)
    ensures forall r, s :: r in rows && s in students && Joins(r, s, date, f) ==> JoinRow(r, s) in out
    decreases |rows|
  {
    if |rows| == 0 then []
    else
      var rest := JoinDay(rows[1..], students, date, f);
      assert forall r :: r in rows[1..] ==> r in rows;
      assert rows == [rows[0]] + rows[1..];
      JoinOne(rows[0], students, date, f) + rest
  }

  /**
    The attendance of `date`: exactly the joined rows of that date whose
    student passes the filter, ordered by name.
   */
  function AttendanceForDate(students: seq<Student>, rows: seq<Record>, date: Date, f: Filter): (out: seq<AttendanceRow>)
    ensures SortedBy(out, RowName)
    ensures multiset(out) == multiset(JoinDay(rows, students, date, f))
    ensures forall x :: x in out ==> x.record in rows && exists s :: s in students && Joins(x.record, s, date, f) && x == JoinRow(x.record, s)
    ensures forall r, s :: r in rows && s in students && Joins(r, s, date, f) ==> JoinRow(r, s) in out
  {
    var j := JoinDay(rows, students, date, f);
    var out := SortByName(j, RowName);
    assert forall x :: x in out <==> x in j by {
      forall x ensures x in out <==> x in j {
        SortByNameMembers(j, RowName, x);
      }
    }
    out
  }

  function RowStudentId(x: AttendanceRow): string {
    x.record.studentId
  }

  lemma {:induction false} JoinOneAtMostOne(r: Record, students: seq<Student>, date: Date, f: Filter)
    requires forall i, j :: 0 <= i < j < |students| ==> students[i].studentId != students[j].studentId
    ensures |JoinOne(r, students, date, f)| <= 1
    decreases |students|
  {
    if |students| > 0 {
      assert forall i, j :: 0 <= i < j < |students[1..]| ==> students[1..][i] == students[i + 1] && students[1..][j] == students[j + 1];
      JoinOneAtMostOne(r, students[1..], date, f);
      if Joins(r, students[0], date, f) {
        forall s | s in students[1..] ensures !Joins(r, s, date, f) {
          var k :| 0 <= k < |students[1..]| && students[1..][k] == s;
          assert students[k + 1] == s;
          assert students[0].studentId != students[k + 1].studentId;
        }
      }
    }
  }

  lemma {:induction false} JoinDayDistinct(rows: seq<Record>, students: seq<Student>, date: Date, f: Filter)
    requires OnePerDay(rows)
    requires forall i, j :: 0 <= i < j < |students| ==> students[i].studentId != students[j].studentId
    ensures DistinctBy(JoinDay(rows, students, date, f), RowStudentId)
    decreases |rows|
  {
    if |rows| > 0 {
      var tail := rows[1..];
      OnePerDayTail(rows);
      JoinDayDistinct(tail, students, date, f);
      JoinOneAtMostOne(rows[0], students, date, f);
      var head := JoinOne(rows[0], students, date, f);
      var rest := JoinDay(tail, students, date, f);
      forall x, y | x in head && y in rest ensures RowStudentId(x) != RowStudentId(y) {
        assert x.record == rows[0] && rows[0].date == date;
        assert y.record in tail && y.record.date == date;
      }
      DistinctPrepend(head, rest, RowStudentId);
    }
  }

  /**
    With one row per student per day and unique student ids on the roster,
    no student appears twice in the attendance of a date.
   */
  lemma AttendanceOncePerStudent(students: seq<Student>, rows: seq<Record>, date: Date, f: Filter)
    requires OnePerDay(rows)
    requires forall i, j :: 0 <= i < j < |students| ==> students[i].studentId != students[j].studentId
    ensures DistinctBy(AttendanceForDate(students, rows, date, f), RowStudentId)
  {
    JoinDayDistinct(rows, students, date, f);
    PermutationKeepsDistinct(JoinDay(rows, students, date, f), AttendanceForDate(students, rows, date, f), RowStudentId);
  }

  // ---------------------------------------------------------------------------
  // GET /api/absent-late/:date
  // ---------------------------------------------------------------------------

  /** A row of the absent/late report: the student's columns, the CASE status and `check_in_time`. */
  datatype AbsentLateRow = AbsentLateRow(student: Student, status: string, checkIn: Option<Time>)

  function ReportName(x: AbsentLateRow): string {
    x.student.name
  }

  function ReportStudentKey(x: AbsentLateRow): nat {
    x.student.id
  }

  /**
    `a.time_in > '07:45:00'`. A NULL `time_in` makes the comparison unknown,
    which neither the WHERE nor the CASE treats as true.
   */
  predicate LateRecord(r: Record) {
    r.timeIn.Some? && r.timeIn.value > LateCutoff
  }

  /** The rows of student `sid` on day `d`, in ledger order. */
  function DayRows(rows: seq<Record>, sid: string, d: Date): (r: seq<Record>)
    ensures |r| == CountOnDay(rows, sid, d)
    ensures forall x :: x in r ==> x in rows && OnDay(x, sid, d)
    ensures forall i :: 0 <= i < |rows| && OnDay(rows[i], sid, d) ==> rows[i] in r
    decreases |rows|
  {
    if |rows| == 0 then []
    else
      var rest := DayRows(rows[1..], sid, d);
      assert forall x :: x in rows[1..] ==> x in rows;
      assert forall i :: 1 <= i < |rows| ==> rows[i] == rows[1..][i - 1];
      if OnDay(rows[0], sid, d) then [rows[0]] + rest else rest
  }

  /**
    The left join of one student with the day's attendance: each of the
    student's rows on that day, or a single all-NULL row when there is none.
   */
  function LeftJoin(s: Student, rows: seq<Record>, d: Date): (ms: seq<Option<Record>>)
    ensures None in ms <==> !HasRecord(rows, s.studentId, d)
    ensures forall m :: m in ms && m.Some? ==> m.value in rows && OnDay(m.value, s.studentId, d)
    ensures forall r :: r in rows && OnDay(r, s.studentId, d) ==> Some(r) in ms
    ensures |ms| == if HasRecord(rows, s.studentId, d) then CountOnDay(rows, s.studentId, d) else 1
  {
    var day := DayRows(rows, s.studentId, d);
    if |day| == 0 then [None]
    else
      var ms := seq(|day|, i requires 0 <= i < |day| => Some(day[i]));
      assert forall r :: r in day ==> Some(r) in ms by {
        forall r | r in day ensures Some(r) in ms {
          var k :| 0 <= k < |day| && day[k] == r;
          assert ms[k] == Some(r);
        }
      }
      ms
  }

  /** The CASE expression: 'Absent' for the NULL row, 'Late' after the cutoff, else 'Present'. */
  function CaseStatus(m: Option<Record>): string {
    match m
    case None => "Absent"
    case Some(r) => if LateRecord(r) then "Late" else "Present"
  }

  /** The report keeps a student with no row that day, or with a check-in after the cutoff. */
  predicate Reportable(m: Option<Record>) {
    m.None? || LateRecord(m.value)
  }

  function ReportRow(s: Student, m: Option<Record>): AbsentLateRow {
    AbsentLateRow(s, CaseStatus(m), if m.None? then None else m.value.timeIn)
  }

  /** The report rows the joined rows of one student yield. */
  function Project(s: Student, ms: seq<Option<Record>>): (r: seq<AbsentLateRow>)
    ensures |r| <= |ms|
    ensures forall x :: x in r ==> exists m :: m in ms && Reportable(m) && x == ReportRow(s, m)
    ensures forall m :: m in ms && Reportable(m) ==> ReportRow(s, m) in r
    decreases |ms|
  {
    if |ms| == 0 then []
    else
      var rest := Project(s, ms[1..]);
      assert forall m :: m in ms[1..] ==> m in ms;
      assert ms == [ms[0]] + ms[1..];
      if Reportable(ms[0]) then [ReportRow(s, ms[0])] + rest else rest
  }

  /**
    The report says "Absent" with no check-in time for a student without a
    row that day, and "Late" with the row's check-in time for a row after the
    cutoff. Nothing else is reported; in particular never "Present".
   */
  predicate Flagged(x: AbsentLateRow, rows: seq<Record>, d: Date) {
    || (x.status == "Absent" && x.checkIn == None && !HasRecord(rows, x.student.studentId, d))
    || (x.status == "Late" && exists r :: r in rows && OnDay(r, x.student.studentId, d) && LateRecord(r) && x.checkIn == r.timeIn)
  }

  lemma ProjectFlagged(s: Student, rows: seq<Record>, d: Date, x: AbsentLateRow)
    requires x in Project(s, LeftJoin(s, rows, d))
    ensures x.student == s && Flagged(x, rows, d)
  {
    var ms := LeftJoin(s, rows, d);
    var m :| m in ms && Reportable(m) && x == ReportRow(s, m);
    if m.Some? {
      assert m.value in rows && OnDay(m.value, s.studentId, d);
    }
  }

  /** The unsorted report over the students that pass the filter, in roster order. */
  function Gather(students: seq<Student>, rows: seq<Record>, d: Date, f: Filter): (out: seq<AbsentLateRow>)
    ensures forall x :: x in out ==> x.student in students && Passes(x.student, f) && Flagged(x, rows, d)
    ensures forall s :: s in students && Passes(s, f) && !HasRecord(rows, s.studentId, d) ==> AbsentLateRow(s, "Absent", None) in out
    ensures forall s, r :: s in students && Passes(s, f) && r in rows && OnDay(r, s.studentId, d) && LateRecord(r) ==> AbsentLateRow(s, "Late", r.timeIn) in out
    decreases |students|
  {
    if |students| == 0 then []
    else
      var s := students[0];
      var rest := Gather(students[1..], rows, d, f);
      var mine := if Passes(s, f) then Project(s, LeftJoin(s, rows, d)) else [];
      GatherStep(students, rows, d, f, mine, rest);
      mine + rest
  }

  lemma GatherStep(students: seq<Student>, rows: seq<Record>, d: Date, f: Filter, mine: seq<AbsentLateRow>, rest: seq<AbsentLateRow>)
    requires |students| > 0
    requires mine == if Passes(students[0], f) then Project(students[0], LeftJoin(students[0], rows, d)) else []
    requires forall x :: x in rest ==> x.student in students[1..] && Passes(x.student, f) && Flagged(x, rows, d)
    requires forall s :: s in students[1..] && Passes(s, f) && !HasRecord(rows, s.studentId, d) ==> AbsentLateRow(s, "Absent", None) in rest
    requires forall s, r :: s in students[1..] && Passes(s, f) && r in rows && OnDay(r, s.studentId, d) && LateRecord(r) ==> AbsentLateRow(s, "Late", r.timeIn) in rest
    ensures var out := mine + rest;
      && (forall x :: x in out ==> x.student in students && Passes(x.student, f) && Flagged(x, rows, d))
      && (forall s :: s in students && Passes(s, f) && !HasRecord(rows, s.studentId, d) ==> AbsentLateRow(s, "Absent", None) in out)
      && (forall s, r :: s in students && Passes(s, f) && r in rows && OnDay(r, s.studentId, d) && LateRecord(r) ==> AbsentLateRow(s, "Late", r.timeIn) in out)
  {
    var s0 := students[0];
    assert students == [s0] + students[1..];
    forall x | x in mine ensures x.student == s0 && Passes(s0, f) && Flagged(x, rows, d) {
      ProjectFlagged(s0, rows, d, x);
    }
    forall s | s in students && Passes(s, f) && !HasRecord(rows, s.studentId, d)
      ensures AbsentLateRow(s, "Absent", None) in mine + rest
    {
      if s == s0 {
        assert None in LeftJoin(s, rows, d);
        assert ReportRow(s, None) in mine;
      } else {
        assert s in students[1..];
      }
    }
    forall s, r | s in students && Passes(s, f) && r in rows && OnDay(r, s.studentId, d) && LateRecord(r)
      ensures AbsentLateRow(s, "Late", r.timeIn) in mine + rest
    {
      if s == s0 {
        assert Some(r) in LeftJoin(s, rows, d);
        assert ReportRow(s, Some(r)) in mine;
      } else {
        assert s in students[1..];
      }
    }
  }

  /**
    The absent/late report of date `d`: exactly the Absent rows of the
    students without a row that day and the Late rows of the rows after the
    cutoff, among the students passing the filter, ordered by name.
   */
  function AbsentLate(students: seq<Student>, rows: seq<Record>, d: Date, f: Filter): (out: seq<AbsentLateRow>)
    ensures SortedBy(out, ReportName)
    ensures multiset(out) == multiset(Gather(students, rows, d, f))
    ensures forall x :: x in out ==> x.student in students && Passes(x.student, f) && Flagged(x, rows, d)
    ensures forall s :: s in students && Passes(s, f) && !HasRecord(rows, s.studentId, d) ==> AbsentLateRow(s, "Absent", None) in out
    ensures forall s, r :: s in students && Passes(s, f) && r in rows && OnDay(r, s.studentId, d) && LateRecord(r) ==> AbsentLateRow(s, "Late", r.timeIn) in out
  {
    var g := Gather(students, rows, d, f);
    var out := SortByName(g, ReportName);
    assert forall x :: x in out <==> x in g by {
      forall x ensures x in out <==> x in g {
        SortByNameMembers(g, ReportName, x);
      }
    }
    out
  }

  /** The CASE's 'Present' branch is dead: a row that passes the WHERE is never 'Present'. */
  lemma NeverPresent(students: seq<Student>, rows: seq<Record>, d: Date, f: Filter, x: AbsentLateRow)
    requires x in AbsentLate(students, rows, d, f)
    ensures x.status == "Absent" || x.status == "Late"
    ensures x.status == "Absent" <==> !HasRecord(rows, x.student.studentId, d)
  {
  }

  /** With one row per student per day, a student contributes at most one report row, about that student. */
  lemma ProjectAtMostOne(s: Student, rows: seq<Record>, d: Date)
    requires OnePerDay(rows)
    ensures |Project(s, LeftJoin(s, rows, d))| <= 1
    ensures forall x :: x in Project(s, LeftJoin(s, rows, d)) ==> x.student == s
  {
    OnePerDayIffCounts(rows);
    assert CountOnDay(rows, s.studentId, d) <= 1;
  }

  lemma {:induction false} GatherDistinct(students: seq<Student>, rows: seq<Record>, d: Date, f: Filter)
    requires OnePerDay(rows)
    requires forall i, j :: 0 <= i < j < |students| ==> students[i].id != students[j].id
    ensures DistinctBy(Gather(students, rows, d, f), ReportStudentKey)
    decreases |students|
  {
    if |students| > 0 {
      var s0 := students[0];
      var tail := students[1..];
      forall i, j | 0 <= i < j < |tail| ensures tail[i].id != tail[j].id {
        assert tail[i] == students[i + 1] && tail[j] == students[j + 1];
      }
      GatherDistinct(tail, rows, d, f);
      ProjectAtMostOne(s0, rows, d);
      var rest := Gather(tail, rows, d, f);
      var mine := if Passes(s0, f) then Project(s0, LeftJoin(s0, rows, d)) else [];
      forall x, y | x in mine && y in rest ensures ReportStudentKey(x) != ReportStudentKey(y) {
        var k :| 0 <= k < |tail| && tail[k] == y.student;
        assert students[k + 1] == y.student;
      }
      DistinctPrepend(mine, rest, ReportStudentKey);
    }
  }

  /**
    With one row per student per day and unique roster keys, each student
    appears at most once in the absent/late report.
   */
  lemma AbsentLateOncePerStudent(students: seq<Student>, rows: seq<Record>, d: Date, f: Filter)
    requires OnePerDay(rows)
    requires forall i, j :: 0 <= i < j < |students| ==> students[i].id != students[j].id
    ensures DistinctBy(AbsentLate(students, rows, d, f), ReportStudentKey)
  {
    GatherDistinct(students, rows, d, f);
    PermutationKeepsDistinct(Gather(students, rows, d, f), AbsentLate(students, rows, d, f), ReportStudentKey);
  }

  // ---------------------------------------------------------------------------
  // GET /api/stats
  // ---------------------------------------------------------------------------

  datatype Stats = Stats(totalStudents: nat, presentToday: nat, completedToday: nat, absentLateToday: nat)

  /** Counted by the absent/late query: no row today, or a row today after the cutoff. */
  predicate AbsentOrLate(s: Student, rows: seq<Record>, today: Date) {
    !HasRecord(rows, s.studentId, today) || exists r :: r in rows && OnDay(r, s.studentId, today) && LateRecord(r)
  }

  function StudentKey(s: Student): nat {
    s.id
  }

  function StudentIdOf(s: Student): string {
    s.studentId
  }

  /** The roster rows with a row today, in roster order. */
  function CheckedInStudents(students: seq<Student>, rows: seq<Record>, today: Date): (r: seq<Student>)
    ensures forall s :: s in r <==> s in students && HasRecord(rows, s.studentId, today)
    ensures IsSubsequence(r, students)
    ensures DistinctBy(students, StudentIdOf) ==> DistinctBy(r, StudentIdOf)
  {
    var p := (s: Student) => HasRecord(rows, s.studentId, today);
    WhereKeepsDistinct(students, p, StudentIdOf);
    Where(students, p)
  }

  /** The roster rows the absent/late query counts, in roster order. */
  function AbsentLateStudents(students: seq<Student>, rows: seq<Record>, today: Date): (r: seq<Student>)
    ensures forall s :: s in r <==> s in students && AbsentOrLate(s, rows, today)
    ensures IsSubsequence(r, students)
    ensures DistinctBy(students, StudentKey) ==> DistinctBy(r, StudentKey)
  {
    var p := (s: Student) => AbsentOrLate(s, rows, today);
    WhereKeepsDistinct(students, p, StudentKey);
    Where(students, p)
  }

  /**
    The dashboard counters at time `now` of day `today`: the number of
    distinct students, the number of distinct school ids with a row today
    (reported twice, as present and as completed), and, from the cutoff on,
    the number of distinct students the absent/late filter keeps; before the
    cutoff that count is zero.
   */
  function ComputeStats(students: seq<Student>, rows: seq<Record>, today: Date, now: Time): (st: Stats)
    ensures st.completedToday == st.presentToday
    ensures now < LateCutoff ==> st.absentLateToday == 0
  {
    var present := |PresentIds(students, rows, today)|;
    var absentLate := if now >= LateCutoff then |AbsentLateKeys(students, rows, today)| else 0;
    Stats(|RosterKeys(students)|, present, present, absentLate)
  }

  /** The distinct keys of the roster. */
  function RosterKeys(students: seq<Student>): set<nat> {
    set s | s in students :: s.id
  }

  /** The distinct school ids of roster students with a row on `today`. */
  function PresentIds(students: seq<Student>, rows: seq<Record>, today: Date): set<string> {
    set s | s in students && HasRecord(rows, s.studentId, today) :: s.studentId
  }

  /** The distinct keys of the students the absent/late filter keeps. */
  function AbsentLateKeys(students: seq<Student>, rows: seq<Record>, today: Date): set<nat> {
    set s | s in students && AbsentOrLate(s, rows, today) :: s.id
  }

  /**
    From the cutoff on, the absent/late counter is the number of distinct
    students in the unfiltered absent/late report of the same day.
   */
  lemma StatsMatchReport(students: seq<Student>, rows: seq<Record>, today: Date, now: Time)
    requires now >= LateCutoff
    ensures ComputeStats(students, rows, today, now).absentLateToday
      == |set x | x in AbsentLate(students, rows, today, NoFilter) :: x.student.id|
  {
    var report := AbsentLate(students, rows, today, NoFilter);
    var a := AbsentLateKeys(students, rows, today);
    var b := set x | x in report :: x.student.id;
    forall k | k in a ensures k in b {
      var s :| s in students && AbsentOrLate(s, rows, today) && s.id == k;
      if HasRecord(rows, s.studentId, today) {
        var r :| r in rows && OnDay(r, s.studentId, today) && LateRecord(r);
        assert AbsentLateRow(s, "Late", r.timeIn) in report;
      } else {
        assert AbsentLateRow(s, "Absent", None) in report;
      }
    }
    forall k | k in b ensures k in a {
      var x :| x in report && x.student.id == k;
      assert AbsentOrLate(x.student, rows, today);
    }
    assert a == b;
  }

  lemma TotalCount(ss: seq<Student>)
    requires DistinctBy(ss, StudentKey)
    ensures |RosterKeys(ss)| == |ss|
  {
    DistinctKeyCount(ss, StudentKey);
    assert RosterKeys(ss) == KeySet(ss, StudentKey);
  }

  lemma PresentCount(ss: seq<Student>, rows: seq<Record>, today: Date)
    requires DistinctBy(ss, StudentIdOf)
    ensures |PresentIds(ss, rows, today)| == |CheckedInStudents(ss, rows, today)|
  {
    var present := CheckedInStudents(ss, rows, today);
    DistinctKeyCount(present, StudentIdOf);
    assert PresentIds(ss, rows, today) == KeySet(present, StudentIdOf);
  }

  lemma AbsentLateCount(ss: seq<Student>, rows: seq<Record>, today: Date)
    requires DistinctBy(ss, StudentKey)
    ensures |AbsentLateKeys(ss, rows, today)| == |AbsentLateStudents(ss, rows, today)|
  {
    var late := AbsentLateStudents(ss, rows, today);
    DistinctKeyCount(late, StudentKey);
    assert AbsentLateKeys(ss, rows, today) == KeySet(late, StudentKey);
  }

  /**
    On a well-formed roster the counters are plain counts of students:
    everyone, those with a row today, and those the absent/late query keeps;
    so neither the present nor the absent/late count exceeds the total.
   */
  lemma StatsCounts(roster: Roster, rows: seq<Record>, today: Date, now: Time)
    requires ValidRoster(roster)
    ensures var st := ComputeStats(roster.students, rows, today, now);
      && st.totalStudents == |roster.students|
      && st.presentToday == |CheckedInStudents(roster.students, rows, today)|
      && (now >= LateCutoff ==> st.absentLateToday == |AbsentLateStudents(roster.students, rows, today)|)
      && st.presentToday <= st.totalStudents
      && st.absentLateToday <= st.totalStudents
  {
    var ss := roster.students;
    assert DistinctBy(ss, StudentKey);
    assert DistinctBy(ss, StudentIdOf);
    TotalCount(ss);
    PresentCount(ss, rows, today);
    AbsentLateCount(ss, rows, today);
  }
}
