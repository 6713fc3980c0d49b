/**
  The tracker's data: the `students` roster, the `attendance` ledger and the
  form/class catalog, as immutable values. The ledger and roster are kept in
  primary-key order, the order the database returns rows in when a query
  has no `ORDER BY`.
 */
module Domain {
  import opened Base
  import opened Clock

  /** A calendar date, "YYYY-MM-DD"; the model only ever compares dates for equality. */
  type Date = string

  /**
    A row of the `students` table: the auto-increment key `id`, the unique
    school identifier `studentId`, and the unique `barcode` printed on the card.
   */
  datatype Student = Student(id: nat, studentId: string, name: string, form: int, cls: string, barcode: string)

  /** A row of the `attendance` table; `timeIn` may be NULL in the schema. */
  datatype Record = Record(id: nat, studentId: string, date: Date, timeIn: Option<Time>, status: string)

  /** The column default for `attendance.status`. */
  const DefaultStatus: string := "present"

  /** The `attendance` table and its next auto-increment value. */
  datatype Ledger = Ledger(rows: seq<Record>, nextId: nat)

  /** The `students` table and its next auto-increment value. */
  datatype Roster = Roster(students: seq<Student>, nextId: nat)

  /** The `forms` table: each form number with its ordered list of class names. */
  type Catalog = map<int, seq<string>>

  /** Row keys are strictly increasing and below the auto-increment counter. */
  ghost predicate ValidLedger(l: Ledger) {
    && (forall i, j :: 0 <= i < j < |l.rows| ==> l.rows[i].id < l.rows[j].id)
    && (forall i :: 0 <= i < |l.rows| ==> l.rows[i].id < l.nextId)
  }

  /** Keys increase and stay below the counter; `student_id` and `barcode` are UNIQUE columns. */
  ghost predicate ValidRoster(r: Roster) {
    && (forall i, j :: 0 <= i < j < |r.students| ==> r.students[i].id < r.students[j].id)
    && (forall i :: 0 <= i < |r.students| ==> r.students[i].id < r.nextId)
    && (forall i, j :: 0 <= i < j < |r.students| ==> r.students[i].studentId != r.students[j].studentId)
    && (forall i, j :: 0 <= i < j < |r.students| ==> r.students[i].barcode != r.students[j].barcode)
  }

  /** Every attendance row belongs to a student on the roster. */
  ghost predicate Linked(students: seq<Student>, rows: seq<Record>) {
    forall x :: x in rows ==> exists s :: s in students && s.studentId == x.studentId
  }

  /** The optional `form` and `class` query parameters shared by every listing. */
  datatype Filter = Filter(form: Option<int>, cls: string)

  /** No form and no class given. */
  const NoFilter: Filter := Filter(None, "")

  /** `AND s.form = ?` when a form is given, `AND s.class = ?` when a non-empty class is given. */
  predicate Passes(s: Student, f: Filter) {
    && (f.form.Some? ==> s.form == f.form.value)
    && (f.cls != "" ==> s.cls == f.cls)
  }

  /** `r` is an attendance row of student `sid` on day `d`. */
  predicate OnDay(r: Record, sid: string, d: Date) {
    r.studentId == sid && r.date == d
  }

  predicate SameDay(a: Record, b: Record) {
    a.studentId == b.studentId && a.date == b.date
  }

  /** Some row of `rows` belongs to student `sid` on day `d`. */
  predicate HasRecord(rows: seq<Record>, sid: string, d: Date) {
    exists i :: 0 <= i < |rows| && OnDay(rows[i], sid, d)
  }

  lemma HasRecordCons(rows: seq<Record>, sid: string, d: Date)
    requires |rows| > 0
    ensures HasRecord(rows, sid, d) <==> OnDay(rows[0], sid, d) || HasRecord(rows[1..], sid, d)
  {
    assert forall k :: 0 <= k < |rows[1..]| ==> rows[1..][k] == rows[k + 1];
    assert forall k :: 1 <= k < |rows| ==> rows[k] == rows[1..][k - 1];
  }

  /** How many rows of `rows` belong to student `sid` on day `d`. */
  function CountOnDay(rows: seq<Record>, sid: string, d: Date): (n: nat)
    ensures n <= |rows|
    ensures n == 0 <==> !HasRecord(rows, sid, d)
    decreases |rows|
  {
    if |rows| == 0 then 0
    else
      var rest := CountOnDay(rows[1..], sid, d);
      HasRecordCons(rows, sid, d);
      (if OnDay(rows[0], sid, d) then 1 else 0) + rest
  }

  /** The ledger's central invariant: at most one row per student per day. */
  ghost predicate OnePerDay(rows: seq<Record>) {
    forall i, j :: 0 <= i < j < |rows| ==> !SameDay(rows[i], rows[j])
  }

  /** Dropping the first row keeps one row per day, and no later row shares the first row's student and day. */
  lemma OnePerDayTail(rows: seq<Record>)
    requires |rows| > 0 && OnePerDay(rows)
    ensures OnePerDay(rows[1..])
    ensures forall x :: x in rows[1..] ==> !SameDay(rows[0], x)
  {
    var tail := rows[1..];
    forall i, j | 0 <= i < j < |tail| ensures !SameDay(tail[i], tail[j]) {
      assert tail[i] == rows[i + 1] && tail[j] == rows[j + 1];
    }
    forall x | x in tail ensures !SameDay(rows[0], x) {
      var k :| 0 <= k < |tail| && tail[k] == x;
      assert tail[k] == rows[k + 1];
    }
  }

  lemma {:induction false} CountAppend(rows: seq<Record>, x: Record, sid: string, d: Date)
    ensures CountOnDay(rows + [x], sid, d) == CountOnDay(rows, sid, d) + (if OnDay(x, sid, d) then 1 else 0)
    decreases |rows|
  {
    if |rows| > 0 {
      assert (rows + [x])[1..] == rows[1..] + [x];
      CountAppend(rows[1..], x, sid, d);
    } else {
      assert (rows + [x])[1..] == [];
    }
  }

  /** Two rows of the same student and day make the count at least two. */
  lemma {:induction false} CountTwo(rows: seq<Record>, i: nat, j: nat)
    requires i < j < |rows| && SameDay(rows[i], rows[j])
    ensures CountOnDay(rows, rows[i].studentId, rows[i].date) >= 2
    decreases |rows|
  {
    var sid, d := rows[i].studentId, rows[i].date;
    if i > 0 {
      assert rows[1..][i - 1] == rows[i] && rows[1..][j - 1] == rows[j];
      CountTwo(rows[1..], i - 1, j - 1);
    } else {
      assert rows[1..][j - 1] == rows[j];
      assert HasRecord(rows[1..], sid, d);
    }
  }

  /** A count above one exhibits two rows of the same student and day. */
  lemma {:induction false} CountAboveOne(rows: seq<Record>, sid: string, d: Date) returns (i: nat, j: nat)
    requires CountOnDay(rows, sid, d) >= 2
    ensures i < j < |rows| && OnDay(rows[i], sid, d) && OnDay(rows[j], sid, d)
    decreases |rows|
  {
    if OnDay(rows[0], sid, d) {
      var k :| 0 <= k < |rows[1..]| && OnDay(rows[1..][k], sid, d);
      i, j := 0, k + 1;
    } else {
      var a, b := CountAboveOne(rows[1..], sid, d);
      i, j := a + 1, b + 1;
    }
  }

  /** "At most one row per student per day" said with counts. */
  lemma OnePerDayIffCounts(rows: seq<Record>)
    ensures OnePerDay(rows) <==> forall sid, d :: CountOnDay(rows, sid, d) <= 1
  {
    if OnePerDay(rows) {
      forall sid, d ensures CountOnDay(rows, sid, d) <= 1 {
        if CountOnDay(rows, sid, d) >= 2 {
          var i, j := CountAboveOne(rows, sid, d);
          assert false;
        }
      }
    } else {
      var i, j :| 0 <= i < j < |rows| && SameDay(rows[i], rows[j]);
      CountTwo(rows, i, j);
    }
  }

  /** The first student on the roster whose barcode is `barcode`. */
  function FindByBarcode(students: seq<Student>, barcode: string): (r: Option<Student>)
    ensures r.Some? ==> r.value in students && r.value.barcode == barcode
    ensures r.None? <==> forall i :: 0 <= i < |students| ==> students[i].barcode != barcode
    decreases |students|
  {
    if |students| == 0 then None
    else if students[0].barcode == barcode then Some(students[0])
    else
      var r := FindByBarcode(students[1..], barcode);
      assert forall i :: 1 <= i < |students| ==> students[i] == students[1..][i - 1];
      r
  }

  /** The position of the first row of student `sid` on day `d`. */
  function FirstOnDay(rows: seq<Record>, sid: string, d: Date): (k: Option<nat>)
    ensures k.None? <==> !HasRecord(rows, sid, d)
    ensures k.Some? ==> k.value < |rows| && OnDay(rows[k.value], sid, d)
    ensures k.Some? ==> forall i :: 0 <= i < k.value ==> !OnDay(rows[i], sid, d)
    decreases |rows|
  {
    if |rows| == 0 then None
    else if OnDay(rows[0], sid, d) then Some(0)
    else
      match FirstOnDay(rows[1..], sid, d)
      case None =>
        HasRecordCons(rows, sid, d);
        None
      case Some(k) =>
        assert forall i :: 1 <= i < k + 1 ==> rows[i] == rows[1..][i - 1];
        Some(k + 1)
  }
}
