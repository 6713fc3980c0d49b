/**
  Scan resolution: what `POST /api/attendance/scan` does with a barcode at a
  given date and time of day. The outcome is one of five, and the ledger is
  changed only by a first check-in (one row appended) or by a check-in after
  the two-hour cooldown (the existing row's `time_in` overwritten).
 */
module Scanning {
  import opened Base
  import opened Clock
  import opened Domain

  datatype ScanOutcome =
    | BarcodeRequired
    | StudentNotFound
      /** A repeat scan within two hours of the stored `time_in`; `remaining` is in seconds. */
    | CooldownCheckIn(student: Student, remaining: int)
      /** A repeat scan after the cooldown: the stored `time_in` became `time`. */
    | CheckedInAgain(student: Student, time: Time)
      /** The first scan of the day: a new row with `time_in = time`. */
    | CheckedIn(student: Student, time: Time)
  {
    /** Answered with a JSON body carrying an `action`, rather than an error status. */
    predicate Succeeded() {
      CooldownCheckIn? || CheckedInAgain? || CheckedIn?
    }

    /** The `action` field of a successful answer. */
    function Action(): string
      requires Succeeded()
    {
      if CooldownCheckIn? then "cooldown_checkin" else "checkin"
    }

    /** The `error` field of a refused scan. */
    function Error(): string
      requires !Succeeded()
    {
      if BarcodeRequired? then "Barcode is required" else "Student not found"
    }
  }

  datatype ScanResult = ScanResult(outcome: ScanOutcome, ledger: Ledger)

  /** A repeat check-in: the row with that id gets the new time_in. */
  function SetTimeIn(rows: seq<Record>, id: nat, t: Time): (r: seq<Record>)
    ensures |r| == |rows|
    ensures forall i :: 0 <= i < |rows| ==> r[i] == if rows[i].id == id then rows[i].(timeIn := Some(t)) else rows[i]
  {
    seq(|rows|, i requires 0 <= i < |rows| => if rows[i].id == id then rows[i].(timeIn := Some(t)) else rows[i])
  }

  /**
    Fewer than two hours have passed since the row's check-in. A NULL
    `time_in` makes the elapsed time NaN, which is never below two hours.
   */
  predicate InCooldown(r: Record, now: Time) {
    r.timeIn.Some? && now - r.timeIn.value < Cooldown
  }

  /** The row a first check-in appends. */
  function NewRecord(l: Ledger, s: Student, today: Date, now: Time): Record {
    Record(l.nextId, s.studentId, today, Some(now), DefaultStatus)
  }

  /** Resolves one scan of `barcode` on day `today` at time `now`. */
  function Scan(students: seq<Student>, ledger: Ledger, barcode: string, today: Date, now: Time): (res: ScanResult)
    ensures res.outcome.BarcodeRequired? <==> barcode == ""
    ensures res.outcome.StudentNotFound? <==> barcode != "" && FindByBarcode(students, barcode).None?
    ensures res.outcome.Succeeded() ==> Some(res.outcome.student) == FindByBarcode(students, barcode)
    ensures !res.outcome.Succeeded() || res.outcome.CooldownCheckIn? ==> res.ledger == ledger
    ensures res.outcome.CheckedIn? ==>
      && res.outcome.time == now
      && !HasRecord(ledger.rows, res.outcome.student.studentId, today)
      && res.ledger == Ledger(ledger.rows + [NewRecord(ledger, res.outcome.student, today, now)], ledger.nextId + 1)
    ensures res.outcome.CooldownCheckIn? ==>
      var k := FirstOnDay(ledger.rows, res.outcome.student.studentId, today);
      && k.Some? && InCooldown(ledger.rows[k.value], now)
      && res.outcome.remaining == Cooldown - (now - ledger.rows[k.value].timeIn.value)
      && res.outcome.remaining > 0
    ensures res.outcome.CheckedInAgain? ==>
      var sid := res.outcome.student.studentId;
      var k := FirstOnDay(ledger.rows, sid, today);
      && res.outcome.time == now
      && k.Some? && !InCooldown(ledger.rows[k.value], now)
      && res.ledger.nextId == ledger.nextId
      && |res.ledger.rows| == |ledger.rows|
      && (ValidLedger(ledger) ==> forall i :: 0 <= i < |ledger.rows| ==>
            if i == k.value then res.ledger.rows[i] == ledger.rows[i].(timeIn := Some(now))
            else res.ledger.rows[i] == ledger.rows[i])
  {
    if barcode == "" then ScanResult(BarcodeRequired, ledger)
    else
      match FindByBarcode(students, barcode)
      case None => ScanResult(StudentNotFound, ledger)
      case Some(s) =>
        match FirstOnDay(ledger.rows, s.studentId, today)
        case Some(k) =>
          var r := ledger.rows[k];
          if InCooldown(r, now) then
            ScanResult(CooldownCheckIn(s, Cooldown - (now - r.timeIn.value)), ledger)
          else
            ScanResult(CheckedInAgain(s, now), Ledger(SetTimeIn(ledger.rows, r.id, now), ledger.nextId))
        case None =>
          ScanResult(CheckedIn(s, now), Ledger(ledger.rows + [NewRecord(ledger, s, today, now)], ledger.nextId + 1))
  }

  // ---------------------------------------------------------------------------
  // What a scan does to the ledger's invariants
  // ---------------------------------------------------------------------------

  lemma {:induction false} SetTimeInCounts(rows: seq<Record>, id: nat, t: Time, sid: string, d: Date)
    ensures CountOnDay(SetTimeIn(rows, id, t), sid, d) == CountOnDay(rows, sid, d)
    decreases |rows|
  {
    if |rows| > 0 {
      assert SetTimeIn(rows, id, t)[1..] == SetTimeIn(rows[1..], id, t);
      SetTimeInCounts(rows[1..], id, t, sid, d);
    }
  }

  /** A scan keeps row keys increasing and below the counter. */
  lemma ScanKeepsValid(students: seq<Student>, ledger: Ledger, barcode: string, today: Date, now: Time)
    requires ValidLedger(ledger)
    ensures ValidLedger(Scan(students, ledger, barcode, today, now).ledger)
  {
  }

  /**
    Per student and day, a scan leaves the number of rows as it was, except
    that a first check-in takes the scanned student's count for today from
    zero to one. So no scan ever creates a second row for a pair that has one.
   */
  lemma ScanCounts(students: seq<Student>, ledger: Ledger, barcode: string, today: Date, now: Time, sid: string, d: Date)
    ensures var res := Scan(students, ledger, barcode, today, now);
      CountOnDay(res.ledger.rows, sid, d) ==
        if res.outcome.CheckedIn? && sid == res.outcome.student.studentId && d == today
        then 1 else CountOnDay(ledger.rows, sid, d)
  {
    var res := Scan(students, ledger, barcode, today, now);
    if res.outcome.CheckedIn? {
      CountAppend(ledger.rows, NewRecord(ledger, res.outcome.student, today, now), sid, d);
    } else if res.outcome.CheckedInAgain? {
      var k := FirstOnDay(ledger.rows, res.outcome.student.studentId, today);
      SetTimeInCounts(ledger.rows, ledger.rows[k.value].id, now, sid, d);
    }
  }

  /** The one-row-per-student-per-day invariant survives every scan. */
  lemma ScanKeepsOnePerDay(students: seq<Student>, ledger: Ledger, barcode: string, today: Date, now: Time)
    requires OnePerDay(ledger.rows)
    ensures OnePerDay(Scan(students, ledger, barcode, today, now).ledger.rows)
  {
    var res := Scan(students, ledger, barcode, today, now);
    OnePerDayIffCounts(ledger.rows);
    forall sid, d ensures CountOnDay(res.ledger.rows, sid, d) <= 1 {
      ScanCounts(students, ledger, barcode, today, now, sid, d);
    }
    OnePerDayIffCounts(res.ledger.rows);
  }

  /**
    Two scans of the same card on one day, the second within two hours of the
    first: the second is a cooldown and the ledger keeps the one new row.
   */
  lemma ScanTwiceWithinCooldown(students: seq<Student>, ledger: Ledger, barcode: string, today: Date, t: Time, u: Time)
    requires t <= u < t + Cooldown
    requires Scan(students, ledger, barcode, today, t).outcome.CheckedIn?
    ensures var first := Scan(students, ledger, barcode, today, t);
      var second := Scan(students, first.ledger, barcode, today, u);
      && second.outcome.CooldownCheckIn?
      && second.outcome.remaining == Cooldown - (u - t)
      && second.ledger == first.ledger
      && CountOnDay(second.ledger.rows, first.outcome.student.studentId, today) == 1
  {
    var first := Scan(students, ledger, barcode, today, t);
    var s := first.outcome.student;
    var rows := first.ledger.rows;
    var n := |ledger.rows|;
    assert rows[n] == NewRecord(ledger, s, today, t);
    assert forall i :: 0 <= i < n ==> rows[i] == ledger.rows[i];
    assert FirstOnDay(rows, s.studentId, today) == Some(n);
    ScanCounts(students, ledger, barcode, today, t, s.studentId, today);
  }

  /**
    The same two scans with at least two hours between them: the second
    overwrites the row's `time_in` and still leaves a single row.
   */
  lemma ScanTwiceAfterCooldown(students: seq<Student>, ledger: Ledger, barcode: string, today: Date, t: Time, u: Time)
    requires t + Cooldown <= u
    requires Scan(students, ledger, barcode, today, t).outcome.CheckedIn?
    ensures var first := Scan(students, ledger, barcode, today, t);
      var second := Scan(students, first.ledger, barcode, today, u);
      && second.outcome.CheckedInAgain?
      && second.outcome.time == u
      && CountOnDay(second.ledger.rows, first.outcome.student.studentId, today) == 1
  {
    var first := Scan(students, ledger, barcode, today, t);
    var s := first.outcome.student;
    var rows := first.ledger.rows;
    var n := |ledger.rows|;
    assert rows[n] == NewRecord(ledger, s, today, t);
    assert forall i :: 0 <= i < n ==> rows[i] == ledger.rows[i];
    assert FirstOnDay(rows, s.studentId, today) == Some(n);
    ScanCounts(students, ledger, barcode, today, t, s.studentId, today);
    ScanCounts(students, first.ledger, barcode, today, u, s.studentId, today);
  }

  /** A scan never creates a row for a student who is not on the roster. */
  lemma ScanKeepsLinked(students: seq<Student>, ledger: Ledger, barcode: string, today: Date, now: Time)
    requires Linked(students, ledger.rows)
    ensures Linked(students, Scan(students, ledger, barcode, today, now).ledger.rows)
  {
    var res := Scan(students, ledger, barcode, today, now);
    var rows := res.ledger.rows;
    forall x | x in rows ensures exists s :: s in students && s.studentId == x.studentId {
      var i :| 0 <= i < |rows| && rows[i] == x;
      if i < |ledger.rows| {
        assert ledger.rows[i] in ledger.rows;
        assert x.studentId == ledger.rows[i].studentId;
      } else {
        assert res.outcome.student in students;
      }
    }
  }
}
