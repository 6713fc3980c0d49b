/**
  The start-up duplicate cleanup: for every student and day, delete every
  attendance row that another row of the same student and day outranks by
  a larger id, so that only the latest row survives.
 */
module Cleanup {
  import opened Domain

  /** Some row of `all` for the same student and day has a larger id than `r`. */
  predicate Superseded(r: Record, all: seq<Record>) {
    exists j :: 0 <= j < |all| && SameDay(all[j], r) && all[j].id > r.id
  }

  ghost predicate IncreasingIds(rows: seq<Record>) {
    forall i, j :: 0 <= i < j < |rows| ==> rows[i].id < rows[j].id
  }

  /** The rows of `rs` that no row of `all` supersedes, in their original order. */
  function KeepLatest(rs: seq<Record>, all: seq<Record>): (r: seq<Record>)
    ensures |r| <= |rs|
    ensures forall i :: 0 <= i < |r| ==> r[i] in rs && !Superseded(r[i], all)
    ensures forall i :: 0 <= i < |rs| && !Superseded(rs[i], all) ==> rs[i] in r
    ensures IncreasingIds(rs) ==> IncreasingIds(r)
    decreases |rs|
  {
    if |rs| == 0 then []
    else
      var rest := KeepLatest(rs[1..], all);
      KeepLatestStep(rs, all, rest);
      if Superseded(rs[0], all) then rest else [rs[0]] + rest
  }

  lemma KeepLatestStep(rs: seq<Record>, all: seq<Record>, rest: seq<Record>)
    requires |rs| > 0
    requires forall i :: 0 <= i < |rest| ==> rest[i] in rs[1..] && !Superseded(rest[i], all)
    requires forall i :: 0 <= i < |rs[1..]| && !Superseded(rs[1..][i], all) ==> rs[1..][i] in rest
    requires IncreasingIds(rs[1..]) ==> IncreasingIds(rest)
    ensures var r := if Superseded(rs[0], all) then rest else [rs[0]] + rest;
      && (forall i :: 0 <= i < |r| ==> r[i] in rs && !Superseded(r[i], all))
      && (forall i :: 0 <= i < |rs| && !Superseded(rs[i], all) ==> rs[i] in r)
      && (IncreasingIds(rs) ==> IncreasingIds(r))
  {
    var r := if Superseded(rs[0], all) then rest else [rs[0]] + rest;
    KeepLatestMembers(rs, all, rest);
    if IncreasingIds(rs) {
      KeepLatestOrder(rs, all, rest);
    }
  }

  lemma KeepLatestMembers(rs: seq<Record>, all: seq<Record>, rest: seq<Record>)
    requires |rs| > 0
    requires forall i :: 0 <= i < |rest| ==> rest[i] in rs[1..] && !Superseded(rest[i], all)
    requires forall i :: 0 <= i < |rs[1..]| && !Superseded(rs[1..][i], all) ==> rs[1..][i] in rest
    ensures var r := if Superseded(rs[0], all) then rest else [rs[0]] + rest;
      && (forall i :: 0 <= i < |r| ==> r[i] in rs && !Superseded(r[i], all))
      && (forall i :: 0 <= i < |rs| && !Superseded(rs[i], all) ==> rs[i] in r)
  {
    KeepLatestSound(rs, all, rest);
    KeepLatestComplete(rs, all, rest);
  }

  lemma KeepLatestSound(rs: seq<Record>, all: seq<Record>, rest: seq<Record>)
    requires |rs| > 0
    requires forall i :: 0 <= i < |rest| ==> rest[i] in rs[1..] && !Superseded(rest[i], all)
    ensures var r := if Superseded(rs[0], all) then rest else [rs[0]] + rest;
      forall i :: 0 <= i < |r| ==> r[i] in rs && !Superseded(r[i], all)
  {
    assert forall x :: x in rs[1..] ==> x in rs;
    var r := if Superseded(rs[0], all) then rest else [rs[0]] + rest;
    forall i | 0 <= i < |r| ensures r[i] in rs && !Superseded(r[i], all) {
      if r != rest && i == 0 {
        assert r[i] == rs[0];
      } else {
        var x := if r == rest then rest[i] else rest[i - 1];
        assert r[i] == x;
      }
    }
  }

  lemma KeepLatestComplete(rs: seq<Record>, all: seq<Record>, rest: seq<Record>)
    requires |rs| > 0
    requires forall i :: 0 <= i < |rs[1..]| && !Superseded(rs[1..][i], all) ==> rs[1..][i] in rest
    ensures var r := if Superseded(rs[0], all) then rest else [rs[0]] + rest;
      forall i :: 0 <= i < |rs| && !Superseded(rs[i], all) ==> rs[i] in r
  {
    var r := if Superseded(rs[0], all) then rest else [rs[0]] + rest;
    assert forall x :: x in rest ==> x in r;
    forall i | 0 <= i < |rs| && !Superseded(rs[i], all) ensures rs[i] in r {
      if i > 0 {
        assert rs[i] == rs[1..][i - 1];
      }
    }
  }

  lemma KeepLatestOrder(rs: seq<Record>, all: seq<Record>, rest: seq<Record>)
    requires |rs| > 0
    requires forall i :: 0 <= i < |rest| ==> rest[i] in rs[1..]
    requires IncreasingIds(rs[1..]) ==> IncreasingIds(rest)
    requires IncreasingIds(rs)
    ensures IncreasingIds([rs[0]] + rest) && IncreasingIds(rest)
  {
    assert IncreasingIds(rs[1..]) by {
      forall i, j | 0 <= i < j < |rs[1..]| ensures rs[1..][i].id < rs[1..][j].id {
        assert rs[1..][i] == rs[i + 1] && rs[1..][j] == rs[j + 1];
      }
    }
    forall i | 0 <= i < |rest| ensures rs[0].id < rest[i].id {
      assert rest[i] in rs[1..];
      var k :| 0 <= k < |rs[1..]| && rs[1..][k] == rest[i];
      assert rs[k + 1] == rest[i];
    }
    var r := [rs[0]] + rest;
    forall i, j | 0 <= i < j < |r| ensures r[i].id < r[j].id {
      assert r[j] == rest[j - 1];
      if i > 0 {
        assert r[i] == rest[i - 1];
      }
    }
  }

  /**
    The start-up cleanup: every row that a row of the same student and day
    outranks with a larger id is deleted; the rest stay, in order.
   */
  function CleanupDuplicates(l: Ledger): (r: Ledger)
    ensures r.nextId == l.nextId
    ensures forall x :: x in r.rows ==> x in l.rows
    ensures forall x :: x in r.rows ==> forall y :: y in l.rows && SameDay(x, y) ==> y.id <= x.id
    ensures forall x :: x in l.rows && !Superseded(x, l.rows) ==> x in r.rows
  {
    Ledger(KeepLatest(l.rows, l.rows), l.nextId)
  }

  /** A row no other row supersedes shares no student and day with any row of larger id. */
  lemma SurvivorsApart(x: Record, y: Record, all: seq<Record>)
    requires y in all && !Superseded(x, all) && x.id < y.id
    ensures !SameDay(x, y)
  {
    var k :| 0 <= k < |all| && all[k] == y;
    assert !(SameDay(y, x) && y.id > x.id);
  }

  lemma CleanupKeepsValid(l: Ledger)
    requires ValidLedger(l)
    ensures ValidLedger(CleanupDuplicates(l))
  {
    assert IncreasingIds(l.rows);
  }

  /** After cleanup each student has at most one row per day, and the ledger stays well formed. */
  lemma CleanupOnePerDay(l: Ledger)
    requires ValidLedger(l)
    ensures OnePerDay(CleanupDuplicates(l).rows)
    ensures ValidLedger(CleanupDuplicates(l))
  {
    CleanupKeepsValid(l);
    var r := CleanupDuplicates(l).rows;
    forall i, j | 0 <= i < j < |r| ensures !SameDay(r[i], r[j]) {
      assert r[i] in r && r[j] in r;
      SurvivorsApart(r[i], r[j], l.rows);
    }
  }

  /** Among rows of one student and day, the one with the largest id. */
  lemma {:induction false} LatestOnDay(rows: seq<Record>, sid: string, d: Date) returns (k: nat)
    requires HasRecord(rows, sid, d)
    ensures k < |rows| && OnDay(rows[k], sid, d)
    ensures forall i :: 0 <= i < |rows| && OnDay(rows[i], sid, d) ==> rows[i].id <= rows[k].id
    decreases |rows|
  {
    HasRecordCons(rows, sid, d);
    if HasRecord(rows[1..], sid, d) {
      var k' := LatestOnDay(rows[1..], sid, d);
      assert forall i :: 1 <= i < |rows| ==> rows[i] == rows[1..][i - 1];
      if OnDay(rows[0], sid, d) && rows[0].id > rows[k' + 1].id {
        k := 0;
      } else {
        k := k' + 1;
      }
    } else {
      assert forall i :: 1 <= i < |rows| ==> rows[i] == rows[1..][i - 1];
      k := 0;
    }
  }

  /** Every student and day that had a row before the cleanup still has one: its latest. */
  lemma CleanupKeepsEveryDay(l: Ledger, sid: string, d: Date)
    requires HasRecord(l.rows, sid, d)
    ensures HasRecord(CleanupDuplicates(l).rows, sid, d)
  {
    var k := LatestOnDay(l.rows, sid, d);
    var x := l.rows[k];
    assert !Superseded(x, l.rows);
    assert x in CleanupDuplicates(l).rows;
    var r := CleanupDuplicates(l).rows;
    var m :| 0 <= m < |r| && r[m] == x;
  }

  /** A student and day with a single row keeps exactly that row. */
  lemma CleanupKeepsSingleRow(l: Ledger, i: nat)
    requires i < |l.rows|
    requires CountOnDay(l.rows, l.rows[i].studentId, l.rows[i].date) == 1
    ensures l.rows[i] in CleanupDuplicates(l).rows
  {
    var x := l.rows[i];
    forall j | 0 <= j < |l.rows| && SameDay(l.rows[j], x) ensures l.rows[j].id <= x.id {
      if j < i {
        CountTwo(l.rows, j, i);
      } else if i < j {
        CountTwo(l.rows, i, j);
      }
    }
  }

  /** In a ledger with one row per student and day, no row is superseded. */
  lemma NoneSuperseded(x: Record, all: seq<Record>)
    requires OnePerDay(all)
    requires x in all
    ensures !Superseded(x, all)
  {
    var k :| 0 <= k < |all| && all[k] == x;
    forall j | 0 <= j < |all| && SameDay(all[j], x) ensures all[j].id <= x.id {
      assert j == k;
    }
  }

  /** A ledger that already has one row per student and day is left as it is. */
  lemma {:induction false} KeepLatestNoDuplicates(rs: seq<Record>, all: seq<Record>)
    requires OnePerDay(all)
    requires forall x :: x in rs ==> x in all
    ensures KeepLatest(rs, all) == rs
    decreases |rs|
  {
    if |rs| > 0 {
      var tail := rs[1..];
      NoneSuperseded(rs[0], all);
      forall y | y in tail ensures y in all {
        assert y in rs;
      }
      KeepLatestNoDuplicates(tail, all);
      assert KeepLatest(rs, all) == [rs[0]] + KeepLatest(tail, all);
      assert rs == [rs[0]] + tail;
    }
  }

  /** Cleanup is idempotent. */
  lemma CleanupIdempotent(l: Ledger)
    requires ValidLedger(l)
    ensures CleanupDuplicates(CleanupDuplicates(l)) == CleanupDuplicates(l)
  {
    var c := CleanupDuplicates(l);
    CleanupOnePerDay(l);
    KeepLatestNoDuplicates(c.rows, c.rows);
  }
}
