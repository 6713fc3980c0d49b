/**
  The browser side's pure helpers: the guard in front of a scan request, the
  ten-entry scan history, the local student search, the Present/Absent
  label, the CSV exports, the export file names, the barcode-sheet title and
  the listing URLs. Filter values are the strings the select boxes hold,
  "" when nothing is selected.
 */
module Client {
  import opened Base
  import opened Text
  import opened Lists
  import opened Clock
  import opened Domain
  import opened Scanning
  import opened Reports

  // ---------------------------------------------------------------------------
  // processBarcode
  // ---------------------------------------------------------------------------

  /**
    The barcode a scan sends, or None when the input is empty or only
    whitespace and no request is made.
   */
  function ProcessBarcode(barcode: string): (r: Option<string>)
    ensures r.None? <==> AllSpace(barcode)
    ensures r.Some? ==> r.value == Trim(barcode) && r.value != ""
    ensures r.Some? ==> !IsSpace(r.value[0]) && !IsSpace(r.value[|r.value| - 1])
  {
    if barcode == [] || Trim(barcode) == [] then None else Some(Trim(barcode))
  }

  lemma TrimStartKeeps(s: string)
    requires s != [] && !IsSpace(s[0])
    ensures TrimStart(s) == s
  {
  }

  lemma TrimEndKeeps(s: string)
    requires s != [] && !IsSpace(s[|s| - 1])
    ensures TrimEnd(s) == s
  {
  }

  /** Trimming twice is trimming once. */
  lemma TrimIdempotent(s: string)
    ensures Trim(Trim(s)) == Trim(s)
  {
    var t := Trim(s);
    if t != [] {
      TrimStartKeeps(t);
      TrimEndKeeps(t);
      assert Trim(t) == TrimEnd(TrimStart(t));
    } else {
      assert |TrimStart(t)| == 0;
      assert Trim(t) == TrimEnd(TrimStart(t));
    }
  }

  /**
    What the guard lets through is a fixed point of the guard, and the
    server never answers it with "Barcode is required".
   */
  lemma SentBarcodeAccepted(barcode: string, students: seq<Student>, ledger: Ledger, today: Date, now: Time)
    requires ProcessBarcode(barcode).Some?
    ensures var sent := ProcessBarcode(barcode).value;
      && ProcessBarcode(sent) == Some(sent)
      && !Scan(students, ledger, sent, today, now).outcome.BarcodeRequired?
  {
    var sent := ProcessBarcode(barcode).value;
    TrimIdempotent(barcode);
    assert !AllSpace(sent) by {
      assert !IsSpace(sent[0]);
    }
  }

  // ---------------------------------------------------------------------------
  // Scan history
  // ---------------------------------------------------------------------------

  const HistoryLimit: nat := 10

  /** Puts the entry at the front of the history, then keeps the first ten. */
  function PushHistory<T>(h: seq<T>, e: T): (r: seq<T>)
    ensures |r| == if |h| + 1 < HistoryLimit then |h| + 1 else HistoryLimit
    ensures r[0] == e
    ensures r[1..] == h[..|r| - 1]
  {
    var r := [e] + h;
    if |r| > HistoryLimit then r[..HistoryLimit] else r
  }

  /** Pushes the entries of `es` in order, oldest first. */
  function PushAll<T>(h: seq<T>, es: seq<T>): seq<T>
    decreases |es|
  {
    if |es| == 0 then h else PushHistory(PushAll(h, es[..|es| - 1]), es[|es| - 1])
  }

  function Reverse<T>(s: seq<T>): (r: seq<T>)
    ensures |r| == |s|
    ensures forall i :: 0 <= i < |s| ==> r[i] == s[|s| - 1 - i]
    decreases |s|
  {
    if |s| == 0 then [] else [s[|s| - 1]] + Reverse(s[..|s| - 1])
  }

  function Min(a: nat, b: nat): nat {
    if a < b then a else b
  }

  /**
    After any run of pushes onto a history of at most ten entries, the
    history is the newest entries first, followed by the older history,
    cut to ten.
   */
  lemma {:induction false} HistoryHoldsLatest<T>(h: seq<T>, es: seq<T>)
    requires |h| <= HistoryLimit
    ensures PushAll(h, es) == (Reverse(es) + h)[..Min(|es| + |h|, HistoryLimit)]
    decreases |es|
  {
    if |es| > 0 {
      var init := es[..|es| - 1];
      var e := es[|es| - 1];
      HistoryHoldsLatest(h, init);
      var before := PushAll(h, init);
      var all := Reverse(es) + h;
      assert Reverse(es) == [e] + Reverse(init);
      assert all == [e] + (Reverse(init) + h);
      var n := Min(|es| + |h|, HistoryLimit);
      var r := PushHistory(before, e);
      assert |r| == n;
      forall i | 0 <= i < n ensures r[i] == all[i] {
        if i > 0 {
          assert r[i] == r[1..][i - 1] == before[i - 1];
        }
      }
    }
  }

  /** So a session's history is its ten most recent scans, newest first. */
  lemma HistoryOfSession<T>(es: seq<T>)
    ensures PushAll([], es) == Reverse(es)[..Min(|es|, HistoryLimit)]
    ensures |PushAll([], es)| <= HistoryLimit
    ensures |es| > 0 ==> PushAll([], es)[0] == es[|es| - 1]
  {
    HistoryHoldsLatest([], es);
    assert Reverse(es) + [] == Reverse(es);
  }

  /** A history entry: the student, the action, and the time shown. */
  datatype HistoryEntry = HistoryEntry(student: Student, action: string, time: string)

  /**
    The history after a scan's answer: only a successful answer adds an
    entry; its time is the server's `time`, or the browser's clock text
    `clock` when the answer has none (a cooldown).
   */
  function RecordAnswer(h: seq<HistoryEntry>, outcome: ScanOutcome, clock: string): (r: seq<HistoryEntry>)
    ensures !outcome.Succeeded() ==> r == h
    ensures outcome.Succeeded() ==> 1 <= |r| <= |h| + 1 && r[0].student == outcome.student && r[0].action == outcome.Action()
    ensures outcome.Succeeded() ==> r[1..] == h[..|r| - 1]
    ensures outcome.Succeeded() ==> |r| == Min(|h| + 1, HistoryLimit) && r == PushHistory(h, r[0])
    ensures outcome.CheckedIn? || outcome.CheckedInAgain? ==> r[0].time == FormatTime(outcome.time)
    ensures outcome.CooldownCheckIn? ==> r[0].time == clock
  {
    if !outcome.Succeeded() then h
    else
      var time := if outcome.CooldownCheckIn? then clock else FormatTime(outcome.time);
      PushHistory(h, HistoryEntry(outcome.student, outcome.Action(), time))
  }

  // ---------------------------------------------------------------------------
  // filterStudents
  // ---------------------------------------------------------------------------

  /** What the search box does: ask the server again, or show a local selection. */
  datatype SearchResult = Reload | Shown(students: seq<Student>)

  /** The lowercased name, school id or class contains the (lowercased) term. */
  predicate MatchesTerm(s: Student, term: string) {
    Contains(Lower(s.name), term) || Contains(Lower(s.studentId), term) || Contains(Lower(s.cls), term)
  }

  /**
    With a form or class selected the list is reloaded from the server;
    otherwise the loaded students are narrowed locally, in their order, to
    those matching the lowercased search term, and an empty term shows all.
   */
  function LocalSearch(students: seq<Student>, rawTerm: string, filterForm: string, filterClass: string): (r: SearchResult)
    ensures r.Reload? <==> filterForm != "" || filterClass != ""
    ensures r.Shown? ==> IsSubsequence(r.students, students)
    ensures r.Shown? ==> forall s :: s in r.students ==> s in students && MatchesTerm(s, Lower(rawTerm))
    ensures r.Shown? ==> forall i :: 0 <= i < |students| && MatchesTerm(students[i], Lower(rawTerm)) ==> students[i] in r.students
  {
    var term := Lower(rawTerm);
    if filterForm != "" || filterClass != "" then Reload
    else if term == "" then
      EmptyTermMatches(students);
      Shown(students)
    else Shown(Where(students, s => MatchesTerm(s, term)))
  }

  lemma ContainsEmpty(hay: string)
    ensures Contains(hay, "")
  {
    ContainsAt(hay, "");
    assert "" <= hay[0..];
  }

  lemma EmptyTermMatches(students: seq<Student>)
    ensures forall s :: MatchesTerm(s, "")
    ensures IsSubsequence(students, students)
  {
    forall s ensures MatchesTerm(s, "") {
      ContainsEmpty(Lower(s.name));
    }
    SubsequenceRefl(students);
  }

  lemma {:induction false} SubsequenceRefl<T>(s: seq<T>)
    ensures IsSubsequence(s, s)
    decreases |s|
  {
    if |s| > 0 {
      SubsequenceRefl(s[1..]);
    }
  }

  /** Filtering with the empty term keeps every student: the shortcut for an empty box changes nothing. */
  lemma EmptyTermShortcut(students: seq<Student>)
    ensures Where(students, s => MatchesTerm(s, "")) == students
  {
    EmptyTermMatches(students);
    WhereAll(students, s => MatchesTerm(s, ""));
  }

  lemma ContainsPrefix(hay: string, t: string, u: string)
    requires Contains(hay, t + u)
    ensures Contains(hay, t)
  {
    ContainsAt(hay, t + u);
    ContainsAt(hay, t);
    var i :| 0 <= i <= |hay| && t + u <= hay[i..];
    assert t <= hay[i..];
  }

  /** Typing more characters only narrows the local search. */
  lemma SearchNarrows(students: seq<Student>, t: string, u: string, s: Student)
    requires LocalSearch(students, t + u, "", "").Shown?
    requires s in LocalSearch(students, t + u, "", "").students
    ensures s in LocalSearch(students, t, "", "").students
  {
    assert Lower(t + u) == Lower(t) + Lower(u);
    var lt := Lower(t);
    var lu := Lower(u);
    if Contains(Lower(s.name), lt + lu) {
      ContainsPrefix(Lower(s.name), lt, lu);
    } else if Contains(Lower(s.studentId), lt + lu) {
      ContainsPrefix(Lower(s.studentId), lt, lu);
    } else {
      ContainsPrefix(Lower(s.cls), lt, lu);
    }
    var k :| 0 <= k < |students| && students[k] == s;
  }

  // ---------------------------------------------------------------------------
  // Status label and CSV
  // ---------------------------------------------------------------------------

  /** `time_in` as it reaches the browser: the "HH:MM:SS" text, or null. */
  function TimeInJson(r: Record): Option<string> {
    if r.timeIn.Some? then Some(FormatTime(r.timeIn.value)) else None
  }

  /** "Present" when time_in is truthy (a non-empty string), "Absent" otherwise. */
  function StatusLabel(timeIn: Option<string>): (shown: string)
    ensures shown == "Present" <==> timeIn.Some? && timeIn.value != ""
    ensures shown == "Present" || shown == "Absent"
  {
    if timeIn.Some? && timeIn.value != "" then "Present" else "Absent"
  }

  /** On a stored row the label says "Present" exactly when the row has a check-in time. */
  lemma LabelFollowsTimeIn(r: Record)
    ensures StatusLabel(TimeInJson(r)) == "Present" <==> r.timeIn.Some?
  {
  }

  /** A string-or-null value, or the fallback when it is null or empty. */
  function OrElse(v: Option<string>, fallback: string): (s: string)
    ensures v.Some? && v.value != "" ==> s == v.value
    ensures !(v.Some? && v.value != "") ==> s == fallback
  {
    if v.Some? && v.value != "" then v.value else fallback
  }

  function Quoted(s: string): string {
    "\"" + s + "\""
  }

  const AttendanceHeader: seq<string> := ["Student Name", "Student ID", "Form", "Class", "Time In", "Status"]
  const AbsentLateHeader: seq<string> := ["Student Name", "Student ID", "Form", "Class", "Check-in Time", "Status"]

  /** The six fields of an attendance row in the CSV. */
  function AttendanceFields(x: AttendanceRow): (fs: seq<string>)
    ensures |fs| == 6
    ensures fs[0] == Quoted(x.name) && fs[1] == x.record.studentId && fs[3] == Quoted(x.cls)
    ensures fs[2] == "Form " + IntText(x.form)
    ensures x.record.timeIn.Some? ==> fs[4] == FormatTime(x.record.timeIn.value) && fs[5] == "Present"
    ensures x.record.timeIn.None? ==> fs[4] == "" && fs[5] == "Absent"
    ensures fs[5] == StatusLabel(TimeInJson(x.record))
  {
    var t := TimeInJson(x.record);
    [Quoted(x.name), x.record.studentId, "Form " + IntText(x.form), Quoted(x.cls), OrElse(t, ""), StatusLabel(t)]
  }

  /** The six fields of an absent/late row in the CSV. */
  function AbsentLateFields(x: AbsentLateRow): (fs: seq<string>)
    ensures |fs| == 6
    ensures fs[0] == Quoted(x.student.name) && fs[1] == x.student.studentId && fs[3] == Quoted(x.student.cls)
    ensures fs[2] == "Form " + IntText(x.student.form)
    ensures x.checkIn.Some? ==> fs[4] == FormatTime(x.checkIn.value)
    ensures x.checkIn.None? ==> fs[4] == "Not checked in"
    ensures fs[5] == x.status
  {
    var t := if x.checkIn.Some? then Some(FormatTime(x.checkIn.value)) else None;
    [Quoted(x.student.name), x.student.studentId, "Form " + IntText(x.student.form), Quoted(x.student.cls), OrElse(t, "Not checked in"), x.status]
  }

  /** The header line, then one comma-joined line per row, joined with newlines. */
  function Csv(header: seq<string>, lines: seq<seq<string>>): string {
    Join([Join(header, ',')] + seq(|lines|, i requires 0 <= i < |lines| => Join(lines[i], ',')), '\n')
  }

  function AttendanceCsv(rows: seq<AttendanceRow>): string {
    Csv(AttendanceHeader, seq(|rows|, i requires 0 <= i < |rows| => AttendanceFields(rows[i])))
  }

  function AbsentLateCsv(rows: seq<AbsentLateRow>): string {
    Csv(AbsentLateHeader, seq(|rows|, i requires 0 <= i < |rows| => AbsentLateFields(rows[i])))
  }

  /** Joining pieces without `c` with a separator other than `c` gives a string without `c`. */
  lemma {:induction false} JoinAvoids(parts: seq<string>, sep: char, c: char)
    requires sep != c
    requires forall i :: 0 <= i < |parts| ==> c !in parts[i]
    ensures c !in Join(parts, sep)
    decreases |parts|
  {
    if |parts| > 1 {
      JoinAvoids(parts[1..], sep, c);
    }
  }

  lemma DecimalAvoids(n: nat, c: char)
    requires !IsDigit(c)
    ensures c !in Decimal(n)
  {
  }

  lemma IntTextAvoids(n: int, c: char)
    requires !IsDigit(c) && c != '-'
    ensures c !in IntText(n)
  {
    if n < 0 {
      DecimalAvoids(-n, c);
      var t := IntText(n);
      assert t == [t[0]] + t[1..];
    } else {
      DecimalAvoids(n, c);
    }
  }

  lemma FormatTimeAvoids(t: Time, c: char)
    requires !IsDigit(c) && c != ':'
    ensures c !in FormatTime(t)
  {
    var s := FormatTime(t);
    forall i | 0 <= i < |s| ensures s[i] != c {
      if i < 2 {
        assert s[..2][i] == s[i];
      } else if 2 < i < 5 {
        assert s[3..5][i - 3] == s[i];
      } else if 5 < i {
        assert s[6..][i - 6] == s[i];
      }
    }
  }

  /** The text fields a row carries contain no `c`. */
  predicate RowAvoids(x: AttendanceRow, c: char) {
    c !in x.name && c !in x.cls && c !in x.record.studentId
  }

  lemma AttendanceFieldsAvoid(x: AttendanceRow, c: char)
    requires c == ',' || c == '\n'
    requires RowAvoids(x, c)
    ensures forall i :: 0 <= i < 6 ==> c !in AttendanceFields(x)[i]
  {
    var fs := AttendanceFields(x);
    IntTextAvoids(x.form, c);
    assert c !in fs[2] by {
      assert fs[2] == "Form " + IntText(x.form);
    }
    if x.record.timeIn.Some? {
      FormatTimeAvoids(x.record.timeIn.value, c);
    }
  }

  /** A CSV whose fields hold no newline splits into its header line and one line per row. */
  lemma CsvSplits(header: seq<string>, lines: seq<seq<string>>)
    requires forall j :: 0 <= j < |header| ==> '\n' !in header[j]
    requires forall i, j :: 0 <= i < |lines| && 0 <= j < |lines[i]| ==> '\n' !in lines[i][j]
    ensures var ls := Split(Csv(header, lines), '\n');
      && |ls| == 1 + |lines|
      && ls[0] == Join(header, ',')
      && forall i :: 0 <= i < |lines| ==> ls[i + 1] == Join(lines[i], ',')
  {
    var parts := [Join(header, ',')] + seq(|lines|, i requires 0 <= i < |lines| => Join(lines[i], ','));
    JoinAvoids(header, ',', '\n');
    forall i | 0 <= i < |lines| ensures '\n' !in Join(lines[i], ',') {
      JoinAvoids(lines[i], ',', '\n');
    }
    assert forall i :: 0 <= i < |parts| ==> '\n' !in parts[i] by {
      forall i | 0 <= i < |parts| ensures '\n' !in parts[i] {
        if i > 0 {
          assert parts[i] == Join(lines[i - 1], ',');
        }
      }
    }
    SplitJoin(parts, '\n');
  }

  /**
    When no name, class or school id contains a newline, the attendance CSV
    splits into exactly the header line and one line per row, in order.
   */
  lemma AttendanceCsvLines(rows: seq<AttendanceRow>)
    requires forall i :: 0 <= i < |rows| ==> RowAvoids(rows[i], '\n')
    ensures var lines := Split(AttendanceCsv(rows), '\n');
      && |lines| == 1 + |rows|
      && lines[0] == Join(AttendanceHeader, ',')
      && forall i :: 0 <= i < |rows| ==> lines[i + 1] == Join(AttendanceFields(rows[i]), ',')
  {
    var fields := seq(|rows|, i requires 0 <= i < |rows| => AttendanceFields(rows[i]));
    forall i, j | 0 <= i < |fields| && 0 <= j < |fields[i]| ensures '\n' !in fields[i][j] {
      AttendanceFieldsAvoid(rows[i], '\n');
    }
    CsvSplits(AttendanceHeader, fields);
    assert AttendanceCsv(rows) == Csv(AttendanceHeader, fields);
    assert forall i :: 0 <= i < |rows| ==> fields[i] == AttendanceFields(rows[i]);
  }

  /** The text fields of an absent/late row, its status included, contain no `c`. */
  predicate ReportRowAvoids(x: AbsentLateRow, c: char) {
    c !in x.student.name && c !in x.student.cls && c !in x.student.studentId && c !in x.status
  }

  lemma AbsentLateFieldsAvoid(x: AbsentLateRow, c: char)
    requires c == ',' || c == '\n'
    requires ReportRowAvoids(x, c)
    ensures forall i :: 0 <= i < 6 ==> c !in AbsentLateFields(x)[i]
  {
    var fs := AbsentLateFields(x);
    IntTextAvoids(x.student.form, c);
    assert c !in fs[2] by {
      assert fs[2] == "Form " + IntText(x.student.form);
    }
    if x.checkIn.Some? {
      FormatTimeAvoids(x.checkIn.value, c);
    }
  }

  /** The absent/late CSV likewise splits into the header line and one line per reported student. */
  lemma AbsentLateCsvLines(rows: seq<AbsentLateRow>)
    requires forall i :: 0 <= i < |rows| ==> ReportRowAvoids(rows[i], '\n')
    ensures var lines := Split(AbsentLateCsv(rows), '\n');
      && |lines| == 1 + |rows|
      && lines[0] == Join(AbsentLateHeader, ',')
      && forall i :: 0 <= i < |rows| ==> lines[i + 1] == Join(AbsentLateFields(rows[i]), ',')
  {
    var fields := seq(|rows|, i requires 0 <= i < |rows| => AbsentLateFields(rows[i]));
    forall i, j | 0 <= i < |fields| && 0 <= j < |fields[i]| ensures '\n' !in fields[i][j] {
      AbsentLateFieldsAvoid(rows[i], '\n');
    }
    CsvSplits(AbsentLateHeader, fields);
    assert AbsentLateCsv(rows) == Csv(AbsentLateHeader, fields);
    assert forall i :: 0 <= i < |rows| ==> fields[i] == AbsentLateFields(rows[i]);
  }

  /** An absent/late line splits back into its six fields when none of its text holds a comma. */
  lemma AbsentLateLineFields(x: AbsentLateRow)
    requires ReportRowAvoids(x, ',')
    ensures Split(Join(AbsentLateFields(x), ','), ',') == AbsentLateFields(x)
  {
    AbsentLateFieldsAvoid(x, ',');
    SplitJoin(AbsentLateFields(x), ',');
  }

  /**
    When the name, class and school id contain no comma, an attendance line
    splits back into its six fields: the quoted name, the school id, the
    form, the quoted class, the check-in time and the label.
   */
  lemma AttendanceLineFields(x: AttendanceRow)
    requires RowAvoids(x, ',')
    ensures Split(Join(AttendanceFields(x), ','), ',') == AttendanceFields(x)
  {
    AttendanceFieldsAvoid(x, ',');
    SplitJoin(AttendanceFields(x), ',');
  }

  // ---------------------------------------------------------------------------
  // Export file names and the barcode sheet title
  // ---------------------------------------------------------------------------

  /** The file-name suffix for the selected form and class. */
  function FilterSuffix(form: string, cls: string): (s: string)
    ensures s == "" <==> form == "" && cls == ""
  {
    if form != "" && cls != "" then "_Form" + form + "_" + cls
    else if form != "" then "_Form" + form
    else if cls != "" then "_" + cls
    else ""
  }

  /** The report type, an underscore, the date, the filter suffix and ".csv". */
  function ExportFilename(reportType: string, date: Date, form: string, cls: string): (name: string)
    ensures reportType + "_" + date <= name
    ensures |name| >= |reportType| + 1 + |date| + 4 && name[|name| - 4..] == ".csv"
  {
    reportType + "_" + date + FilterSuffix(form, cls) + ".csv"
  }

  /** The plain attendance export is the filtered export with no filter. */
  lemma PlainExportName(date: Date)
    ensures "attendance_" + date + ".csv" == ExportFilename("attendance", date, "", "")
  {
  }

  /**
    Reads the form and class back from a suffix: after "_", a leading
    "Form" introduces the form, up to the next "_"; anything else is the class.
   */
  function ParseSuffix(s: string): (string, string) {
    if |s| == 0 || s[0] != '_' then ("", "")
    else
      var rest := s[1..];
      if |rest| >= 4 && rest[..4] == "Form" then
        var pieces := Split(rest[4..], '_');
        (pieces[0], if |pieces| > 1 then Join(pieces[1..], '_') else "")
      else ("", rest)
  }

  /**
    The suffix identifies the filters whenever the form has no "_" and the
    class neither contains "_" nor starts with "Form", as the catalog's
    form numbers and class names do.
   */
  lemma SuffixRoundTrip(form: string, cls: string)
    requires '_' !in form && '_' !in cls
    requires !(|cls| >= 4 && cls[..4] == "Form")
    ensures ParseSuffix(FilterSuffix(form, cls)) == (form, cls)
  {
    var s := FilterSuffix(form, cls);
    if form != "" && cls != "" {
      assert s[1..][4..] == form + "_" + cls;
      assert Join([form, cls], '_') == form + "_" + cls;
      SplitJoin([form, cls], '_');
      assert Split(form + "_" + cls, '_')[1..] == [cls];
    } else if form != "" {
      assert s[1..][4..] == form;
      SplitNoSep(form, '_');
    } else if cls != "" {
      assert s[1..] == cls;
    }
  }

  /**
    The file name names its filters: cutting the report type, the date and
    ".csv" off it leaves a suffix that reads back as the selected form and class.
   */
  lemma ExportNameRoundTrip(reportType: string, date: Date, form: string, cls: string)
    requires '_' !in form && '_' !in cls
    requires !(|cls| >= 4 && cls[..4] == "Form")
    ensures var name := ExportFilename(reportType, date, form, cls);
      ParseSuffix(name[|reportType| + 1 + |date|..|name| - 4]) == (form, cls)
  {
    var name := ExportFilename(reportType, date, form, cls);
    var head := reportType + "_" + date;
    assert name == head + FilterSuffix(form, cls) + ".csv";
    assert name[|head|..|name| - 4] == FilterSuffix(form, cls);
    SuffixRoundTrip(form, cls);
  }

  /** The title of the printable barcode sheet. */
  function BarcodeSheetTitle(form: string, cls: string): (t: string)
    ensures t == "All Students" <==> form == "" && cls == ""
    ensures form != "" ==> "Form " <= t
    ensures form == "" && cls != "" ==> t == "Class " + cls
  {
    if form != "" && cls != "" then
      var t := "Form " + form + ", Class " + cls;
      assert t[0] == 'F';
      t
    else if form != "" then
      var t := "Form " + form;
      assert t[0] == 'F';
      t
    else if cls != "" then
      var t := "Class " + cls;
      assert t[0] == 'C';
      t
    else "All Students"
  }

  /** The sheet title and the export suffix agree on whether any filter is set. */
  lemma TitleAndSuffixAgree(form: string, cls: string)
    ensures BarcodeSheetTitle(form, cls) == "All Students" <==> FilterSuffix(form, cls) == ""
  {
  }

  /** Printing "by class" needs a form or a class; otherwise the user is told to pick one. */
  function BarcodesByClass(form: string, cls: string): (r: Option<(string, string)>)
    ensures r.None? <==> form == "" && cls == ""
    ensures r.Some? ==> r.value == (form, cls) && BarcodeSheetTitle(form, cls) != "All Students"
  {
    if form == "" && cls == "" then None else Some((form, cls))
  }

  // ---------------------------------------------------------------------------
  // Listing URLs
  // ---------------------------------------------------------------------------

  /** `form=f` and `class=c` for the selected filters, joined with "&". */
  function Query(form: string, cls: string): (q: string)
    ensures q == "" <==> form == "" && cls == ""
  {
    if form != "" && cls != "" then "form=" + form + "&class=" + cls
    else if form != "" then "form=" + form
    else if cls != "" then "class=" + cls
    else ""
  }

  /** `path`, with `?` and the query when a filter is set. */
  function WithQuery(path: string, form: string, cls: string): (url: string)
    ensures path <= url
    ensures form == "" && cls == "" ==> url == path
    ensures form != "" || cls != "" ==> url == path + "?" + Query(form, cls) && url[|path|] == '?'
  {
    var q := Query(form, cls);
    if q == "" then path else path + "?" + q
  }

  function StudentsUrl(form: string, cls: string): string {
    WithQuery("/api/students", form, cls)
  }

  /** The report listing the export fetches: attendance, or else absent/late. */
  function ReportUrl(reportType: string, date: Date, form: string, cls: string): (url: string)
    ensures reportType == "attendance" ==> "/api/attendance/" + date <= url
    ensures reportType != "attendance" ==> "/api/absent-late/" + date <= url
  {
    var path := if reportType == "attendance" then "/api/attendance/" + date else "/api/absent-late/" + date;
    WithQuery(path, form, cls)
  }

  /** The value of the first `key=value` piece for `key`, "" when none. */
  function Lookup(pieces: seq<string>, key: string): string
    decreases |pieces|
  {
    if |pieces| == 0 then ""
    else if |pieces[0]| > |key| && pieces[0][..|key| + 1] == key + "=" then pieces[0][|key| + 1..]
    else Lookup(pieces[1..], key)
  }

  /** The text before the first '#': a fragment never reaches the server. */
  function BeforeHash(s: string): (r: string)
    ensures r <= s && '#' !in r
    ensures '#' !in s ==> r == s
    decreases |s|
  {
    if |s| == 0 || s[0] == '#' then "" else [s[0]] + BeforeHash(s[1..])
  }

  /** The query parser reads every '+' of a value as a space. */
  function PlusAsSpace(s: string): (r: string)
    ensures |r| == |s| && '+' !in r
    ensures '+' !in s ==> r == s
  {
    seq(|s|, i requires 0 <= i < |s| => if s[i] == '+' then ' ' else s[i])
  }

  /**
    The form and class a server reads from the query of a URL: the fragment
    is cut off, the rest split on "&", and '+' in a value read as a space.
   */
  function ReadQuery(q: string): (string, string) {
    var pieces := Split(BeforeHash(q), '&');
    (PlusAsSpace(Lookup(pieces, "form")), PlusAsSpace(Lookup(pieces, "class")))
  }

  /**
    What the server reads from the query the page builds: the selected
    filters, with every '+' read as a space, when they hold no "&" or "#".
   */
  lemma QueryReads(form: string, cls: string)
    requires '&' !in form && '&' !in cls && '#' !in form && '#' !in cls
    ensures ReadQuery(Query(form, cls)) == (PlusAsSpace(form), PlusAsSpace(cls))
  {
    var q := Query(form, cls);
    assert '#' !in q;
    assert BeforeHash(q) == q;
    QueryLookups(form, cls);
  }

  /** Splitting the query on "&" and looking each key up gives the filters back. */
  lemma QueryLookups(form: string, cls: string)
    requires '&' !in form && '&' !in cls
    ensures Lookup(Split(Query(form, cls), '&'), "form") == form
    ensures Lookup(Split(Query(form, cls), '&'), "class") == cls
  {
    var f := "form=" + form;
    var c := "class=" + cls;
    assert f[..5] == "form=" && f[5..] == form;
    assert c[..6] == "class=" && c[6..] == cls;
    assert '&' !in f && '&' !in c;
    assert |f| > 5 ==> f[..6] != "class=" by {
      if |f| > 5 {
        assert f[..6][0] == 'f';
      }
    }
    assert |c| > 4 ==> c[..5] != "form=" by {
      if |c| > 4 {
        assert c[..5][0] == 'c';
      }
    }
    if form != "" && cls != "" {
      assert Join([f, c], '&') == Query(form, cls);
      SplitJoin([f, c], '&');
      assert Split(Query(form, cls), '&') == [f, c];
      assert [f, c][1..] == [c];
      assert Lookup([f, c], "class") == Lookup([c], "class");
    } else if form != "" {
      assert Query(form, cls) == f;
      SplitNoSep(f, '&');
      assert Lookup([f], "class") == Lookup([], "class");
    } else if cls != "" {
      assert Query(form, cls) == c;
      SplitNoSep(c, '&');
      assert Lookup([c], "form") == Lookup([], "form");
    } else {
      SplitNoSep("", '&');
    }
  }

  /**
    The server reads back the filters the page put into the query, when they
    contain none of the characters the URL or its parser treat specially.
   */
  lemma QueryRoundTrip(form: string, cls: string)
    requires '&' !in form && '&' !in cls
    requires '+' !in form && '+' !in cls && '%' !in form && '%' !in cls
    requires '#' !in form && '#' !in cls
    ensures ReadQuery(Query(form, cls)) == (form, cls)
  {
    QueryReads(form, cls);
  }

  /**
    A '+' typed into a filter reaches the server as a space, since the page
    does not escape it: the class the server reads is not the one selected.
   */
  lemma PlusReadAsSpace(form: string, cls: string)
    requires '&' !in form && '&' !in cls && '#' !in form && '#' !in cls
    requires '+' in cls
    ensures ReadQuery(Query(form, cls)).1 != cls
    ensures ReadQuery(Query(form, cls)).1 == PlusAsSpace(cls)
  {
    QueryReads(form, cls);
  }
}
