/**
  Roster administration: adding a student (generating the school id and the
  barcode when no id is given), editing a student's name, form and class,
  deleting a student (refused while the student has attendance rows unless
  the request cascades) and deleting a student's attendance rows.
 */
module Admin {
  import opened Base
  import opened Text
  import opened Lists
  import opened Domain

  datatype AdminError =
    | MissingFields
    | InvalidForm
    | InvalidClass
    | DuplicateIdOrBarcode
    | StudentNotFound
    | HasAttendance
  {
    /** The HTTP status the error is answered with. */
    function Status(): int {
      if StudentNotFound? then 404 else 400
    }

    /** The `error` field of the answer. */
    function Message(): string {
      match this
      case MissingFields => "Missing required fields"
      case InvalidForm => "Invalid form"
      case InvalidClass => "Invalid class for this form"
      case DuplicateIdOrBarcode => "Student ID or barcode already exists"
      case StudentNotFound => "Student not found"
      case HasAttendance => "Cannot delete student with attendance records. Use cascade=true to delete attendance records as well."
    }
  }

  /**
    The body of a create or update request. `studentId` is "" when the field
    is missing or empty, and `form` is None when the field is falsy;
    otherwise it holds the form number the field parses to.
   */
  datatype StudentForm = StudentForm(studentId: string, name: string, form: Option<int>, cls: string)

  // ---------------------------------------------------------------------------
  // Validation shared by create and update
  // ---------------------------------------------------------------------------

  /**
    The checks both create and update make, in order: all three fields
    present, the form listed in the catalog, the class listed for that form.
    The result is the form number.
   */
  function Validate(catalog: Catalog, name: string, form: Option<int>, cls: string): (r: Result<int, AdminError>)
    ensures r.Ok? <==> name != "" && form.Some? && cls != "" && form.value in catalog && cls in catalog[form.value]
    ensures r.Ok? ==> r.value == form.value
    ensures r == Err(MissingFields) <==> name == "" || form.None? || cls == ""
    ensures r == Err(InvalidForm) <==> name != "" && form.Some? && cls != "" && form.value !in catalog
    ensures r.Err? ==> r.error == MissingFields || r.error == InvalidForm || r.error == InvalidClass
  {
    if name == "" || form.None? || cls == "" then Err(MissingFields)
    else if form.value !in catalog then Err(InvalidForm)
    else if cls !in catalog[form.value] then Err(InvalidClass)
    else Ok(form.value)
  }

  // ---------------------------------------------------------------------------
  // Generated school ids
  // ---------------------------------------------------------------------------

  /** The letter each of the seven class names stands for in a generated id. */
  const ClassLetters: map<string, char> := map[
    "Advance" := 'A', "Brilliant" := 'B', "Creative" := 'C', "Dynamic" := 'D',
    "Excellent" := 'E', "Generous" := 'F', "Honest" := 'G']

  /** The class's letter, 'X' for a class outside the seven. */
  function ClassLetter(cls: string): (c: char)
    ensures c == 'X' <==> cls !in ClassLetters
    ensures cls in ClassLetters ==> 'A' <= c <= 'G'
  {
    if cls in ClassLetters then ClassLetters[cls] else 'X'
  }

  /** Different classes among the seven get different letters. */
  lemma ClassLetterInjective(a: string, b: string)
    requires a in ClassLetters && b in ClassLetters && a != b
    ensures ClassLetter(a) != ClassLetter(b)
  {
  }

  /** `${year}${form padded to 2}${class letter}${sequence padded to 3}`. */
  function GenerateId(year: int, form: int, cls: string, n: nat): string {
    IdPrefix(year, form, cls) + PadStart(Decimal(n), 3, '0')
  }

  function IdPrefix(year: int, form: int, cls: string): string {
    IntText(year) + PadStart(IntText(form), 2, '0') + [ClassLetter(cls)]
  }

  /** The card barcode printed for a school id. */
  function BarcodeFor(studentId: string): (b: string)
    ensures |b| == |studentId| + 3 && b[..3] == "SMK" && b[3..] == studentId
  {
    "SMK" + studentId
  }

  /** Reads a generated id back: year, form, class letter and sequence number. */
  function ParseId(id: string): Option<(int, int, char, nat)> {
    if |id| >= 8 && AllDigits(id[..4]) && AllDigits(id[4..6]) && AllDigits(id[7..]) then
      Some((DecimalValue(id[..4]), DecimalValue(id[4..6]), id[6], DecimalValue(id[7..])))
    else None
  }

  lemma FourDigits(year: int)
    requires 1000 <= year <= 9999
    ensures IntText(year) == Decimal(year) && |Decimal(year)| == 4
  {
    assert Pow10(4) == 10000 && Pow10(3) == 1000 by {
      assert Pow10(1) == 10 && Pow10(2) == 100;
    }
    DecimalLength(year, 4);
    DecimalLength(year, 3);
  }

  lemma TwoDigitForm(form: int)
    requires 0 <= form <= 99
    ensures |PadStart(IntText(form), 2, '0')| == 2
    ensures AllDigits(PadStart(IntText(form), 2, '0')) && DecimalValue(PadStart(IntText(form), 2, '0')) == form
  {
    assert Pow10(2) == 100 by {
      assert Pow10(1) == 10;
    }
    DecimalLength(form, 2);
    PaddedDecimal(form, 2);
  }

  /**
    For a four-digit year and a form below 100 a generated id reads back as
    the year, form, class letter and sequence number it was made from.
   */
  lemma ParseGenerateId(year: int, form: int, cls: string, n: nat)
    requires 1000 <= year <= 9999 && 0 <= form <= 99
    ensures ParseId(GenerateId(year, form, cls, n)) == Some((year, form, ClassLetter(cls), n))
  {
    var y := IntText(year);
    var f := PadStart(IntText(form), 2, '0');
    var z := PadStart(Decimal(n), 3, '0');
    assert |y| == 4 && AllDigits(y) && DecimalValue(y) == year by {
      FourDigits(year);
      DecimalRoundTrip(year);
    }
    assert |f| == 2 && AllDigits(f) && DecimalValue(f) == form by {
      TwoDigitForm(form);
    }
    assert |z| >= 1 && AllDigits(z) && DecimalValue(z) == n by {
      PaddedDecimal(n, 3);
    }
    ParseFields(y, f, ClassLetter(cls), z);
    assert GenerateId(year, form, cls, n) == y + f + [ClassLetter(cls)] + z;
  }

  /** The fields of an id sit at fixed positions: four, two, one, and the rest. */
  lemma ParseFields(y: string, f: string, c: char, z: string)
    requires |y| == 4 && |f| == 2
    requires AllDigits(y) && AllDigits(f) && AllDigits(z) && |z| >= 1
    ensures ParseId(y + f + [c] + z) == Some((DecimalValue(y), DecimalValue(f), c, DecimalValue(z)))
  {
    var id := y + f + [c] + z;
    assert id[..4] == y;
    assert id[4..6] == f;
    assert id[6] == c;
    assert id[7..] == z;
  }

  /** Within one year, form and class, different sequence numbers give different ids. */
  lemma GenerateIdInjective(year: int, form: int, cls: string, n: nat, m: nat)
    requires n != m
    ensures GenerateId(year, form, cls, n) != GenerateId(year, form, cls, m)
  {
    var p := IdPrefix(year, form, cls);
    var a := PadStart(Decimal(n), 3, '0');
    var b := PadStart(Decimal(m), 3, '0');
    if p + a == p + b {
      assert a == (p + a)[|p|..];
      assert b == (p + b)[|p|..];
      PaddedDecimal(n, 3);
      PaddedDecimal(m, 3);
    }
  }

  // ---------------------------------------------------------------------------
  // POST /api/students
  // ---------------------------------------------------------------------------

  /** `INSERT` fails on the UNIQUE `student_id` or `barcode` column. */
  predicate Clash(students: seq<Student>, studentId: string) {
    exists s :: s in students && (s.studentId == studentId || s.barcode == BarcodeFor(studentId))
  }

  /** Every id an insert would clash with: the taken ids, and the ids behind taken "SMK" barcodes. */
  function UsedIds(students: seq<Student>): (used: set<string>)
    ensures forall id :: id in used <==> Clash(students, id)
  {
    var ids := set s | s in students :: s.studentId;
    var behind := set s | s in students && |s.barcode| >= 3 && s.barcode[..3] == "SMK" :: s.barcode[3..];
    assert forall id :: Clash(students, id) ==> id in ids + behind by {
      forall id | Clash(students, id) ensures id in ids + behind {
        var s :| s in students && (s.studentId == id || s.barcode == BarcodeFor(id));
        if s.studentId != id {
          assert s.barcode[..3] == "SMK" && s.barcode[3..] == id;
        }
      }
    }
    assert forall id :: id in behind ==> Clash(students, id) by {
      forall id | id in behind ensures Clash(students, id) {
        var s :| s in students && |s.barcode| >= 3 && s.barcode[..3] == "SMK" && s.barcode[3..] == id;
        assert s.barcode == s.barcode[..3] + s.barcode[3..];
      }
    }
    ids + behind
  }

  /** The number of students already in the form and class. */
  function CountClass(students: seq<Student>, form: int, cls: string): (n: nat)
    ensures n <= |students|
    ensures n == 0 <==> forall s :: s in students ==> !(s.form == form && s.cls == cls)
    decreases |students|
  {
    if |students| == 0 then 0
    else
      assert students == [students[0]] + students[1..];
      (if students[0].form == form && students[0].cls == cls then 1 else 0) + CountClass(students[1..], form, cls)
  }

  /**
    The first sequence number from `n` on whose generated id is not in
    `used`: every number before it, from `n`, is taken.
   */
  function FreshSeq(used: set<string>, year: int, form: int, cls: string, n: nat): (m: nat)
    ensures m >= n
    ensures GenerateId(year, form, cls, m) !in used
    ensures forall k :: n <= k < m ==> GenerateId(year, form, cls, k) in used
    decreases |used|
  {
    var id := GenerateId(year, form, cls, n);
    if id in used then
      var m := FreshSeq(used - {id}, year, form, cls, n + 1);
      FreshSeqStep(used, year, form, cls, n, m);
      m
    else n
  }

  lemma FreshSeqStep(used: set<string>, year: int, form: int, cls: string, n: nat, m: nat)
    requires n < m
    requires GenerateId(year, form, cls, m) !in used - {GenerateId(year, form, cls, n)}
    requires forall k :: n + 1 <= k < m ==> GenerateId(year, form, cls, k) in used - {GenerateId(year, form, cls, n)}
    requires GenerateId(year, form, cls, n) in used
    ensures GenerateId(year, form, cls, m) !in used
    ensures forall k :: n <= k < m ==> GenerateId(year, form, cls, k) in used
  {
    GenerateIdInjective(year, form, cls, n, m);
  }

  /** The row an accepted create appends. */
  function NewStudent(roster: Roster, req: StudentForm, form: int, studentId: string): Student {
    Student(roster.nextId, studentId, req.name, form, req.cls, BarcodeFor(studentId))
  }

  function InsertStudent(roster: Roster, req: StudentForm, form: int, studentId: string): (r: Result<(Student, Roster), AdminError>)
    ensures r.Err? <==> Clash(roster.students, studentId)
    ensures r.Err? ==> r.error == DuplicateIdOrBarcode
    ensures r.Ok? ==> (r.value.0 == NewStudent(roster, req, form, studentId)
      && r.value.1 == Roster(roster.students + [r.value.0], roster.nextId + 1))
  {
    if Clash(roster.students, studentId) then Err(DuplicateIdOrBarcode)
    else
      var s := NewStudent(roster, req, form, studentId);
      Ok((s, Roster(roster.students + [s], roster.nextId + 1)))
  }

  /** The id the handler generates: sequence number = students already in the form and class, plus one. */
  function AsWrittenId(students: seq<Student>, year: int, form: int, cls: string): string {
    GenerateId(year, form, cls, CountClass(students, form, cls) + 1)
  }

  /**
    Adding a student exactly as the handler does: when no id is given the
    generated one may already belong to a student (after a delete, or after
    a student moved out of the class), and the insert is then refused.
   */
  function CreateAsWritten(roster: Roster, catalog: Catalog, req: StudentForm, year: int): (r: Result<(Student, Roster), AdminError>)
    ensures Validate(catalog, req.name, req.form, req.cls).Err? ==> r == Err(Validate(catalog, req.name, req.form, req.cls).error)
    ensures Validate(catalog, req.name, req.form, req.cls).Ok? ==>
      var form := req.form.value;
      var sid := if req.studentId != "" then req.studentId else AsWrittenId(roster.students, year, form, req.cls);
      (r == Err(DuplicateIdOrBarcode) <==> Clash(roster.students, sid))
      && (r.Ok? ==> r.value.0 == NewStudent(roster, req, form, sid))
  {
    match Validate(catalog, req.name, req.form, req.cls)
    case Err(e) => Err(e)
    case Ok(form) =>
      var sid := if req.studentId != "" then req.studentId else AsWrittenId(roster.students, year, form, req.cls);
      InsertStudent(roster, req, form, sid)
  }

  /** The generated id with the sequence number moved past every taken one. */
  function FreshId(students: seq<Student>, year: int, form: int, cls: string): (id: string)
    ensures !Clash(students, id)
    ensures exists n :: n > CountClass(students, form, cls) && id == GenerateId(year, form, cls, n)
    ensures !Clash(students, AsWrittenId(students, year, form, cls)) ==> id == AsWrittenId(students, year, form, cls)
  {
    var n := FreshSeq(UsedIds(students), year, form, cls, CountClass(students, form, cls) + 1);
    GenerateId(year, form, cls, n)
  }

  /**
    Adding a student, with the generated id made fresh. Validation errors
    come first; a duplicate is reported only for a given id that is taken;
    otherwise the new row is appended with the next key and the barcode
    "SMK" + id.
   */
  function Create(roster: Roster, catalog: Catalog, req: StudentForm, year: int): (r: Result<(Student, Roster), AdminError>)
    ensures Validate(catalog, req.name, req.form, req.cls).Err? ==> r == Err(Validate(catalog, req.name, req.form, req.cls).error)
    ensures r == Err(DuplicateIdOrBarcode) <==>
      Validate(catalog, req.name, req.form, req.cls).Ok? && req.studentId != "" && Clash(roster.students, req.studentId)
    ensures r.Err? ==> Validate(catalog, req.name, req.form, req.cls).Err? || r.error == DuplicateIdOrBarcode
    ensures r.Ok? ==>
      var s := r.value.0;
      && r.value.1 == Roster(roster.students + [s], roster.nextId + 1)
      && s.id == roster.nextId
      && s.name == req.name && Some(s.form) == req.form && s.cls == req.cls
      && s.barcode == BarcodeFor(s.studentId)
      && !Clash(roster.students, s.studentId)
      && (req.studentId != "" ==> s.studentId == req.studentId)
      && (req.studentId == "" ==> exists n :: n > CountClass(roster.students, s.form, s.cls) && s.studentId == GenerateId(year, s.form, s.cls, n))
  {
    match Validate(catalog, req.name, req.form, req.cls)
    case Err(e) => Err(e)
    case Ok(form) =>
      var sid := if req.studentId != "" then req.studentId else FreshId(roster.students, year, form, req.cls);
      InsertStudent(roster, req, form, sid)
  }

  /** Whenever the handler's own id is free, the corrected create does exactly what the handler does. */
  lemma CreateAgrees(roster: Roster, catalog: Catalog, req: StudentForm, year: int)
    requires Validate(catalog, req.name, req.form, req.cls).Ok?
    requires req.studentId == "" ==> !Clash(roster.students, AsWrittenId(roster.students, year, req.form.value, req.cls))
    ensures Create(roster, catalog, req, year) == CreateAsWritten(roster, catalog, req, year)
  {
  }

  lemma ExampleIds()
    ensures IntText(2025) == "2025"
    ensures PadStart(IntText(1), 2, '0') == "01"
    ensures PadStart(Decimal(2), 3, '0') == "002"
  {
    assert Decimal(2025) == "2025" by {
      assert Decimal(2) == "2";
      assert Decimal(20) == "20";
      assert Decimal(202) == "202";
    }
    assert PadStart("1", 2, '0') == "01";
    assert PadStart("2", 3, '0') == "002";
  }

  /**
    A class whose first student left: the remaining student holds sequence
    number 2, the count is 1, so the handler generates "202501A002" again
    and every create without an id in that class is refused.
   */
  lemma AsWrittenReusesId()
    ensures var taken := Student(2, "202501A002", "Ali", 1, "Advance", "SMK202501A002");
      var roster := Roster([taken], 3);
      var catalog: Catalog := map[1 := ["Advance"]];
      var req := StudentForm("", "Aina", Some(1), "Advance");
      && CreateAsWritten(roster, catalog, req, 2025) == Err(DuplicateIdOrBarcode)
      && Create(roster, catalog, req, 2025).Ok?
  {
    var taken := Student(2, "202501A002", "Ali", 1, "Advance", "SMK202501A002");
    var students := [taken];
    assert AsWrittenId(students, 2025, 1, "Advance") == "202501A002" by {
      assert CountClass(students, 1, "Advance") == 1 by {
        assert students[1..] == [];
      }
      assert ClassLetter("Advance") == 'A';
      ExampleIds();
    }
    assert Clash(students, "202501A002") by {
      assert taken in students;
    }
    assert Validate(map[1 := ["Advance"]], "Aina", Some(1), "Advance") == Ok(1);
  }

  lemma AppendKeepsValid(roster: Roster, s: Student)
    requires ValidRoster(roster)
    requires s.id == roster.nextId
    requires forall t :: t in roster.students ==> t.studentId != s.studentId && t.barcode != s.barcode
    ensures ValidRoster(Roster(roster.students + [s], roster.nextId + 1))
  {
    var ss := roster.students + [s];
    var n := |roster.students|;
    forall i, j | 0 <= i < j < |ss|
      ensures ss[i].id < ss[j].id && ss[i].studentId != ss[j].studentId && ss[i].barcode != ss[j].barcode
    {
      assert ss[i] == roster.students[i];
      if j < n {
        assert ss[j] == roster.students[j];
      } else {
        assert ss[j] == s && roster.students[i] in roster.students;
      }
    }
    forall i | 0 <= i < |ss| ensures ss[i].id < roster.nextId + 1 {
      if i < n {
        assert ss[i] == roster.students[i];
      }
    }
  }

  /** A new student whose id does not clash shares neither id nor barcode with anyone on the roster. */
  lemma NoClashApart(students: seq<Student>, s: Student)
    requires !Clash(students, s.studentId) && s.barcode == BarcodeFor(s.studentId)
    ensures forall t :: t in students ==> t.studentId != s.studentId && t.barcode != s.barcode
  {
  }

  /** Create keeps the roster well formed: keys increase, and ids and barcodes stay unique. */
  lemma CreateKeepsValid(roster: Roster, catalog: Catalog, req: StudentForm, year: int)
    requires ValidRoster(roster)
    ensures Create(roster, catalog, req, year).Ok? ==> ValidRoster(Create(roster, catalog, req, year).value.1)
  {
    var r := Create(roster, catalog, req, year);
    if r.Ok? {
      var s := r.value.0;
      assert r.value.1 == Roster(roster.students + [s], roster.nextId + 1);
      assert s.id == roster.nextId && s.barcode == BarcodeFor(s.studentId) && !Clash(roster.students, s.studentId);
      NoClashApart(roster.students, s);
      AppendKeepsValid(roster, s);
    }
  }

  // ---------------------------------------------------------------------------
  // PUT /api/students/:id
  // ---------------------------------------------------------------------------

  /** The edit: the student with that key gets the new name, form and class. */
  function EditRows(students: seq<Student>, id: nat, name: string, form: int, cls: string): (r: seq<Student>)
    ensures |r| == |students|
    ensures forall i :: 0 <= i < |students| ==> r[i] == if students[i].id == id then students[i].(name := name, form := form, cls := cls) else students[i]
  {
    seq(|students|, i requires 0 <= i < |students| =>
      if students[i].id == id then students[i].(name := name, form := form, cls := cls) else students[i])
  }

  predicate HasKey(students: seq<Student>, id: nat) {
    exists i :: 0 <= i < |students| && students[i].id == id
  }

  /**
    Editing a student: the same validation as create, then "not found" when
    no row has the key; otherwise only that row's name, form and class change.
   */
  function Update(roster: Roster, catalog: Catalog, id: nat, req: StudentForm): (r: Result<Roster, AdminError>)
    ensures Validate(catalog, req.name, req.form, req.cls).Err? ==> r == Err(Validate(catalog, req.name, req.form, req.cls).error)
    ensures r == Err(StudentNotFound) <==> Validate(catalog, req.name, req.form, req.cls).Ok? && !HasKey(roster.students, id)
    ensures r.Ok? ==>
      && r.value.nextId == roster.nextId
      && |r.value.students| == |roster.students|
      && forall i :: 0 <= i < |roster.students| ==>
           var old_ := roster.students[i];
           var new_ := r.value.students[i];
           && new_.id == old_.id && new_.studentId == old_.studentId && new_.barcode == old_.barcode
           && (old_.id == id ==> new_.name == req.name && Some(new_.form) == req.form && new_.cls == req.cls)
           && (old_.id != id ==> new_ == old_)
  {
    match Validate(catalog, req.name, req.form, req.cls)
    case Err(e) => Err(e)
    case Ok(form) =>
      if !HasKey(roster.students, id) then Err(StudentNotFound)
      else Ok(Roster(EditRows(roster.students, id, req.name, form, req.cls), roster.nextId))
  }

  /** Create and update refuse a body for the same validation reasons. */
  lemma SharedValidation(roster: Roster, catalog: Catalog, req: StudentForm, year: int, id: nat, e: AdminError)
    requires e == MissingFields || e == InvalidForm || e == InvalidClass
    ensures Create(roster, catalog, req, year) == Err(e) <==> Update(roster, catalog, id, req) == Err(e)
  {
  }

  /** Applying the same edit twice is the same as applying it once. */
  lemma UpdateIdempotent(roster: Roster, catalog: Catalog, id: nat, req: StudentForm)
    requires Update(roster, catalog, id, req).Ok?
    ensures Update(Update(roster, catalog, id, req).value, catalog, id, req) == Update(roster, catalog, id, req)
  {
    var once := Update(roster, catalog, id, req).value;
    var k :| 0 <= k < |roster.students| && roster.students[k].id == id;
    assert once.students[k].id == id;
    var twice := Update(once, catalog, id, req).value;
    assert twice.students == once.students;
  }

  /** An edit keeps the roster well formed: it touches no key, id or barcode. */
  lemma UpdateKeepsValid(roster: Roster, catalog: Catalog, id: nat, req: StudentForm)
    requires ValidRoster(roster)
    ensures Update(roster, catalog, id, req).Ok? ==> ValidRoster(Update(roster, catalog, id, req).value)
  {
  }

  // ---------------------------------------------------------------------------
  // DELETE /api/students/:id and DELETE /api/students/:id/attendance
  // ---------------------------------------------------------------------------

  /** The school id of the first student with that key. */
  function FindById(students: seq<Student>, id: nat): (r: Option<Student>)
    ensures r.None? <==> !HasKey(students, id)
    ensures r.Some? ==> r.value in students && r.value.id == id
    decreases |students|
  {
    if |students| == 0 then None
    else if students[0].id == id then Some(students[0])
    else
      var r := FindById(students[1..], id);
      assert forall i :: 1 <= i < |students| ==> students[i] == students[1..][i - 1];
      r
  }

  /** The number of attendance rows of a student. */
  function CountFor(rows: seq<Record>, sid: string): (n: nat)
    ensures n <= |rows|
    ensures n == 0 <==> forall x :: x in rows ==> x.studentId != sid
    decreases |rows|
  {
    if |rows| == 0 then 0
    else
      assert rows == [rows[0]] + rows[1..];
      (if rows[0].studentId == sid then 1 else 0) + CountFor(rows[1..], sid)
  }

  lemma {:induction false} DropStudentLength(rows: seq<Record>, sid: string)
    ensures |Where(rows, (x: Record) => x.studentId != sid)| + CountFor(rows, sid) == |rows|
    decreases |rows|
  {
    if |rows| > 0 {
      DropStudentLength(rows[1..], sid);
    }
  }

  /** Deleting a student's attendance keeps the other students' rows, in order. */
  function DropStudent(rows: seq<Record>, sid: string): (r: seq<Record>)
    ensures forall x :: x in r <==> x in rows && x.studentId != sid
    ensures |r| + CountFor(rows, sid) == |rows|
    ensures Pairwise(rows, (a: Record, b: Record) => a.id < b.id) ==> Pairwise(r, (a: Record, b: Record) => a.id < b.id)
  {
    var p := (x: Record) => x.studentId != sid;
    WhereKeepsPairwise(rows, p, (a: Record, b: Record) => a.id < b.id);
    DropStudentLength(rows, sid);
    Where(rows, p)
  }

  /** Deleting a student by key keeps the other students, in order. */
  function DropKey(students: seq<Student>, id: nat): (r: seq<Student>)
    ensures forall s :: s in r <==> s in students && s.id != id
    ensures forall n :: ValidRoster(Roster(students, n)) ==> ValidRoster(Roster(r, n))
  {
    var p := (s: Student) => s.id != id;
    WhereKeepsPairwise(students, p, (a: Student, b: Student) => a.id < b.id);
    WhereKeepsPairwise(students, p, (a: Student, b: Student) => a.studentId != b.studentId);
    WhereKeepsPairwise(students, p, (a: Student, b: Student) => a.barcode != b.barcode);
    Where(students, p)
  }

  /**
    Deleting a student: "not found" when no row has the key; refused while
    the student has attendance rows unless `cascade` is "true", in which
    case those rows go first; then the student's row is removed.
   */
  function Delete(roster: Roster, ledger: Ledger, id: nat, cascade: string): (r: Result<(Roster, Ledger), AdminError>)
    ensures r == Err(StudentNotFound) <==> !HasKey(roster.students, id)
    ensures r == Err(HasAttendance) <==>
      HasKey(roster.students, id) && cascade != "true" && CountFor(ledger.rows, FindById(roster.students, id).value.studentId) > 0
    ensures r.Err? ==> r.error == StudentNotFound || r.error == HasAttendance
    ensures r.Ok? ==>
      var sid := FindById(roster.students, id).value.studentId;
      && r.value.0.nextId == roster.nextId
      && (forall s :: s in r.value.0.students <==> s in roster.students && s.id != id)
      && r.value.1.nextId == ledger.nextId
      && (forall x :: x in r.value.1.rows <==> x in ledger.rows && x.studentId != sid)
      && (CountFor(ledger.rows, sid) == 0 ==> r.value.1 == ledger)
  {
    match FindById(roster.students, id)
    case None => Err(StudentNotFound)
    case Some(s) =>
      var n := CountFor(ledger.rows, s.studentId);
      if n > 0 && cascade != "true" then Err(HasAttendance)
      else
        var rows := if n > 0 then DropStudent(ledger.rows, s.studentId) else ledger.rows;
        Ok((Roster(DropKey(roster.students, id), roster.nextId), Ledger(rows, ledger.nextId)))
  }

  /**
    Deleting a student's attendance rows: "not found" when no row has the
    key; otherwise the student's rows go and their number is reported.
   */
  function DeleteAttendance(roster: Roster, ledger: Ledger, id: nat): (r: Result<(Ledger, nat), AdminError>)
    ensures r.Err? <==> !HasKey(roster.students, id)
    ensures r.Err? ==> r.error == StudentNotFound
    ensures r.Ok? ==>
      var sid := FindById(roster.students, id).value.studentId;
      && r.value.0.nextId == ledger.nextId
      && (forall x :: x in r.value.0.rows <==> x in ledger.rows && x.studentId != sid)
      && r.value.1 == |ledger.rows| - |r.value.0.rows|
      && r.value.1 == CountFor(ledger.rows, sid)
  {
    match FindById(roster.students, id)
    case None => Err(StudentNotFound)
    case Some(s) => Ok((Ledger(DropStudent(ledger.rows, s.studentId), ledger.nextId), CountFor(ledger.rows, s.studentId)))
  }

  lemma DropKeepsValidLedger(l: Ledger, sid: string)
    requires ValidLedger(l)
    ensures ValidLedger(Ledger(DropStudent(l.rows, sid), l.nextId))
  {
    assert Pairwise(l.rows, (a: Record, b: Record) => a.id < b.id);
    var r := DropStudent(l.rows, sid);
    forall i | 0 <= i < |r| ensures r[i].id < l.nextId {
      assert r[i] in r;
    }
  }

  /** Both deletes keep the ledger and roster well formed. */
  lemma DeleteKeepsValid(roster: Roster, ledger: Ledger, id: nat, cascade: string)
    requires ValidRoster(roster) && ValidLedger(ledger)
    ensures var r := Delete(roster, ledger, id, cascade);
      r.Ok? ==> ValidRoster(r.value.0) && ValidLedger(r.value.1)
    ensures var r := DeleteAttendance(roster, ledger, id);
      r.Ok? ==> ValidLedger(r.value.0)
  {
    match FindById(roster.students, id)
    case None =>
    case Some(s) =>
      DropKeepsValidLedger(ledger, s.studentId);
  }

  /**
    Every attendance row belongs to a student on the roster. A delete that
    succeeds keeps it so: it is refused, or cascades, exactly when rows of
    the student exist.
   */
  lemma DeleteKeepsLinked(roster: Roster, ledger: Ledger, id: nat, cascade: string)
    requires ValidRoster(roster)
    requires Linked(roster.students, ledger.rows)
    ensures var r := Delete(roster, ledger, id, cascade);
      r.Ok? ==> Linked(r.value.0.students, r.value.1.rows)
  {
    var r := Delete(roster, ledger, id, cascade);
    if r.Ok? {
      var gone := FindById(roster.students, id).value;
      forall x | x in r.value.1.rows ensures exists s :: s in r.value.0.students && s.studentId == x.studentId {
        var s :| s in roster.students && s.studentId == x.studentId;
        assert x.studentId != gone.studentId;
        var i :| 0 <= i < |roster.students| && roster.students[i] == s;
        var j :| 0 <= j < |roster.students| && roster.students[j] == gone;
        assert i != j;
        assert s.id != id by {
          if i < j {
            assert roster.students[i].id < roster.students[j].id;
          } else {
            assert roster.students[j].id < roster.students[i].id;
          }
        }
        assert s in r.value.0.students;
      }
    }
  }

  /** Creating and editing students keep every attendance row linked to a student. */
  lemma CreateUpdateKeepLinked(roster: Roster, ledger: Ledger, catalog: Catalog, req: StudentForm, year: int, id: nat)
    requires Linked(roster.students, ledger.rows)
    ensures Create(roster, catalog, req, year).Ok? ==> Linked(Create(roster, catalog, req, year).value.1.students, ledger.rows)
    ensures Update(roster, catalog, id, req).Ok? ==> Linked(Update(roster, catalog, id, req).value.students, ledger.rows)
  {
    var c := Create(roster, catalog, req, year);
    if c.Ok? {
      forall x | x in ledger.rows ensures exists s :: s in c.value.1.students && s.studentId == x.studentId {
        var s :| s in roster.students && s.studentId == x.studentId;
        assert s in c.value.1.students;
      }
    }
    var u := Update(roster, catalog, id, req);
    if u.Ok? {
      forall x | x in ledger.rows ensures exists s :: s in u.value.students && s.studentId == x.studentId {
        var s :| s in roster.students && s.studentId == x.studentId;
        var i :| 0 <= i < |roster.students| && roster.students[i] == s;
        assert u.value.students[i].studentId == s.studentId;
      }
    }
  }
}
