/** The roster import: each CSV row is mapped through a fixed table of
    Kurdish and English column names into a student record; bad numbers are
    dropped, a row without a name is rejected, and a row that fails to commit
    is rolled back alone. */
module Students {
  import opened Common
  import opened Models

  // ----- text helpers -----

  /** Python's whitespace: the characters `str.strip()` removes. */
  predicate IsSpace(c: char) {
    var n := c as int;
    || n == 0x20 || 0x09 <= n <= 0x0D || 0x1C <= n <= 0x1F || n == 0x85 || n == 0xA0
    || n == 0x1680 || 0x2000 <= n <= 0x200A || n == 0x2028 || n == 0x2029
    || n == 0x202F || n == 0x205F || n == 0x3000
  }

  function LeadingSpaces(s: string): (n: nat)
    ensures n <= |s|
    ensures forall k :: 0 <= k < n ==> IsSpace(s[k])
    ensures n < |s| ==> !IsSpace(s[n])
  {
    if s == [] || !IsSpace(s[0]) then 0 else 1 + LeadingSpaces(s[1..])
  }

  function TrailingSpaces(s: string): (n: nat)
    ensures n <= |s|
    ensures forall k :: |s| - n <= k < |s| ==> IsSpace(s[k])
    ensures n < |s| ==> !IsSpace(s[|s| - n - 1])
  {
    if s == [] || !IsSpace(s[|s| - 1]) then 0 else 1 + TrailingSpaces(s[..|s| - 1])
  }

  /** `str.strip()`: the string without leading and trailing whitespace, that
      is, the slice between the leading and the trailing whitespace. */
  function Trim(s: string): (r: string)
    ensures r == [] || (!IsSpace(r[0]) && !IsSpace(r[|r| - 1]))
    ensures r == [] <==> forall k :: 0 <= k < |s| ==> IsSpace(s[k])
    ensures |r| <= |s|
    ensures LeadingSpaces(s) < |s| ==>
              && LeadingSpaces(s) < |s| - TrailingSpaces(s)
              && r == s[LeadingSpaces(s) .. |s| - TrailingSpaces(s)]
  {
    var i := LeadingSpaces(s);
    if i == |s| then []
    else
      assert !IsSpace(s[i]);
      s[i .. |s| - TrailingSpaces(s)]
  }

  /** Stripping twice is stripping once. */
  lemma TrimIdempotent(s: string)
    ensures Trim(Trim(s)) == Trim(s)
  {
    var r := Trim(s);
    if r != [] {
      assert LeadingSpaces(r) == 0;
      assert TrailingSpaces(r) == 0;
      assert r[0..] == r;
    }
  }

  // ----- column names -----

  /** The student fields a column can fill. */
  datatype Field = Name | Phone | BirthYear | RegularTeacher | Q10Mark

  /** The accepted column names: Kurdish first, then English, with old
      alternative names for the birth year and Q10. */
  const ColumnMap: map<string, Field> :=
    map[
      "ناوی سییانی" := Name,
      "ژمارەی تەلەفۆن" := Phone,
      "ساڵی لەدایکبوون" := BirthYear,
      "تەمەن" := BirthYear,
      "مامۆستای بابەت" := RegularTeacher,
      "نمرەی پرسیاری ١٠" := Q10Mark,
      "name" := Name,
      "phone" := Phone,
      "birth_year" := BirthYear,
      "age" := BirthYear,
      "regular_teacher" := RegularTeacher,
      "q10_mark" := Q10Mark,
      "q10" := Q10Mark
    ]

  /** The byte order mark a UTF-8 file saved by a spreadsheet starts with. */
  const ByteOrderMark: char := 0xFEFF as char

  /** The header lookup as written: the name is stripped of whitespace only. */
  function ColumnFieldAsWritten(column: string): (f: Option<Field>)
    ensures f.Some? <==> Trim(column) in ColumnMap
    ensures f.Some? ==> f.value == ColumnMap[Trim(column)]
  {
    if Trim(column) in ColumnMap then Some(ColumnMap[Trim(column)]) else None
  }

  /** A UTF-8 file with a byte order mark decodes with the mark still in front
      of its first column name, and stripping whitespace does not remove it: a
      roster whose first column is the name column then has every row rejected. */
  lemma ByteOrderMarkHidesFirstColumn()
    ensures ColumnFieldAsWritten([ByteOrderMark] + "name") == None
  {
    var col := [ByteOrderMark] + "name";
    assert LeadingSpaces(col) == 0 && TrailingSpaces(col) == 0;
    assert Trim(col) == col;
    assert col[0] == ByteOrderMark;
    assert col !in ColumnMap;
  }

  /** With the mark ignored, the same header names the name column. */
  lemma ByteOrderMarkIgnored()
    ensures ColumnField([ByteOrderMark] + "name") == Some(Name)
  {
    var col := [ByteOrderMark] + "name";
    assert col[1..] == "name";
    assert LeadingSpaces("name") == 0 && TrailingSpaces("name") == 0;
    assert Trim("name") == "name";
    assert ColumnMap["name"] == Name;
    assert ColumnFieldAsWritten("name") == Some(Name);
  }

  /** The header lookup with a leading byte order mark ignored as well, as
      decoding with `utf-8-sig` first would give. A decoded mark can only stand
      before the first header; dropping it from any header is the same thing,
      since no column name starts with the mark. */
  function ColumnField(column: string): (f: Option<Field>)
    ensures |column| == 0 || column[0] != ByteOrderMark ==> f == ColumnFieldAsWritten(column)
    ensures |column| > 0 && column[0] == ByteOrderMark ==> f == ColumnFieldAsWritten(column[1..])
  {
    if |column| > 0 && column[0] == ByteOrderMark then ColumnFieldAsWritten(column[1..])
    else ColumnFieldAsWritten(column)
  }

  // ----- one row -----

  /** One cell of a row: the header of its column (absent for surplus cells)
      and its text (absent when the row is shorter than the header). */
  datatype CsvField = CsvField(column: Option<string>, value: Option<string>)

  /** The fields collected from one row so far. */
  datatype StudentData = StudentData(
    name: Option<string>, phone: Option<string>, birthYear: Option<int>,
    regularTeacher: Option<string>, q10: Option<real>)

  const NoData := StudentData(None, None, None, None, None)

  /** A stored text is stripped and not empty. */
  predicate Clean(t: Option<string>) {
    t.Some? ==> t.value != [] && Trim(t.value) == t.value
  }

  /** What any mapped row satisfies. */
  predicate WellFormed(d: StudentData) {
    && Clean(d.name) && Clean(d.phone) && Clean(d.regularTeacher)
    && (d.q10.Some? ==> 0.0 <= d.q10.value <= 10.0)
  }

  /** A parsed Q10 the import keeps: a number within [0, 10]. */
  predicate InRangeQ10(x: Option<real>) {
    x.Some? && 0.0 <= x.value <= 10.0
  }

  /** A cell under a header the lookup (as written) knows, with text that is
      not blank: the cells the import stores. */
  predicate Filled(f: CsvField, field: Field) {
    && f.column.Some? && f.value.Some? && Trim(f.value.value) != []
    && ColumnFieldAsWritten(f.column.value) == Some(field)
  }

  /** One cell applied to the data collected so far. Texts are stored
      stripped; a birth year that is not an integer and a Q10 that is not a
      number in [0, 10] are dropped without an error; `parseInt` and
      `parseFloat` stand for Python's `int()` and `float()`. The header goes
      through the lookup as written, so a header carrying a byte order mark
      is not recognised. */
  function ApplyField(d: StudentData, f: CsvField, parseInt: string -> Option<int>, parseFloat: string -> Option<real>)
    : (r: StudentData)
    ensures f.column.None? || ColumnFieldAsWritten(f.column.value).None? ==> r == d
    ensures f.value.None? || Trim(f.value.value) == [] ==> r == d
    ensures WellFormed(d) ==> WellFormed(r)
    ensures r.birthYear != d.birthYear ==> r.birthYear == parseInt(Trim(f.value.value))
    ensures r.q10 != d.q10 ==> r.q10 == parseFloat(Trim(f.value.value))
    ensures r.name != d.name ==> r.name == Some(Trim(f.value.value))
    ensures Filled(f, Name) ==> r == d.(name := Some(Trim(f.value.value)))
    ensures Filled(f, Phone) ==> r == d.(phone := Some(Trim(f.value.value)))
    ensures Filled(f, RegularTeacher) ==> r == d.(regularTeacher := Some(Trim(f.value.value)))
    ensures Filled(f, BirthYear) && parseInt(Trim(f.value.value)).Some? ==>
              r == d.(birthYear := parseInt(Trim(f.value.value)))
    ensures Filled(f, BirthYear) && parseInt(Trim(f.value.value)).None? ==> r == d
    ensures Filled(f, Q10Mark) && InRangeQ10(parseFloat(Trim(f.value.value))) ==> r == d.(q10 := parseFloat(Trim(f.value.value)))
    ensures Filled(f, Q10Mark) && !InRangeQ10(parseFloat(Trim(f.value.value))) ==> r == d
  {
    if f.column.None? || f.value.None? then d
    else
      var field := ColumnFieldAsWritten(f.column.value);
      var v := Trim(f.value.value);
      TrimIdempotent(f.value.value);
      if field.None? || v == [] then d
      else
        match field.value
        case BirthYear =>
          var n := parseInt(v);
          if n.Some? then d.(birthYear := n) else d
        case Q10Mark =>
          var x := parseFloat(v);
          if InRangeQ10(x) then d.(q10 := x) else d
        case Name => d.(name := Some(v))
        case Phone => d.(phone := Some(v))
        case RegularTeacher => d.(regularTeacher := Some(v))
  }

  /** The data of a whole row: its cells applied left to right. */
  function RowData(row: seq<CsvField>, parseInt: string -> Option<int>, parseFloat: string -> Option<real>)
    : (d: StudentData)
    ensures WellFormed(d)
  {
    if row == [] then NoData
    else ApplyField(RowData(row[..|row| - 1], parseInt, parseFloat), row[|row| - 1], parseInt, parseFloat)
  }

  /** A cell under an unknown or missing header changes nothing. */
  lemma UnknownColumnIgnored(row: seq<CsvField>, f: CsvField, parseInt: string -> Option<int>, parseFloat: string -> Option<real>)
    requires f.column.None? || ColumnFieldAsWritten(f.column.value).None?
    ensures RowData(row + [f], parseInt, parseFloat) == RowData(row, parseInt, parseFloat)
  {
    assert (row + [f])[..|row|] == row;
  }

  /** The per-row loop: each cell of the row in turn. */
  method MapRow(row: seq<CsvField>, parseInt: string -> Option<int>, parseFloat: string -> Option<real>)
    returns (d: StudentData)
    ensures d == RowData(row, parseInt, parseFloat)
    ensures WellFormed(d)
  {
    d := NoData;
    var i := 0;
    while i < |row|
      invariant 0 <= i <= |row|
      invariant d == RowData(row[..i], parseInt, parseFloat)
    {
      assert row[..i + 1][..i] == row[..i];
      d := ApplyField(d, row[i], parseInt, parseFloat);
      i := i + 1;
    }
    assert row[..i] == row;
  }

  /** The student stored for a row that has a name. */
  function ToStudent(d: StudentData): (s: Student)
    requires d.name.Some?
    ensures s.name == d.name.value && s.q10 == d.q10 && s.birthYear == d.birthYear
    ensures s.phone == d.phone && s.regularTeacher == d.regularTeacher
  {
    Student(d.name.value, d.phone, d.birthYear, d.regularTeacher, d.q10)
  }

  // ----- the whole file -----

  datatype RowProblem = EmptyName | CommitFailed

  /** A rejected row, numbered as in the file: the header is line 1. */
  datatype RowError = RowError(rowNumber: nat, problem: RowProblem)

  /** The line number of the row at index i. */
  function RowNumber(i: nat): (n: nat)
    ensures n == i + 2
  {
    i + 2
  }

  /** What becomes of one mapped row: a student to insert, or an error. */
  datatype RowOutcome = Admitted(student: Student) | Refused(error: RowError)

  /** A row without a name is refused; one whose commit raises (its line
      number is in `failing`) is rolled back and refused; any other is admitted. */
  function Outcome(d: StudentData, number: nat, failing: set<nat>): (o: RowOutcome)
    ensures o.Admitted? <==> d.name.Some? && number !in failing
    ensures o.Admitted? ==> o.student == ToStudent(d)
    ensures o.Refused? ==> o.error.rowNumber == number && (o.error.problem == EmptyName <==> d.name.None?)
  {
    if d.name.None? then Refused(RowError(number, EmptyName))
    else if number in failing then Refused(RowError(number, CommitFailed))
    else Admitted(ToStudent(d))
  }

  /** As written: in a roster saved with a byte order mark whose first column
      is the name column, the name cell is ignored and the row is refused as
      nameless, whatever it holds. */
  lemma ByteOrderMarkRowRefused(v: string, parseInt: string -> Option<int>, parseFloat: string -> Option<real>,
                                failing: set<nat>, number: nat)
    ensures var d := RowData([CsvField(Some([ByteOrderMark] + "name"), Some(v))], parseInt, parseFloat);
      d.name.None? && Outcome(d, number, failing) == Refused(RowError(number, EmptyName))
  {
    ByteOrderMarkHidesFirstColumn();
    var row := [CsvField(Some([ByteOrderMark] + "name"), Some(v))];
    assert row[..0] == [];
  }

  /** Corrected: with the mark dropped before the lookup, the same cell names
      the student and the row is admitted. */
  lemma NameCellAdmittedWithoutMark(v: string, parseInt: string -> Option<int>, parseFloat: string -> Option<real>,
                                    failing: set<nat>, number: nat)
    requires Trim(v) != [] && number !in failing
    ensures var column := [ByteOrderMark] + "name";
      var d := RowData([CsvField(Some(column[1..]), Some(v))], parseInt, parseFloat);
      && ColumnField(column) == Some(Name)
      && d.name == Some(Trim(v))
      && Outcome(d, number, failing) == Admitted(ToStudent(d))
  {
    ByteOrderMarkIgnored();
    var column := [ByteOrderMark] + "name";
    assert column[1..] == "name";
    var row := [CsvField(Some("name"), Some(v))];
    assert row[..0] == [];
  }

  function AdmittedPart(o: RowOutcome): seq<Student> {
    if o.Admitted? then [o.student] else []
  }

  function RefusedPart(o: RowOutcome): seq<RowError> {
    if o.Refused? then [o.error] else []
  }

  /** The outcome of the row at index i. */
  function OutcomeAt(rows: seq<seq<CsvField>>, parseInt: string -> Option<int>, parseFloat: string -> Option<real>,
                     failing: set<nat>, i: nat): RowOutcome
    requires i < |rows|
  {
    Outcome(RowData(rows[i], parseInt, parseFloat), RowNumber(i), failing)
  }

  /** The students the rows yield, in file order. */
  function Imported(rows: seq<seq<CsvField>>, parseInt: string -> Option<int>, parseFloat: string -> Option<real>,
                    failing: set<nat>): seq<Student>
  {
    if rows == [] then []
    else
      Imported(rows[..|rows| - 1], parseInt, parseFloat, failing) +
        AdmittedPart(OutcomeAt(rows, parseInt, parseFloat, failing, |rows| - 1))
  }

  /** The rows the import reports as errors, in file order. */
  function Rejected(rows: seq<seq<CsvField>>, parseInt: string -> Option<int>, parseFloat: string -> Option<real>,
                    failing: set<nat>): seq<RowError>
  {
    if rows == [] then []
    else
      Rejected(rows[..|rows| - 1], parseInt, parseFloat, failing) +
        RefusedPart(OutcomeAt(rows, parseInt, parseFloat, failing, |rows| - 1))
  }

  /** Every row is accounted for exactly once: created or reported. */
  lemma {:induction false} EveryRowAccounted(rows: seq<seq<CsvField>>, parseInt: string -> Option<int>,
                                             parseFloat: string -> Option<real>, failing: set<nat>)
    ensures |Imported(rows, parseInt, parseFloat, failing)| + |Rejected(rows, parseInt, parseFloat, failing)| == |rows|
  {
    if rows != [] {
      EveryRowAccounted(rows[..|rows| - 1], parseInt, parseFloat, failing);
    }
  }

  /** Every imported student has a name, and a Q10 only within [0, 10]. */
  lemma {:induction false} ImportedWellFormed(rows: seq<seq<CsvField>>, parseInt: string -> Option<int>,
                                              parseFloat: string -> Option<real>, failing: set<nat>)
    ensures forall s :: s in Imported(rows, parseInt, parseFloat, failing) ==>
              s.name != [] && (s.q10.Some? ==> 0.0 <= s.q10.value <= 10.0)
  {
    if rows != [] {
      ImportedWellFormed(rows[..|rows| - 1], parseInt, parseFloat, failing);
    }
  }

  /** Line numbers within 2 .. count + 1, strictly increasing. */
  predicate InFileOrder(r: seq<RowError>, count: nat) {
    && (forall j :: 0 <= j < |r| ==> 2 <= r[j].rowNumber <= count + 1)
    && (forall j, k :: 0 <= j < k < |r| ==> r[j].rowNumber < r[k].rowNumber)
  }

  /** Errors are reported once per row at most, in file order. */
  lemma {:induction false} RejectedInFileOrder(rows: seq<seq<CsvField>>, parseInt: string -> Option<int>,
                                               parseFloat: string -> Option<real>, failing: set<nat>)
    ensures InFileOrder(Rejected(rows, parseInt, parseFloat, failing), |rows|)
  {
    if rows != [] {
      var n := |rows| - 1;
      RejectedInFileOrder(rows[..n], parseInt, parseFloat, failing);
      var front := Rejected(rows[..n], parseInt, parseFloat, failing);
      assert InFileOrder(front, n);
      var r := Rejected(rows, parseInt, parseFloat, failing);
      assert r[..|front|] == front;
      assert |r| <= |front| + 1;
      assert |r| == |front| + 1 ==> r[|front|].rowNumber == n + 2;
    }
  }

  /** A row is reported for an empty name exactly when mapping it finds no name. */
  lemma {:induction false} EmptyNameErrors(rows: seq<seq<CsvField>>, parseInt: string -> Option<int>,
                                           parseFloat: string -> Option<real>, failing: set<nat>, i: nat)
    requires i < |rows|
    ensures (RowError(RowNumber(i), EmptyName) in Rejected(rows, parseInt, parseFloat, failing)) ==
            RowData(rows[i], parseInt, parseFloat).name.None?
  {
    var n := |rows| - 1;
    var front := Rejected(rows[..n], parseInt, parseFloat, failing);
    var o := OutcomeAt(rows, parseInt, parseFloat, failing, n);
    var e := RowError(RowNumber(i), EmptyName);
    assert Rejected(rows, parseInt, parseFloat, failing) == front + RefusedPart(o);
    assert e in RefusedPart(o) <==> i == n && RowData(rows[n], parseInt, parseFloat).name.None?;
    if i < n {
      EmptyNameErrors(rows[..n], parseInt, parseFloat, failing, i);
      assert rows[..n][i] == rows[i];
    } else {
      RejectedInFileOrder(rows[..n], parseInt, parseFloat, failing);
      assert e !in front;
    }
  }

  /** One more row: what it adds to the created students and to the errors. */
  lemma ImportStep(rows: seq<seq<CsvField>>, parseInt: string -> Option<int>, parseFloat: string -> Option<real>,
                   failing: set<nat>, i: nat)
    requires i < |rows|
    ensures var o := OutcomeAt(rows, parseInt, parseFloat, failing, i);
      && Imported(rows[..i + 1], parseInt, parseFloat, failing) ==
           Imported(rows[..i], parseInt, parseFloat, failing) + AdmittedPart(o)
      && Rejected(rows[..i + 1], parseInt, parseFloat, failing) ==
           Rejected(rows[..i], parseInt, parseFloat, failing) + RefusedPart(o)
  {
    assert rows[..i + 1][..i] == rows[..i];
    assert rows[..i + 1][i] == rows[i];
  }

  /** The student table after the students `ss` were inserted in order,
      taking the consecutive ids from `base` on. */
  function Enrolled(m: map<nat, Student>, base: nat, ss: seq<Student>): map<nat, Student> {
    if ss == [] then m
    else Enrolled(m, base, ss[..|ss| - 1])[base + |ss| - 1 := ss[|ss| - 1]]
  }

  lemma EnrolledAppend(m: map<nat, Student>, base: nat, ss: seq<Student>, s: Student)
    ensures Enrolled(m, base, ss + [s]) == Enrolled(m, base, ss)[base + |ss| := s]
  {
    assert (ss + [s])[..|ss|] == ss;
  }

  /** Inserting keeps every existing student and adds exactly the new ones. */
  lemma {:induction false} EnrolledContents(m: map<nat, Student>, base: nat, ss: seq<Student>)
    requires forall k :: k in m ==> k < base
    ensures forall k :: k in Enrolled(m, base, ss) <==> k in m || base <= k < base + |ss|
    ensures forall k :: k in m ==> Enrolled(m, base, ss)[k] == m[k]
    ensures forall j :: 0 <= j < |ss| ==> Enrolled(m, base, ss)[base + j] == ss[j]
  {
    if ss != [] {
      var front := ss[..|ss| - 1];
      EnrolledContents(m, base, front);
      assert forall j :: 0 <= j < |front| ==> front[j] == ss[j];
    }
  }

  /** Every id in the table stays below the next free id. */
  lemma {:induction false} EnrolledBelow(m: map<nat, Student>, base: nat, ss: seq<Student>)
    requires forall k :: k in m ==> k < base
    ensures forall k :: k in Enrolled(m, base, ss) ==> k < base + |ss|
  {
    if ss != [] {
      EnrolledBelow(m, base, ss[..|ss| - 1]);
    }
  }

  /** The import loop: each row is mapped, then refused or admitted. The
      admitted students are inserted in file order under consecutive ids;
      as each insert is committed at once, a later failing row leaves earlier
      ones in place, and a rolled-back row uses up no id. */
  method ImportRows(rows: seq<seq<CsvField>>, parseInt: string -> Option<int>, parseFloat: string -> Option<real>,
                    failing: set<nat>, start: map<nat, Student>, base: nat)
    returns (created: seq<nat>, errors: seq<RowError>, students: map<nat, Student>)
    ensures errors == Rejected(rows, parseInt, parseFloat, failing)
    ensures |created| == |Imported(rows, parseInt, parseFloat, failing)|
    ensures forall j :: 0 <= j < |created| ==> created[j] == base + j
    ensures students == Enrolled(start, base, Imported(rows, parseInt, parseFloat, failing))
    ensures (forall k :: k in start ==> k < base) ==> forall k :: k in students ==> k < base + |created|
  {
    var admitted: seq<Student> := [];
    errors := [];
    var i := 0;
    while i < |rows|
      invariant 0 <= i <= |rows|
      invariant errors == Rejected(rows[..i], parseInt, parseFloat, failing)
      invariant admitted == Imported(rows[..i], parseInt, parseFloat, failing)
    {
      ImportStep(rows, parseInt, parseFloat, failing, i);
      var d := MapRow(rows[i], parseInt, parseFloat);
      var o := Outcome(d, RowNumber(i), failing);
      if o.Refused? {
        errors := errors + [o.error];
      } else {
        admitted := admitted + [o.student];
      }
      i := i + 1;
    }
    assert rows[..i] == rows;
    students := Enrolled(start, base, admitted);
    if forall k :: k in start ==> k < base {
      EnrolledBelow(start, base, admitted);
    }
    created := seq(|admitted|, j requires 0 <= j < |admitted| => base + j);
  }

  /** `import_students_csv`, from the parsed rows on: the report lists the
      new ids and the rejected rows, and the student table gains exactly the
      imported students. */
  method ImportStudents(db: Store, rows: seq<seq<CsvField>>, parseInt: string -> Option<int>,
                        parseFloat: string -> Option<real>, failing: set<nat>)
    returns (created: seq<nat>, errors: seq<RowError>)
    requires db.Valid()
    modifies db`students, db`nextId
    ensures db.Valid()
    ensures errors == Rejected(rows, parseInt, parseFloat, failing)
    ensures |created| == |Imported(rows, parseInt, parseFloat, failing)|
    ensures forall j :: 0 <= j < |created| ==> created[j] == old(db.nextId) + j
    ensures db.nextId == old(db.nextId) + |created|
    ensures db.students == Enrolled(old(db.students), old(db.nextId), Imported(rows, parseInt, parseFloat, failing))
  {
    var students;
    created, errors, students := ImportRows(rows, parseInt, parseFloat, failing, db.students, db.nextId);
    db.students, db.nextId := students, db.nextId + |created|;
  }
}
