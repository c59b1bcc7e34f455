/** The report endpoints: the per-student results, the detailed and the
    summary CSV exports, the overall counts and the graders' statistics. Each
    endpoint works on the rows its query loaded, in the order the database
    returned them; a related row that has since been deleted is absent. */
module Reports {
  import opened Common
  import opened Models
  import opened Scoring

  // ----- query filters -----

  /** An id given as a query parameter filters only when it is set and not 0. */
  predicate Truthy(id: Option<nat>) {
    id.Some? && id.value != 0
  }

  /** The filters of the report queries on the assignment table. */
  predicate Wanted(a: Assignment, teamId: Option<nat>, groupId: Option<nat>, sessionId: Option<nat>) {
    && (Truthy(teamId) ==> a.teamId == teamId.value)
    && (Truthy(groupId) ==> a.groupId == groupId.value)
    && (Truthy(sessionId) ==> a.sessionId == sessionId)
  }

  /** One assignment as a report query loads it, with its student, team and
      rubric (absent once deleted) and its grades, each paired with its
      grader's id, in the order the database lists them. */
  datatype Loaded = Loaded(
    assignment: Assignment, student: Option<Student>, team: Option<Team>,
    group: Option<QuestionGroup>, grades: seq<(nat, Grade)>)
  {
    predicate Intact() {
      student.Some? && team.Some? && group.Some?
    }
  }

  /** The rows a report query returns: those that pass its filters, in order. */
  function Query(rows: seq<Loaded>, teamId: Option<nat>, groupId: Option<nat>, sessionId: Option<nat>)
    : (r: seq<Loaded>)
    ensures |r| <= |rows|
    ensures forall i :: 0 <= i < |r| ==> Wanted(r[i].assignment, teamId, groupId, sessionId)
  {
    if rows == [] then []
    else
      var n := |rows| - 1;
      Query(rows[..n], teamId, groupId, sessionId)
        + (if Wanted(rows[n].assignment, teamId, groupId, sessionId) then [rows[n]] else [])
  }

  /** A row is returned exactly when it is loaded and passes the filters. */
  lemma {:induction false} QueryMembers(rows: seq<Loaded>, teamId: Option<nat>, groupId: Option<nat>, sessionId: Option<nat>)
    ensures forall x :: x in Query(rows, teamId, groupId, sessionId) <==> x in rows && Wanted(x.assignment, teamId, groupId, sessionId)
  {
    if rows != [] {
      var n := |rows| - 1;
      QueryMembers(rows[..n], teamId, groupId, sessionId);
      assert rows == rows[..n] + [rows[n]];
    }
  }

  /** The rows whose student, team and rubric all still exist. */
  function IntactRows(rows: seq<Loaded>): (r: seq<Loaded>)
    ensures |r| <= |rows|
    ensures forall i :: 0 <= i < |r| ==> r[i].Intact()
  {
    if rows == [] then []
    else
      var n := |rows| - 1;
      IntactRows(rows[..n]) + (if rows[n].Intact() then [rows[n]] else [])
  }

  /** A row is kept exactly when its student, team and rubric all exist. */
  lemma {:induction false} IntactRowsMembers(rows: seq<Loaded>)
    ensures forall x :: x in IntactRows(rows) <==> x in rows && x.Intact()
  {
    if rows != [] {
      var n := |rows| - 1;
      IntactRowsMembers(rows[..n]);
      assert rows == rows[..n] + [rows[n]];
    }
  }

  /** The rows whose student still exists. */
  function WithStudent(rows: seq<Loaded>): (r: seq<Loaded>)
    ensures |r| <= |rows|
    ensures forall i :: 0 <= i < |r| ==> r[i].student.Some?
  {
    if rows == [] then []
    else
      var n := |rows| - 1;
      WithStudent(rows[..n]) + (if rows[n].student.Some? then [rows[n]] else [])
  }

  /** A row is kept exactly when its student exists. */
  lemma {:induction false} WithStudentMembers(rows: seq<Loaded>)
    ensures forall x :: x in WithStudent(rows) <==> x in rows && x.student.Some?
  {
    if rows != [] {
      var n := |rows| - 1;
      WithStudentMembers(rows[..n]);
      assert rows == rows[..n] + [rows[n]];
    }
  }

  /** One more row: it is kept when its student exists. */
  lemma WithStudentStep(rows: seq<Loaded>, i: nat)
    requires i < |rows|
    ensures WithStudent(rows[..i + 1]) == WithStudent(rows[..i]) + (if rows[i].student.Some? then [rows[i]] else [])
  {
    assert rows[..i + 1][..i] == rows[..i];
  }

  // ----- the two grader slots -----

  /** A grade belongs in a slot when its grader still exists: position 1
      fills the first slot, every other position the second. */
  predicate InSlot(teachers: map<nat, Teacher>, teacherId: nat, first: bool) {
    teacherId in teachers && (teachers[teacherId].position == 1) == first
  }

  /** Grade i is the last one listed that belongs in the slot. */
  predicate LastInSlotAt(grades: seq<(nat, Grade)>, teachers: map<nat, Teacher>, first: bool, i: int) {
    && 0 <= i < |grades|
    && InSlot(teachers, grades[i].0, first)
    && forall j :: i < j < |grades| ==> !InSlot(teachers, grades[j].0, first)
  }

  /** The grade a slot holds: the last listed one that belongs there, so a
      later grader overwrites an earlier one and at most two are combined. */
  function SlotGrade(grades: seq<(nat, Grade)>, teachers: map<nat, Teacher>, first: bool): (g: Option<Grade>)
    ensures g.None? <==> forall i :: 0 <= i < |grades| ==> !InSlot(teachers, grades[i].0, first)
    ensures g.Some? ==> exists i :: LastInSlotAt(grades, teachers, first, i) && grades[i].1 == g.value
  {
    if grades == [] then None
    else
      var n := |grades| - 1;
      if InSlot(teachers, grades[n].0, first) then
        assert LastInSlotAt(grades, teachers, first, n);
        Some(grades[n].1)
      else
        var g := SlotGrade(grades[..n], teachers, first);
        assert forall i :: 0 <= i < n ==> grades[..n][i] == grades[i];
        assert g.Some? ==> exists i :: LastInSlotAt(grades, teachers, first, i) && grades[i].1 == g.value by {
          if g.Some? {
            var i :| LastInSlotAt(grades[..n], teachers, first, i) && grades[..n][i].1 == g.value;
            assert LastInSlotAt(grades, teachers, first, i);
          }
        }
        g
  }

  /** The slot loop of every report: each grade whose grader exists goes to
      the slot of that grader's position, replacing what was there. */
  method PickSlots(grades: seq<(nat, Grade)>, teachers: map<nat, Teacher>)
    returns (slot1: Option<Grade>, slot2: Option<Grade>)
    ensures slot1 == SlotGrade(grades, teachers, true)
    ensures slot2 == SlotGrade(grades, teachers, false)
  {
    slot1, slot2 := None, None;
    var i := 0;
    while i < |grades|
      invariant 0 <= i <= |grades|
      invariant slot1 == SlotGrade(grades[..i], teachers, true)
      invariant slot2 == SlotGrade(grades[..i], teachers, false)
    {
      assert grades[..i + 1][..i] == grades[..i];
      var teacherId := grades[i].0;
      if teacherId in teachers {
        if teachers[teacherId].position == 1 {
          slot1 := Some(grades[i].1);
        } else {
          slot2 := Some(grades[i].1);
        }
      }
      i := i + 1;
    }
    assert grades[..|grades|] == grades;
  }

  /** Graders at positions 2 and 3 share the second slot, so only the one
      listed last is combined; a grade whose grader was deleted is ignored. */
  lemma LastGraderWinsSecondSlot(g1: Grade, g2: Grade, g3: Grade)
    ensures var teachers := map[1 := Teacher("A", 7, 1), 2 := Teacher("B", 7, 2), 3 := Teacher("C", 7, 3)];
      && SlotGrade([(1, g1), (2, g2), (3, g3)], teachers, true) == Some(g1)
      && SlotGrade([(1, g1), (2, g2), (3, g3)], teachers, false) == Some(g3)
    ensures SlotGrade([(1, g1), (2, g2)], map[2 := Teacher("B", 7, 2)], true) == None
  {
    var teachers := map[1 := Teacher("A", 7, 1), 2 := Teacher("B", 7, 2), 3 := Teacher("C", 7, 3)];
    var grades := [(1, g1), (2, g2), (3, g3)];
    assert grades[..2] == [(1, g1), (2, g2)];
    assert [(1, g1), (2, g2)][..1] == [(1, g1)];
    assert [(1, g1)][..0] == [];
    assert SlotGrade([(1, g1)], teachers, true) == Some(g1);
    assert SlotGrade([(1, g1), (2, g2)], teachers, true) == Some(g1);
    assert SlotGrade([(1, g1)], map[2 := Teacher("B", 7, 2)], true) == None;
  }

  /** The marks of a slot's record, all absent when the slot is empty. */
  function SlotMarks(g: Option<Grade>): (m: ItemMarks)
    ensures forall k :: 0 <= k < ItemCount ==> m[k] == MarkOf(g, k)
  {
    if g.Some? then g.value.marks else NoMarks
  }

  /** The averaging loop of the student results and the detailed export. */
  method AverageMarks(slot1: Option<Grade>, slot2: Option<Grade>) returns (avg: seq<Option<real>>)
    ensures avg == ItemAverages(slot1, slot2)
  {
    avg := [];
    var k := 0;
    while k < ItemCount
      invariant 0 <= k <= ItemCount && |avg| == k
      invariant forall j :: 0 <= j < k ==> avg[j] == Average(MarkOf(slot1, j), MarkOf(slot2, j))
    {
      var t1 := MarkOf(slot1, k);
      var t2 := MarkOf(slot2, k);
      var a: Option<real>;
      if t1.Some? && t2.Some? {
        a := Some((t1.value + t2.value) / 2.0);
      } else if t1.Some? {
        a := t1;
      } else if t2.Some? {
        a := t2;
      } else {
        a := None;
      }
      avg := avg + [a];
      k := k + 1;
    }
  }

  /** The averaging loop of the summary export, which keeps only the
      averages that are present. */
  method PresentAverages(slot1: Option<Grade>, slot2: Option<Grade>) returns (present: seq<real>)
    ensures present == Present(ItemAverages(slot1, slot2))
  {
    ghost var avg := ItemAverages(slot1, slot2);
    present := [];
    var k := 0;
    while k < ItemCount
      invariant 0 <= k <= ItemCount
      invariant present == Present(avg[..k])
    {
      assert avg[..k + 1][..k] == avg[..k];
      var t1 := MarkOf(slot1, k);
      var t2 := MarkOf(slot2, k);
      if t1.Some? && t2.Some? {
        present := present + [(t1.value + t2.value) / 2.0];
      } else if t1.Some? {
        present := present + [t1.value];
      } else if t2.Some? {
        present := present + [t2.value];
      }
      k := k + 1;
    }
    assert avg[..ItemCount] == avg;
  }

  // ----- per-student results -----

  datatype StudentResult = StudentResult(
    studentId: nat, studentName: string, birthYear: Option<int>, regularTeacher: Option<string>,
    teamName: string, group: string,
    teacher1Marks: ItemMarks, teacher2Marks: ItemMarks, averageMarks: ItemMarks,
    subtotal: Option<real>, q10: Option<real>, finalTotal: Option<real>, examIncomplete: bool)

  /** How a rubric is named in the reports: its code after the word for "group". */
  function GroupLabel(code: string): string {
    "گرووپ " + code
  }

  /** The result reported for one intact row. */
  function ResultOf(l: Loaded, teachers: map<nat, Teacher>): StudentResult
    requires l.Intact()
  {
    var s1 := SlotGrade(l.grades, teachers, true);
    var s2 := SlotGrade(l.grades, teachers, false);
    var subtotal := Subtotal(s1, s2);
    var final := FinalTotal(subtotal, l.assignment.q10);
    StudentResult(
      l.assignment.studentId, l.student.value.name, l.student.value.birthYear,
      l.student.value.regularTeacher, l.team.value.name, GroupLabel(l.group.value.code),
      SlotMarks(s1), SlotMarks(s2), ItemAverages(s1, s2),
      if subtotal > 0.0 then Some(subtotal) else None,
      l.assignment.q10,
      if final.Some? && final.value != 0.0 then final else None,
      l.assignment.examIncomplete)
  }

  /** What a result reports: the slot marks and their averages, the subtotal
      only when positive, and the final total only when it is defined (and
      not 0, which a non-negative Q10 rules out). */
  lemma ResultFigures(l: Loaded, teachers: map<nat, Teacher>)
    requires l.Intact()
    ensures var r := ResultOf(l, teachers);
      var s1 := SlotGrade(l.grades, teachers, true);
      var s2 := SlotGrade(l.grades, teachers, false);
      && (forall k :: 0 <= k < ItemCount ==>
            && r.teacher1Marks[k] == MarkOf(s1, k) && r.teacher2Marks[k] == MarkOf(s2, k)
            && r.averageMarks[k] == Average(r.teacher1Marks[k], r.teacher2Marks[k]))
      && (r.subtotal.Some? <==> MarkSum(r.averageMarks) > 0.0)
      && (r.subtotal.Some? ==> r.subtotal.value == MarkSum(r.averageMarks))
      && (r.finalTotal.Some? ==> r.subtotal.Some? && r.q10.Some? && r.finalTotal.value == r.subtotal.value + r.q10.value)
      && (r.q10.Some? && r.q10.value >= 0.0 ==> (r.finalTotal.Some? <==> r.subtotal.Some?))
  {
    var s1 := SlotGrade(l.grades, teachers, true);
    var s2 := SlotGrade(l.grades, teachers, false);
    if FinalTotal(Subtotal(s1, s2), l.assignment.q10).Some? {
      FinalExceedsQ10(Subtotal(s1, s2), l.assignment.q10);
    }
  }

  /** The body of the results loop for one row. */
  method ResultRow(l: Loaded, teachers: map<nat, Teacher>) returns (r: StudentResult)
    requires l.Intact()
    ensures r == ResultOf(l, teachers)
  {
    var slot1, slot2 := PickSlots(l.grades, teachers);
    var avg := AverageMarks(slot1, slot2);
    var subtotal := Sum(Present(avg));
    SubtotalCopiesAgree(avg);
    assert subtotal == Subtotal(slot1, slot2);
    var final := FinalTotal(subtotal, l.assignment.q10);
    r := StudentResult(
      l.assignment.studentId, l.student.value.name, l.student.value.birthYear,
      l.student.value.regularTeacher, l.team.value.name, GroupLabel(l.group.value.code),
      SlotMarks(slot1), SlotMarks(slot2), avg,
      if subtotal > 0.0 then Some(subtotal) else None,
      l.assignment.q10,
      if final.Some? && final.value != 0.0 then final else None,
      l.assignment.examIncomplete);
  }

  /** `get_student_results`: one result per row of the query whose student,
      team and rubric still exist, in query order. */
  method StudentResults(rows: seq<Loaded>, teachers: map<nat, Teacher>,
                        teamId: Option<nat>, groupId: Option<nat>, sessionId: Option<nat>)
    returns (results: seq<StudentResult>)
    ensures var kept := IntactRows(Query(rows, teamId, groupId, sessionId));
      && |results| == |kept|
      && forall j :: 0 <= j < |results| ==> results[j] == ResultOf(kept[j], teachers)
  {
    var assignments := Query(rows, teamId, groupId, sessionId);
    results := [];
    var i := 0;
    while i < |assignments|
      invariant 0 <= i <= |assignments|
      invariant |results| == |IntactRows(assignments[..i])|
      invariant forall j :: 0 <= j < |results| ==> results[j] == ResultOf(IntactRows(assignments[..i])[j], teachers)
    {
      assert assignments[..i + 1][..i] == assignments[..i];
      var l := assignments[i];
      if l.Intact() {
        var r := ResultRow(l, teachers);
        results := results + [r];
      }
      i := i + 1;
    }
    assert assignments[..|assignments|] == assignments;
  }

  // ----- CSV cells and rows -----

  /** A CSV cell: text, a number, a whole number, or empty. */
  datatype Cell = Text(text: string) | Number(value: real) | Integer(whole: int) | Blank

  /** `value or ''` for a whole-number column: unset and 0 give an empty cell. */
  function IntegerOrBlank(v: Option<int>): (c: Cell)
    ensures c == Blank <==> v.None? || v.value == 0
  {
    if v.Some? && v.value != 0 then Integer(v.value) else Blank
  }

  /** `value or ''` for a text column: unset and "" give an empty cell. */
  function TextOrBlank(v: Option<string>): (c: Cell)
    ensures c == Blank <==> v.None? || v.value == ""
  {
    if v.Some? && v.value != "" then Text(v.value) else Blank
  }

  /** A mark column: empty only when the mark is absent; 0 is shown. */
  function MarkCell(m: Option<real>): (c: Cell)
    ensures c == Blank <==> m.None?
  {
    if m.Some? then Number(m.value) else Blank
  }

  /** A subtotal column: empty unless positive. */
  function PositiveCell(x: real): (c: Cell)
    ensures c == Blank <==> x <= 0.0
  {
    if x > 0.0 then Number(x) else Blank
  }

  /** The summary export's final-total column, `final if final else ''`:
      empty when there is none, and also when it is 0. */
  function SummaryFinalCell(f: Option<real>): (c: Cell)
    ensures c == Blank <==> f.None? || f.value == 0.0
  {
    if f.Some? && f.value != 0.0 then Number(f.value) else Blank
  }

  function StatusText(s: Status): string {
    match s
    case Unfinished => "تەواونەکرد"
    case Completed => "تەواوبوو"
    case Pending => "چاوەڕوان"
  }

  function VerdictText(v: Verdict): string {
    match v
    case Passed => "دەرچوو"
    case Failed => "نەدەرچوو"
    case NoVerdict => "-"
  }

  /** The three statuses and the three verdicts are told apart in the CSV. */
  lemma LabelsDistinct(s: Status, t: Status, v: Verdict, w: Verdict)
    ensures StatusText(s) == StatusText(t) ==> s == t
    ensures VerdictText(v) == VerdictText(w) ==> v == w
  {
  }

  const DetailedHeader: seq<string> := [
      "ناوی قوتابی", "ساڵی لەدایکبوون", "مامۆستای بابەت",
      "تیم", "گرووپی پرسیار", "بارودۆخ",
      "م١ پ١", "م١ پ٢", "م١ پ٣",
      "م١ پ٤", "م١ پ٥", "م١ پ٦",
      "م١ پ٧", "م١ پ٨", "م١ پ٩",
      "م٢ پ١", "م٢ پ٢", "م٢ پ٣",
      "م٢ پ٤", "م٢ پ٥", "م٢ پ٦",
      "م٢ پ٧", "م٢ پ٨", "م٢ پ٩",
      "ناوەند پ١", "ناوەند پ٢", "ناوەند پ٣",
      "ناوەند پ٤", "ناوەند پ٥", "ناوەند پ٦",
      "ناوەند پ٧", "ناوەند پ٨", "ناوەند پ٩",
      "کۆی پ١-پ٩", "پ١٠", "کۆی گشتی"
    ]

  const SummaryHeader: seq<string> := [
      "ناوی قوتابی", "ساڵی لەدایکبوون", "مامۆستای بابەت", "تیم",
      "گرووپ", "کۆی گشتی", "بارودۆخ", "دەرچوو/نەدەرچوو"
    ]

  /** A header written as a row of text cells. */
  function HeaderRow(h: seq<string>): (row: seq<Cell>)
    ensures |row| == |h| && forall i :: 0 <= i < |h| ==> row[i] == Text(h[i])
  {
    seq(|h|, i requires 0 <= i < |h| => Text(h[i]))
  }

  /** An Eastern Arabic digit, as the Kurdish headers write item numbers. */
  function Digit(d: nat): char
    requires d <= 9
  {
    (0x0660 + d) as char
  }

  /** The detailed header names 36 columns: six about the student, then item
      by item the first grader's marks, the second grader's and their
      averages, then the subtotal, Q10 and the final total. The summary
      header names 8. */
  lemma HeaderLayout()
    ensures |DetailedHeader| == 36 && |SummaryHeader| == 8
    ensures forall c :: 6 <= c < 15 ==> DetailedHeader[c] == DetailedHeader[6][..4] + [Digit(c - 5)]
    ensures forall c :: 15 <= c < 24 ==> DetailedHeader[c] == DetailedHeader[15][..4] + [Digit(c - 14)]
    ensures forall c :: 24 <= c < 33 ==> DetailedHeader[c] == DetailedHeader[24][..8] + [Digit(c - 23)]
    ensures DetailedHeader[6][..4] != DetailedHeader[15][..4]
  {
    assert DetailedHeader[6][1] != DetailedHeader[15][1];
  }

  /** The student's details, the first five columns of both exports. */
  function StudentCells(l: Loaded): (cells: seq<Cell>)
    requires l.Intact()
    ensures |cells| == 5
  {
    [ Text(l.student.value.name),
      IntegerOrBlank(l.student.value.birthYear),
      TextOrBlank(l.student.value.regularTeacher),
      Text(l.team.value.name),
      Text(GroupLabel(l.group.value.code)) ]
  }

  /** One cell per mark, in item order. */
  function MarkCells(m: seq<Option<real>>): (cells: seq<Cell>)
    ensures |cells| == |m|
    ensures forall k :: 0 <= k < |m| ==> cells[k] == MarkCell(m[k])
  {
    seq(|m|, k requires 0 <= k < |m| => MarkCell(m[k]))
  }

  /** The detailed export's row for an intact assignment. */
  function DetailedRowOf(l: Loaded, teachers: map<nat, Teacher>): (row: seq<Cell>)
    requires l.Intact()
    ensures |row| == |DetailedHeader|
  {
    var s1 := SlotGrade(l.grades, teachers, true);
    var s2 := SlotGrade(l.grades, teachers, false);
    var avg := ItemAverages(s1, s2);
    StudentCells(l) + [Text(StatusText(DetailedStatus(l.assignment)))]
      + MarkCells(SlotMarks(s1)) + MarkCells(SlotMarks(s2)) + MarkCells(avg)
      + [PositiveCell(MarkSum(avg)), MarkCell(l.assignment.q10), MarkCell(FinalTotal(MarkSum(avg), l.assignment.q10))]
  }

  /** Each column of a detailed row holds what its header names: the status,
      item k's mark from each slot and their average, the subtotal when
      positive, Q10 when set, and the final total when defined. */
  lemma DetailedRowColumns(l: Loaded, teachers: map<nat, Teacher>)
    requires l.Intact()
    ensures var row := DetailedRowOf(l, teachers);
      var s1 := SlotGrade(l.grades, teachers, true);
      var s2 := SlotGrade(l.grades, teachers, false);
      && row[..5] == StudentCells(l)
      && row[5] == Text(StatusText(DetailedStatus(l.assignment)))
      && (forall c :: 6 <= c < 15 ==> row[c] == MarkCell(MarkOf(s1, c - 6)))
      && (forall c :: 15 <= c < 24 ==> row[c] == MarkCell(MarkOf(s2, c - 15)))
      && (forall c :: 24 <= c < 33 ==> row[c] == MarkCell(Average(MarkOf(s1, c - 24), MarkOf(s2, c - 24))))
      && row[33] == PositiveCell(Subtotal(s1, s2))
      && row[34] == MarkCell(l.assignment.q10)
      && row[35] == MarkCell(FinalTotal(Subtotal(s1, s2), l.assignment.q10))
  {
  }

  /** The summary export's row for an intact assignment. */
  function SummaryRowOf(l: Loaded, teachers: map<nat, Teacher>): (row: seq<Cell>)
    requires l.Intact()
    ensures |row| == |SummaryHeader|
    ensures row[..5] == StudentCells(l)
  {
    var s1 := SlotGrade(l.grades, teachers, true);
    var s2 := SlotGrade(l.grades, teachers, false);
    var final := FinalTotal(Subtotal(s1, s2), l.assignment.q10);
    var decision := SummaryDecision(l.assignment.examIncomplete, final);
    StudentCells(l) + [SummaryFinalCell(final), Text(StatusText(decision.0)), Text(VerdictText(decision.1))]
  }

  /** The loops that append one cell per mark to a row. */
  method AppendMarkCells(row: seq<Cell>, m: seq<Option<real>>) returns (r: seq<Cell>)
    ensures r == row + MarkCells(m)
  {
    r := row;
    var k := 0;
    while k < |m|
      invariant 0 <= k <= |m|
      invariant r == row + MarkCells(m[..k])
    {
      assert MarkCells(m[..k + 1]) == MarkCells(m[..k]) + [MarkCell(m[k])];
      r := r + [MarkCell(m[k])];
      k := k + 1;
    }
    assert m[..|m|] == m;
  }

  /** The body of the detailed export's loop for one row. */
  method DetailedRow(l: Loaded, teachers: map<nat, Teacher>) returns (row: seq<Cell>)
    requires l.Intact()
    ensures row == DetailedRowOf(l, teachers)
  {
    var slot1, slot2 := PickSlots(l.grades, teachers);
    row := StudentCells(l) + [Text(StatusText(DetailedStatus(l.assignment)))];
    row := AppendMarkCells(row, SlotMarks(slot1));
    row := AppendMarkCells(row, SlotMarks(slot2));
    var avg := AverageMarks(slot1, slot2);
    row := AppendMarkCells(row, avg);
    var subtotal := Sum(Present(avg));
    SubtotalCopiesAgree(avg);
    row := row + [PositiveCell(subtotal), MarkCell(l.assignment.q10), MarkCell(FinalTotal(subtotal, l.assignment.q10))];
  }

  /** The body of the summary export's loop for one row. */
  method SummaryRow(l: Loaded, teachers: map<nat, Teacher>) returns (row: seq<Cell>)
    requires l.Intact()
    ensures row == SummaryRowOf(l, teachers)
  {
    var slot1, slot2 := PickSlots(l.grades, teachers);
    var present := PresentAverages(slot1, slot2);
    var subtotal := SummarySubtotal(present);
    SubtotalCopiesAgree(ItemAverages(slot1, slot2));
    var final := FinalTotal(subtotal, l.assignment.q10);
    var decision := SummaryDecision(l.assignment.examIncomplete, final);
    row := StudentCells(l) + [SummaryFinalCell(final), Text(StatusText(decision.0)), Text(VerdictText(decision.1))];
  }

  /** Both exports show the same final total for a row whose Q10 is unset or
      not negative; a final total of exactly 0 (reachable only with a
      negative Q10) is shown by the detailed export but left empty by the
      summary. */
  lemma FinalCellsAgree(l: Loaded, teachers: map<nat, Teacher>)
    requires l.Intact()
    requires l.assignment.q10.Some? ==> l.assignment.q10.value >= 0.0
    ensures DetailedRowOf(l, teachers)[35] == SummaryRowOf(l, teachers)[5]
  {
    var s1 := SlotGrade(l.grades, teachers, true);
    var s2 := SlotGrade(l.grades, teachers, false);
    DetailedRowColumns(l, teachers);
    if FinalTotal(Subtotal(s1, s2), l.assignment.q10).Some? {
      FinalExceedsQ10(Subtotal(s1, s2), l.assignment.q10);
    }
  }

  /** A subtotal of 5 with a Q10 of -5 gives a final total of 0: shown as 0 in
      the detailed export, left empty in the summary. */
  lemma ZeroFinalShownOnlyInDetail()
    ensures FinalTotal(5.0, Some(-5.0)) == Some(0.0)
    ensures MarkCell(FinalTotal(5.0, Some(-5.0))) == Number(0.0)
    ensures SummaryFinalCell(FinalTotal(5.0, Some(-5.0))) == Blank
  {
  }

  // ----- the two exports -----

  /** A queried row the detailed export cannot print: its student, team or
      rubric is gone, and reading its name fails. */
  predicate DetailedFails(rows: seq<Loaded>) {
    exists i :: 0 <= i < |rows| && !rows[i].Intact()
  }

  /** `export_to_csv_detailed`: the header, then one row per queried
      assignment; a row whose student, team or rubric is gone aborts the
      export with a server error. */
  method ExportDetailed(rows: seq<Loaded>, teachers: map<nat, Teacher>, sessionId: Option<nat>)
    returns (r: Result<seq<seq<Cell>>>)
    ensures var assignments := Query(rows, None, None, sessionId);
      && (r.Err? <==> DetailedFails(assignments))
      && (r.Err? ==> r.error == ServerError)
      && (r.Ok? ==>
            && |r.value| == |assignments| + 1
            && r.value[0] == HeaderRow(DetailedHeader)
            && forall j :: 0 <= j < |assignments| ==>
                 assignments[j].Intact() && r.value[j + 1] == DetailedRowOf(assignments[j], teachers))
  {
    var assignments := Query(rows, None, None, sessionId);
    var out := [HeaderRow(DetailedHeader)];
    var i := 0;
    while i < |assignments|
      invariant 0 <= i <= |assignments| && |out| == i + 1 && out[0] == HeaderRow(DetailedHeader)
      invariant forall j :: 0 <= j < i ==>
        assignments[j].Intact() && out[j + 1] == DetailedRowOf(assignments[j], teachers)
    {
      var l := assignments[i];
      if !l.Intact() {
        return Err(ServerError);
      }
      var row := DetailedRow(l, teachers);
      out := out + [row];
      i := i + 1;
    }
    r := Ok(out);
  }

  /** The summary export's pass over the queried assignments: a row without
      a student is skipped, and one whose team or rubric is gone fails. */
  method KeptRows(assignments: seq<Loaded>) returns (r: Result<seq<Loaded>>)
    ensures r.Err? <==> SummaryFails(assignments)
    ensures r.Err? ==> r.error == ServerError
    ensures r.Ok? ==> r.value == WithStudent(assignments) && forall j :: 0 <= j < |r.value| ==> r.value[j].Intact()
  {
    var kept: seq<Loaded> := [];
    var i := 0;
    while i < |assignments|
      invariant 0 <= i <= |assignments|
      invariant forall j :: 0 <= j < i ==> assignments[j].student.Some? ==> assignments[j].Intact()
      invariant kept == WithStudent(assignments[..i])
      invariant forall j :: 0 <= j < |kept| ==> kept[j].Intact()
    {
      WithStudentStep(assignments, i);
      var l := assignments[i];
      if l.student.Some? {
        if !l.Intact() {
          return Err(ServerError);
        }
        kept := kept + [l];
      }
      i := i + 1;
    }
    assert assignments[..|assignments|] == assignments;
    r := Ok(kept);
  }

  /** The summary export's rows: the header, then one row per kept assignment.
      Rows are formatted once the queried assignments are filtered; as an
      error discards whatever was written, this gives the same response. */
  method SummaryRows(kept: seq<Loaded>, teachers: map<nat, Teacher>) returns (out: seq<seq<Cell>>)
    requires forall j :: 0 <= j < |kept| ==> kept[j].Intact()
    ensures |out| == |kept| + 1 && out[0] == HeaderRow(SummaryHeader)
    ensures forall j :: 0 <= j < |kept| ==> out[j + 1] == SummaryRowOf(kept[j], teachers)
  {
    out := [HeaderRow(SummaryHeader)];
    var i := 0;
    while i < |kept|
      invariant 0 <= i <= |kept| && |out| == i + 1 && out[0] == HeaderRow(SummaryHeader)
      invariant forall j :: 0 <= j < i ==> out[j + 1] == SummaryRowOf(kept[j], teachers)
    {
      var row := SummaryRow(kept[i], teachers);
      out := out + [row];
      i := i + 1;
    }
  }

  /** A queried row the summary export cannot print: its student exists (rows
      without one are skipped) but its team or rubric is gone. */
  predicate SummaryFails(rows: seq<Loaded>) {
    exists i :: 0 <= i < |rows| && rows[i].student.Some? && !rows[i].Intact()
  }

  /** `export_to_csv_summary`: the header, then one row per queried assignment
      whose student exists; a row whose team or rubric is gone aborts the
      export with a server error. */
  method ExportSummary(rows: seq<Loaded>, teachers: map<nat, Teacher>, sessionId: Option<nat>)
    returns (r: Result<seq<seq<Cell>>>)
    ensures var assignments := Query(rows, None, None, sessionId);
      var kept := WithStudent(assignments);
      && (r.Err? <==> SummaryFails(assignments))
      && (r.Err? ==> r.error == ServerError)
      && (r.Ok? ==>
            && |r.value| == |kept| + 1
            && r.value[0] == HeaderRow(SummaryHeader)
            && forall j :: 0 <= j < |kept| ==> kept[j].Intact() && r.value[j + 1] == SummaryRowOf(kept[j], teachers))
  {
    var assignments := Query(rows, None, None, sessionId);
    var kept := KeptRows(assignments);
    if kept.Err? {
      return Err(kept.error);
    }
    var out := SummaryRows(kept.value, teachers);
    r := Ok(out);
  }

  // ----- overall counts -----

  predicate IsCompleted(a: Assignment) { a.completed }
  predicate AwaitsFirstGrader(a: Assignment) { !a.gradedT1 }
  predicate AwaitsSecondGrader(a: Assignment) { !a.gradedT2 }
  predicate AwaitsQ10(a: Assignment) { a.q10.None? }

  /** `len([a for a in s if p(a)])`. */
  function Count(s: seq<Assignment>, p: Assignment -> bool): (n: nat)
    ensures n <= |s|
  {
    if s == [] then 0 else Count(s[..|s| - 1], p) + (if p(s[|s| - 1]) then 1 else 0)
  }

  /** Two conditions no assignment meets together are counted at most |s| times. */
  lemma {:induction false} CountDisjoint(s: seq<Assignment>, p: Assignment -> bool, q: Assignment -> bool)
    requires forall i :: 0 <= i < |s| ==> !(p(s[i]) && q(s[i]))
    ensures Count(s, p) + Count(s, q) <= |s|
  {
    if s != [] {
      CountDisjoint(s[..|s| - 1], p, q);
    }
  }

  /** The assignments of a session (or all of them), in table order. */
  function InSession(s: seq<Assignment>, sessionId: Option<nat>): (r: seq<Assignment>)
    ensures |r| <= |s|
    ensures forall i :: 0 <= i < |r| ==> Truthy(sessionId) ==> r[i].sessionId == sessionId
  {
    if s == [] then []
    else
      var n := |s| - 1;
      InSession(s[..n], sessionId) + (if !Truthy(sessionId) || s[n].sessionId == sessionId then [s[n]] else [])
  }

  /** An assignment is counted exactly when it is in the table and, with a
      session filter, in that session. */
  lemma {:induction false} InSessionMembers(s: seq<Assignment>, sessionId: Option<nat>)
    ensures forall a :: a in InSession(s, sessionId) <==> a in s && (Truthy(sessionId) ==> a.sessionId == sessionId)
  {
    if s != [] {
      var n := |s| - 1;
      InSessionMembers(s[..n], sessionId);
      assert s == s[..n] + [s[n]];
    }
  }

  lemma {:induction false} InSessionWithin(s: seq<Assignment>, sessionId: Option<nat>)
    ensures forall a :: a in InSession(s, sessionId) ==> a in s
  {
    if s != [] {
      InSessionWithin(s[..|s| - 1], sessionId);
      assert forall a :: a in s[..|s| - 1] ==> a in s;
    }
  }

  /** The assignments of one team, in order. */
  function OfTeam(s: seq<Assignment>, teamId: nat): (r: seq<Assignment>)
    ensures |r| <= |s|
    ensures forall i :: 0 <= i < |r| ==> r[i].teamId == teamId
  {
    if s == [] then []
    else
      var n := |s| - 1;
      OfTeam(s[..n], teamId) + (if s[n].teamId == teamId then [s[n]] else [])
  }

  /** An assignment is counted for a team exactly when it belongs to it. */
  lemma {:induction false} OfTeamMembers(s: seq<Assignment>, teamId: nat)
    ensures forall a :: a in OfTeam(s, teamId) <==> a in s && a.teamId == teamId
  {
    if s != [] {
      var n := |s| - 1;
      OfTeamMembers(s[..n], teamId);
      assert s == s[..n] + [s[n]];
    }
  }

  datatype TeamCount = TeamCount(teamId: nat, teamName: string, total: nat, completed: nat)

  datatype Overview = Overview(
    total: nat, completed: nat, pending: int,
    pendingFirstGrader: nat, pendingSecondGrader: nat, pendingQ10: nat,
    teams: seq<TeamCount>)

  /** `get_summary`: the counts over the session's assignments and a
      breakdown per team, in team order. */
  method Summary(assignments: seq<Assignment>, teams: seq<Team>, sessionId: Option<nat>) returns (o: Overview)
    ensures var s := InSession(assignments, sessionId);
      && o.total == |s|
      && o.completed == Count(s, IsCompleted)
      && o.pendingFirstGrader == Count(s, AwaitsFirstGrader)
      && o.pendingSecondGrader == Count(s, AwaitsSecondGrader)
      && o.pendingQ10 == Count(s, AwaitsQ10)
      && |o.teams| == |teams|
      && forall i :: 0 <= i < |teams| ==>
           o.teams[i] == TeamCount(teams[i].id, teams[i].name, |OfTeam(s, teams[i].id)|,
                                   Count(OfTeam(s, teams[i].id), IsCompleted))
    ensures 0 <= o.pending == o.total - o.completed
    ensures (forall a :: a in assignments ==> a.Consistent()) ==> o.completed + o.pendingQ10 <= o.total
    ensures forall i :: 0 <= i < |o.teams| ==> o.teams[i].completed <= o.teams[i].total <= o.total
  {
    var s := InSession(assignments, sessionId);
    var total := |s|;
    var completed := Count(s, IsCompleted);
    var pendingQ10 := Count(s, AwaitsQ10);
    if forall a :: a in assignments ==> a.Consistent() {
      InSessionWithin(assignments, sessionId);
      forall i | 0 <= i < |s|
        ensures !(IsCompleted(s[i]) && AwaitsQ10(s[i]))
      {
        assert s[i] in s;
        assert s[i].Consistent();
      }
      CountDisjoint(s, IsCompleted, AwaitsQ10);
    }
    var breakdown := [];
    var i := 0;
    while i < |teams|
      invariant 0 <= i <= |teams| && |breakdown| == i
      invariant forall j :: 0 <= j < i ==>
        breakdown[j] == TeamCount(teams[j].id, teams[j].name, |OfTeam(s, teams[j].id)|,
                                  Count(OfTeam(s, teams[j].id), IsCompleted))
    {
      var ofTeam := OfTeam(s, teams[i].id);
      breakdown := breakdown + [TeamCount(teams[i].id, teams[i].name, |ofTeam|, Count(ofTeam, IsCompleted))];
      i := i + 1;
    }
    o := Overview(total, completed, total - completed,
                  Count(s, AwaitsFirstGrader), Count(s, AwaitsSecondGrader), pendingQ10, breakdown);
  }

  // ----- graders' statistics -----

  /** The time a grading took, in minutes, when both ends were recorded (the
      clock counts seconds). */
  function Minutes(g: Grade): (m: Option<real>)
    ensures m.Some? <==> g.startedAt.Some? && g.finishedAt.Some?
  {
    if g.startedAt.Some? && g.finishedAt.Some? then
      Some((g.finishedAt.value as real - g.startedAt.value as real) / 60.0)
    else None
  }

  /** Times outside (0, 120) minutes are dropped as unrealistic. */
  predicate Realistic(minutes: real) {
    0.0 < minutes < 120.0
  }

  /** The realistic grading times of the grades, in order. */
  function GradingTimes(gs: seq<Grade>): (r: seq<real>)
    ensures |r| <= |gs|
    ensures forall i :: 0 <= i < |r| ==> Realistic(r[i])
  {
    if gs == [] then []
    else
      var n := |gs| - 1;
      var m := Minutes(gs[n]);
      GradingTimes(gs[..n]) + (if m.Some? && Realistic(m.value) then [m.value] else [])
  }

  /** A time is averaged exactly when it is realistic and some grade took it. */
  lemma {:induction false} GradingTimesMembers(gs: seq<Grade>)
    ensures forall m :: m in GradingTimes(gs) <==> Realistic(m) && exists g :: g in gs && Minutes(g) == Some(m)
  {
    if gs != [] {
      var n := |gs| - 1;
      GradingTimesMembers(gs[..n]);
      assert gs == gs[..n] + [gs[n]];
    }
  }

  /** The grades with a stored total. */
  function GradedCount(gs: seq<Grade>): (n: nat)
    ensures n <= |gs|
  {
    if gs == [] then 0 else GradedCount(gs[..|gs| - 1]) + (if gs[|gs| - 1].total.Some? then 1 else 0)
  }

  function Mean(xs: seq<real>): Option<real> {
    if xs == [] then None else Some(Sum(xs) / |xs| as real)
  }

  lemma {:induction false} RealisticSum(xs: seq<real>)
    requires forall i :: 0 <= i < |xs| ==> Realistic(xs[i])
    ensures xs != [] ==> 0.0 < Sum(xs) < 120.0 * |xs| as real
  {
    if xs != [] {
      var n := |xs| - 1;
      RealisticSum(xs[..n]);
      assert Realistic(xs[n]);
    }
  }

  /** The mean of realistic times is itself realistic. */
  lemma MeanOfRealisticTimes(xs: seq<real>)
    requires forall i :: 0 <= i < |xs| ==> Realistic(xs[i])
    ensures Mean(xs).Some? <==> xs != []
    ensures Mean(xs).Some? ==> Realistic(Mean(xs).value)
  {
    if xs != [] {
      RealisticSum(xs);
      var n := |xs| as real;
      var m := Sum(xs) / n;
      assert m * n == Sum(xs);
    }
  }

  /** The loop over one grader's grades: how many have a total, and the mean
      of the realistic grading times. */
  method GradingStats(gs: seq<Grade>) returns (graded: nat, average: Option<real>)
    ensures graded == GradedCount(gs) && graded <= |gs|
    ensures average == Mean(GradingTimes(gs))
    ensures average.Some? ==> Realistic(average.value)
  {
    var times: seq<real> := [];
    var i := 0;
    while i < |gs|
      invariant 0 <= i <= |gs|
      invariant times == GradingTimes(gs[..i])
    {
      assert gs[..i + 1][..i] == gs[..i];
      var g := gs[i];
      if g.startedAt.Some? && g.finishedAt.Some? {
        var duration := (g.finishedAt.value as real - g.startedAt.value as real) / 60.0;
        if duration > 0.0 && duration < 120.0 {
          times := times + [duration];
        }
      }
      i := i + 1;
    }
    assert gs[..|gs|] == gs;
    MeanOfRealisticTimes(times);
    average := if times == [] then None else Some(Sum(times) / |times| as real);
    graded := GradedCount(gs);
  }

  /** A grade row a grader's statistics count: one of that teacher's, and with a
      session filter one whose assignment is in that session (the join drops
      grades whose assignment no longer exists). */
  predicate Counted(key: GradeKey, assignments: map<nat, Assignment>, teacherId: nat, sessionId: Option<nat>) {
    && key.teacherId == teacherId
    && (Truthy(sessionId) ==> key.assignmentId in assignments && assignments[key.assignmentId].sessionId == sessionId)
  }

  /** The grades a grader's statistics count, in row order. */
  function GradesOf(rows: seq<(GradeKey, Grade)>, assignments: map<nat, Assignment>, teacherId: nat,
                    sessionId: Option<nat>): (r: seq<Grade>)
    ensures |r| <= |rows|
  {
    if rows == [] then []
    else
      var n := |rows| - 1;
      GradesOf(rows[..n], assignments, teacherId, sessionId)
        + (if Counted(rows[n].0, assignments, teacherId, sessionId) then [rows[n].1] else [])
  }

  /** A grade is counted exactly when some row holds it whose key the
      statistics count. */
  lemma {:induction false} GradesOfMembers(rows: seq<(GradeKey, Grade)>, assignments: map<nat, Assignment>,
                                           teacherId: nat, sessionId: Option<nat>)
    ensures forall g :: g in GradesOf(rows, assignments, teacherId, sessionId) <==>
      exists p :: p in rows && Counted(p.0, assignments, teacherId, sessionId) && p.1 == g
  {
    if rows != [] {
      var n := |rows| - 1;
      GradesOfMembers(rows[..n], assignments, teacherId, sessionId);
      assert rows == rows[..n] + [rows[n]];
    }
  }

  /** The team with that id, if it still exists. */
  function FindTeam(teams: seq<Team>, id: nat): (t: Option<Team>)
    ensures t.Some? <==> HasTeam(teams, id)
    ensures t.Some? ==> t.value.id == id && t.value in teams
  {
    if teams == [] then None
    else if teams[0].id == id then Some(teams[0])
    else
      var t := FindTeam(teams[1..], id);
      assert HasTeam(teams, id) ==> HasTeam(teams[1..], id) by {
        if HasTeam(teams, id) {
          var i :| 0 <= i < |teams| && teams[i].id == id;
          assert teams[1..][i - 1].id == id;
        }
      }
      assert HasTeam(teams[1..], id) ==> HasTeam(teams, id) by {
        if HasTeam(teams[1..], id) {
          var i :| 0 <= i < |teams[1..]| && teams[1..][i].id == id;
          assert teams[i + 1].id == id;
        }
      }
      t
  }

  datatype TeacherStat = TeacherStat(
    teacherId: nat, teacherName: string, teamName: string, graded: nat, averageMinutes: Option<real>)

  /** `s` is the statistics line of the teacher `t` (with its id). */
  predicate IsStatOf(s: TeacherStat, t: (nat, Teacher), teams: seq<Team>, rows: seq<(GradeKey, Grade)>,
                     assignments: map<nat, Assignment>, sessionId: Option<nat>) {
    var gs := GradesOf(rows, assignments, t.0, sessionId);
    && FindTeam(teams, t.1.teamId).Some?
    && s == TeacherStat(t.0, t.1.name, FindTeam(teams, t.1.teamId).value.name,
                        GradedCount(gs), Mean(GradingTimes(gs)))
  }

  /** A statistics line counts the teacher's grades in the session and
      averages only realistic times, so its average is itself realistic. */
  lemma StatAverageRealistic(s: TeacherStat, t: (nat, Teacher), teams: seq<Team>, rows: seq<(GradeKey, Grade)>,
                             assignments: map<nat, Assignment>, sessionId: Option<nat>)
    requires IsStatOf(s, t, teams, rows, assignments, sessionId)
    ensures s.graded <= |GradesOf(rows, assignments, t.0, sessionId)|
    ensures s.averageMinutes.Some? ==> Realistic(s.averageMinutes.value)
  {
    MeanOfRealisticTimes(GradingTimes(GradesOf(rows, assignments, t.0, sessionId)));
  }

  /** The loop body of `get_teacher_statistics` for one grader: nothing when
      the teacher's team is gone (reading its name then fails). */
  method StatOf(t: (nat, Teacher), teams: seq<Team>, rows: seq<(GradeKey, Grade)>,
                assignments: map<nat, Assignment>, sessionId: Option<nat>)
    returns (s: Option<TeacherStat>)
    ensures s.None? <==> !HasTeam(teams, t.1.teamId)
    ensures s.Some? ==> IsStatOf(s.value, t, teams, rows, assignments, sessionId)
  {
    var (id, teacher) := t;
    var gs := GradesOf(rows, assignments, id, sessionId);
    var graded, average := GradingStats(gs);
    var team := FindTeam(teams, teacher.teamId);
    if team.None? {
      return None;
    }
    s := Some(TeacherStat(id, teacher.name, team.value.name, graded, average));
  }

  /** `get_teacher_statistics`: one line per grader, in the order listed; a
      grader whose team is gone makes the whole request fail. */
  method TeacherStatistics(teachers: seq<(nat, Teacher)>, teams: seq<Team>, rows: seq<(GradeKey, Grade)>,
                           assignments: map<nat, Assignment>, sessionId: Option<nat>)
    returns (r: Result<seq<TeacherStat>>)
    ensures r.Ok? <==> forall i :: 0 <= i < |teachers| ==> HasTeam(teams, teachers[i].1.teamId)
    ensures r.Err? ==> r.error == ServerError
    ensures r.Ok? ==>
      && |r.value| == |teachers|
      && forall i :: 0 <= i < |teachers| ==> IsStatOf(r.value[i], teachers[i], teams, rows, assignments, sessionId)
  {
    var stats: seq<TeacherStat> := [];
    var i := 0;
    while i < |teachers|
      invariant 0 <= i <= |teachers| && |stats| == i
      invariant forall j :: 0 <= j < i ==> IsStatOf(stats[j], teachers[j], teams, rows, assignments, sessionId)
    {
      var s := StatOf(teachers[i], teams, rows, assignments, sessionId);
      if s.None? {
        return Err(ServerError);
      }
      stats := stats + [s.value];
      i := i + 1;
    }
    r := Ok(stats);
  }
}
