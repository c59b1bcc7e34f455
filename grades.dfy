/** Grade entry: a grader starts grading, submits marks (creating or updating
    the one record per assignment and grader), or corrects a stored record. */
module Grades {
  import opened Common
  import opened Models

  /** The error raised for the item at index k (item k + 1) of a submission: a
      provided mark must be at least 0 and at most the rubric's maximum, a
      missing rubric key counting as maximum 0. The negative check comes first. */
  function ItemError(marks: ItemMarks, k: nat, ms: Structure): (e: Option<Error>)
    requires k < ItemCount
    ensures e.None? <==> marks[k].None? || 0.0 <= marks[k].value <= Get(ms, ItemKey(k + 1), 0) as real
    ensures e.Some? && marks[k].value < 0.0 ==> e.value == NegativeMark(k + 1)
    ensures e.Some? && marks[k].value >= 0.0 ==> e.value == AboveMaximum(k + 1, Get(ms, ItemKey(k + 1), 0))
  {
    var m := marks[k];
    if m.None? then None
    else if m.value < 0.0 then Some(NegativeMark(k + 1))
    else if m.value > Get(ms, ItemKey(k + 1), 0) as real then Some(AboveMaximum(k + 1, Get(ms, ItemKey(k + 1), 0)))
    else None
  }

  /** Every provided mark lies within its item's bounds. */
  predicate Acceptable(marks: ItemMarks, ms: Structure) {
    forall k :: 0 <= k < ItemCount ==> ItemError(marks, k, ms).None?
  }

  /** The error of the first failing item at index k or later, in item order. */
  function FirstErrorFrom(marks: ItemMarks, ms: Structure, k: nat): (e: Option<Error>)
    requires k <= ItemCount
    ensures e.None? <==> forall j :: k <= j < ItemCount ==> ItemError(marks, j, ms).None?
    ensures e.Some? ==>
      exists j :: k <= j < ItemCount && e == ItemError(marks, j, ms) &&
        forall i :: k <= i < j ==> ItemError(marks, i, ms).None?
    decreases ItemCount - k
  {
    if k == ItemCount then None
    else if ItemError(marks, k, ms).Some? then ItemError(marks, k, ms)
    else FirstErrorFrom(marks, ms, k + 1)
  }

  /** The error a submission is refused with: that of its first failing item,
      none when every item is within bounds. */
  function FirstError(marks: ItemMarks, ms: Structure): (e: Option<Error>)
    ensures e.None? <==> Acceptable(marks, ms)
    ensures e.Some? ==>
      exists k :: 0 <= k < ItemCount && e == ItemError(marks, k, ms) &&
        forall j :: 0 <= j < k ==> ItemError(marks, j, ms).None?
  {
    FirstErrorFrom(marks, ms, 0)
  }

  /** The validation loop: all nine checks run before anything is written, and
      the first failing item (in item order) is the one reported. */
  method ValidateMarks(marks: ItemMarks, ms: Structure) returns (err: Option<Error>)
    ensures err == FirstError(marks, ms)
    ensures err.None? <==> Acceptable(marks, ms)
  {
    var i := 0;
    while i < ItemCount
      invariant 0 <= i <= ItemCount
      invariant FirstErrorFrom(marks, ms, i) == FirstError(marks, ms)
    {
      err := ItemError(marks, i, ms);
      if err.Some? {
        return;
      }
      i := i + 1;
    }
    err := None;
  }

  /** The stored marks after a partial update: provided items overwrite, omitted
      items keep their stored mark. */
  function Merge(stored: ItemMarks, provided: ItemMarks): ItemMarks {
    seq(ItemCount, i requires 0 <= i < ItemCount => if provided[i].Some? then provided[i] else stored[i])
  }

  /** A partial update changes exactly the provided items. */
  lemma MergeKeepsOmitted(stored: ItemMarks, provided: ItemMarks, i: nat)
    requires i < ItemCount
    ensures provided[i].Some? ==> Merge(stored, provided)[i] == provided[i]
    ensures provided[i].None? ==> Merge(stored, provided)[i] == stored[i]
  {
  }

  /** Resubmitting the same marks changes nothing more; a first submission
      stores exactly the provided marks. */
  lemma MergeIdempotent(stored: ItemMarks, provided: ItemMarks)
    ensures Merge(Merge(stored, provided), provided) == Merge(stored, provided)
    ensures Merge(NoMarks, provided) == provided
  {
  }

  /** The attribute-by-attribute overwrite loop. */
  method OverwriteProvided(stored: ItemMarks, provided: ItemMarks) returns (r: ItemMarks)
    ensures r == Merge(stored, provided)
  {
    r := stored;
    var i := 0;
    while i < ItemCount
      invariant 0 <= i <= ItemCount
      invariant forall j :: 0 <= j < i ==> r[j] == Merge(stored, provided)[j]
      invariant forall j :: i <= j < ItemCount ==> r[j] == stored[j]
    {
      if provided[i].Some? {
        r := r[i := provided[i]];
      }
      i := i + 1;
    }
  }

  /** Marks within bounds are never negative, so merging them keeps a record's marks non-negative. */
  lemma {:induction false} MergeNonNegative(stored: ItemMarks, provided: ItemMarks, ms: Structure)
    requires NonNegative(stored) && Acceptable(provided, ms)
    ensures NonNegative(Merge(stored, provided))
  {
    forall i | 0 <= i < ItemCount && Merge(stored, provided)[i].Some?
      ensures Merge(stored, provided)[i].value >= 0.0
    {
      if provided[i].Some? {
        assert ItemError(provided, i, ms).None?;
      }
    }
  }

  /** The record `start_grading` leaves behind. An existing start time is kept,
      a missing one is set once, and a new record holds only a start time. */
  function StartRecord(existing: Option<Grade>, now: nat): (g: Grade)
    ensures g.startedAt.Some?
    ensures existing.Some? && existing.value.startedAt.Some? ==> g == existing.value
    ensures existing.Some? ==> g == existing.value.(startedAt := g.startedAt)
    ensures existing.Some? && existing.value.startedAt.None? ==> g.startedAt == Some(now)
    ensures existing.None? ==> g == Grade(NoMarks, None, Some(now), None)
  {
    match existing
    case Some(e) => if e.startedAt.Some? then e else e.(startedAt := Some(now))
    case None => Grade(NoMarks, None, Some(now), None)
  }

  /** Starting twice yields the first start time: the second call changes nothing. */
  lemma StartIdempotent(existing: Option<Grade>, first: nat, second: nat)
    ensures StartRecord(Some(StartRecord(existing, first)), second) == StartRecord(existing, first)
  {
  }

  function Lookup(grades: map<GradeKey, Grade>, key: GradeKey): Option<Grade> {
    if key in grades then Some(grades[key]) else None
  }

  method StartGrading(db: Store, key: GradeKey, now: nat) returns (startedAt: nat)
    requires db.Valid()
    modifies db`grades
    ensures db.Valid()
    ensures db.grades == old(db.grades)[key := StartRecord(Lookup(old(db.grades), key), now)]
    ensures Some(startedAt) == db.grades[key].startedAt
  {
    var g := StartRecord(Lookup(db.grades, key), now);
    db.grades := db.grades[key := g];
    startedAt := g.startedAt.value;
  }

  /** What a submission resolves before validating: the assignment, the teacher
      and the rubric, with the endpoint's errors in the order it raises them. */
  datatype Target = Target(assignment: Assignment, teacher: Teacher, structure: Structure)

  function SubmissionTarget(
    assignments: map<nat, Assignment>, teachers: map<nat, Teacher>,
    groups: map<nat, QuestionGroup>, aid: nat, tid: nat): (r: Result<Target>)
    ensures aid !in assignments ==> r == Err(NotFound(AssignmentRow))
    ensures aid in assignments && tid !in teachers ==> r == Err(NotFound(TeacherRow))
    ensures aid in assignments && tid in teachers && teachers[tid].teamId != assignments[aid].teamId
      ==> r == Err(WrongTeam)
    ensures r.Ok? <==>
      aid in assignments && tid in teachers && teachers[tid].teamId == assignments[aid].teamId &&
      assignments[aid].groupId in groups
    ensures r.Ok? ==> r.value == Target(assignments[aid], teachers[tid], groups[assignments[aid].groupId].structure)
    ensures r.Err? ==> r.error in {NotFound(AssignmentRow), NotFound(TeacherRow), WrongTeam, ServerError}
  {
    if aid !in assignments then Err(NotFound(AssignmentRow))
    else if tid !in teachers then Err(NotFound(TeacherRow))
    else if teachers[tid].teamId != assignments[aid].teamId then Err(WrongTeam)
    else if assignments[aid].groupId !in groups then Err(ServerError)
    else Ok(Target(assignments[aid], teachers[tid], groups[assignments[aid].groupId].structure))
  }

  /** The record after an accepted submission: the merged marks, their total
      (unset marks counting 0) and the finish time; a new record also starts now. */
  function Submitted(existing: Option<Grade>, provided: ItemMarks, now: nat): (g: Grade)
    ensures g.marks == Merge(if existing.Some? then existing.value.marks else NoMarks, provided)
    ensures g.total == Some(MarkSum(g.marks))
    ensures g.finishedAt == Some(now)
    ensures g.startedAt == if existing.Some? then existing.value.startedAt else Some(now)
  {
    match existing
    case Some(e) =>
      var merged := Merge(e.marks, provided);
      e.(marks := merged, total := Some(MarkSum(merged)), finishedAt := Some(now))
    case None =>
      MergeIdempotent(NoMarks, provided);
      Grade(provided, Some(MarkSum(provided)), Some(now), Some(now))
  }

  /** The assignment after a grader at `position` submits: position 1 sets the
      first flag, every other position the second; completion is set once both
      flags and Q10 are present and is never cleared here. */
  function AfterSubmission(a: Assignment, position: int): (r: Assignment)
    ensures r == a.(gradedT1 := r.gradedT1, gradedT2 := r.gradedT2, completed := r.completed)
    ensures position == 1 ==> r.gradedT1 && r.gradedT2 == a.gradedT2
    ensures position != 1 ==> r.gradedT2 && r.gradedT1 == a.gradedT1
    ensures r.completed <==> a.completed || (r.gradedT1 && r.gradedT2 && a.q10.Some?)
    ensures a.Consistent() ==> r.Consistent()
  {
    var flagged := if position == 1 then a.(gradedT1 := true) else a.(gradedT2 := true);
    if flagged.gradedT1 && flagged.gradedT2 && flagged.q10.Some? then flagged.(completed := true)
    else flagged
  }

  /** Submitting twice from the same position leaves the assignment as one submission does. */
  lemma SubmissionFlagsIdempotent(a: Assignment, position: int)
    ensures AfterSubmission(AfterSubmission(a, position), position) == AfterSubmission(a, position)
  {
  }

  /** The write half of a submission: the record under `key` becomes the
      merged marks with their total and the finish time. */
  method StoreSubmission(db: Store, key: GradeKey, provided: ItemMarks, now: nat, ms: Structure) returns (g: Grade)
    requires db.Valid() && Acceptable(provided, ms)
    modifies db`grades
    ensures db.Valid()
    ensures g == Submitted(Lookup(old(db.grades), key), provided, now)
    ensures db.grades == old(db.grades)[key := g]
  {
    if key in db.grades {
      var existing := db.grades[key];
      var merged := OverwriteProvided(existing.marks, provided);
      g := existing.(marks := merged, total := Some(MarkSum(merged)), finishedAt := Some(now));
      MergeNonNegative(existing.marks, provided, ms);
    } else {
      g := Grade(provided, Some(MarkSum(provided)), Some(now), Some(now));
      MergeIdempotent(NoMarks, provided);
      MergeNonNegative(NoMarks, provided, ms);
    }
    db.grades := db.grades[key := g];
  }

  /** `create_or_update_grade`. */
  method SubmitGrade(db: Store, aid: nat, tid: nat, provided: ItemMarks, now: nat) returns (r: Result<Grade>)
    requires db.Valid()
    modifies db`grades, db`assignments
    ensures db.Valid()
    ensures Q10Kept(old(db.assignments), db.assignments)
    ensures r.Err? ==> db.grades == old(db.grades) && db.assignments == old(db.assignments)
    ensures var t := SubmissionTarget(old(db.assignments), db.teachers, db.groups, aid, tid);
      && (t.Err? ==> r == Err(t.error))
      && (t.Ok? ==> (r.Ok? <==> Acceptable(provided, t.value.structure)))
      && (t.Ok? && r.Err? ==> Some(r.error) == FirstError(provided, t.value.structure))
      && (r.Ok? ==>
            && r.value == Submitted(Lookup(old(db.grades), GradeKey(aid, tid)), provided, now)
            && db.grades == old(db.grades)[GradeKey(aid, tid) := r.value]
            && db.assignments == old(db.assignments)[aid := AfterSubmission(t.value.assignment, t.value.teacher.position)])
  {
    var t := SubmissionTarget(db.assignments, db.teachers, db.groups, aid, tid);
    if t.Err? {
      return Err(t.error);
    }
    var err := ValidateMarks(provided, t.value.structure);
    if err.Some? {
      return Err(err.value);
    }
    var g := StoreSubmission(db, GradeKey(aid, tid), provided, now, t.value.structure);
    db.assignments := db.assignments[aid := AfterSubmission(t.value.assignment, t.value.teacher.position)];
    r := Ok(g);
  }

  /** The assignment of the record under `key` exists and so does its rubric. */
  predicate HasRubric(db: Store, key: GradeKey)
    reads db
  {
    key.assignmentId in db.assignments && db.assignments[key.assignmentId].groupId in db.groups
  }

  /** `update_grade`: a correction of a stored record by its key. It validates and
      recomputes the total like a submission but leaves the finish time and the
      assignment's flags alone. A grade whose assignment or rubric no longer
      exists makes the endpoint fail with an unhandled error. */
  method UpdateGrade(db: Store, key: GradeKey, provided: ItemMarks) returns (r: Result<Grade>)
    requires db.Valid()
    modifies db`grades
    ensures db.Valid()
    ensures r.Err? ==> db.grades == old(db.grades)
    ensures key !in old(db.grades) ==> r == Err(NotFound(GradeRow))
    ensures key in old(db.grades) && key.assignmentId !in db.assignments ==> r == Err(ServerError)
    ensures key in old(db.grades) && key.assignmentId in db.assignments && !HasRubric(db, key) ==> r == Err(ServerError)
    ensures key in old(db.grades) && HasRubric(db, key) ==>
      var e := FirstError(provided, db.groups[db.assignments[key.assignmentId].groupId].structure);
      && (e.Some? ==> r == Err(e.value))
      && (r.Ok? <==> e.None?)
    ensures r.Ok? ==>
      && key in old(db.grades) && key.assignmentId in db.assignments
      && db.assignments[key.assignmentId].groupId in db.groups
      && Acceptable(provided, db.groups[db.assignments[key.assignmentId].groupId].structure)
      && r.value == old(db.grades)[key].(marks := Merge(old(db.grades)[key].marks, provided),
                                         total := Some(MarkSum(Merge(old(db.grades)[key].marks, provided))))
      && db.grades == old(db.grades)[key := r.value]
  {
    if key !in db.grades {
      return Err(NotFound(GradeRow));
    }
    if key.assignmentId !in db.assignments || db.assignments[key.assignmentId].groupId !in db.groups {
      return Err(ServerError);
    }
    var ms := db.groups[db.assignments[key.assignmentId].groupId].structure;
    var err := ValidateMarks(provided, ms);
    if err.Some? {
      return Err(err.value);
    }
    var stored := db.grades[key];
    var merged := OverwriteProvided(stored.marks, provided);
    MergeNonNegative(stored.marks, provided, ms);
    var g := stored.(marks := merged, total := Some(MarkSum(merged)));
    db.grades := db.grades[key := g];
    r := Ok(g);
  }
}
