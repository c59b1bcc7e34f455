/** The assignment lifecycle: creation, the supervisor's Q10 entry, team and
    rubric reassignment, deletion, the unfinished-exam toggle and the bulk Q10
    copy from the roster. */
module Assignments {
  import opened Common
  import opened Models

  /** The accepted range of the Q10 bonus mark. */
  predicate ValidQ10(v: real) {
    0.0 <= v <= 10.0
  }

  /** The assignment after a Q10 is stored: completion is set if both graders
      have submitted and otherwise left as it was. */
  function WithQ10(a: Assignment, v: real): (r: Assignment)
    ensures r == a.(q10 := Some(v), completed := r.completed)
    ensures r.completed <==> a.completed || (a.gradedT1 && a.gradedT2)
    ensures r.Consistent()
  {
    a.(q10 := Some(v), completed := a.completed || (a.gradedT1 && a.gradedT2))
  }

  /** A duplicate: the student already has an assignment in that exam session
      (two assignments without a session also collide). */
  predicate AlreadyInSession(assignments: map<nat, Assignment>, studentId: nat, sessionId: Option<nat>) {
    exists k :: k in assignments && assignments[k].studentId == studentId && assignments[k].sessionId == sessionId
  }

  /** A new assignment copies the student's Q10 and, as written, is marked
      completed as soon as that Q10 exists, before any grader has submitted. */
  function NewAssignment(student: Student, studentId: nat, teamId: nat, groupId: nat, sessionId: Option<nat>): (a: Assignment)
    ensures a.q10 == student.q10
    ensures a.completed <==> student.q10.Some?
    ensures !a.gradedT1 && !a.gradedT2 && !a.examIncomplete
    ensures a.Consistent()
  {
    Assignment(studentId, teamId, groupId, sessionId, student.q10, false, false, student.q10.Some?, false)
  }

  /** The completion rule of the grading lifecycle (both graders and a Q10) does
      not hold of a freshly created assignment whose student already has a Q10. */
  lemma CreatedCompleteWithoutGraders(student: Student, studentId: nat, teamId: nat, groupId: nat)
    requires student.q10.Some?
    ensures var a := NewAssignment(student, studentId, teamId, groupId, None);
      a.completed && !(a.gradedT1 && a.gradedT2)
  {
  }

  /** `create_assignment`. */
  method CreateAssignment(db: Store, studentId: nat, teamId: nat, groupId: nat, sessionId: Option<nat>)
    returns (r: Result<nat>)
    requires db.Valid()
    modifies db`assignments, db`nextId
    ensures db.Valid()
    ensures studentId !in db.students ==> r == Err(NotFound(StudentRow))
    ensures studentId in db.students && !HasTeam(db.teams, teamId) ==> r == Err(NotFound(TeamRow))
    ensures studentId in db.students && HasTeam(db.teams, teamId) && groupId !in db.groups ==>
              r == Err(NotFound(GroupRow))
    ensures r.Ok? <==>
      studentId in db.students && HasTeam(db.teams, teamId) && groupId in db.groups &&
      !AlreadyInSession(old(db.assignments), studentId, sessionId)
    ensures r.Err? ==> db.assignments == old(db.assignments) && db.nextId == old(db.nextId)
    ensures r.Ok? ==>
      && r.value !in old(db.assignments)
      && db.assignments == old(db.assignments)[r.value := NewAssignment(db.students[studentId], studentId, teamId, groupId, sessionId)]
  {
    if studentId !in db.students {
      return Err(NotFound(StudentRow));
    }
    if !HasTeam(db.teams, teamId) {
      return Err(NotFound(TeamRow));
    }
    if groupId !in db.groups {
      return Err(NotFound(GroupRow));
    }
    if AlreadyInSession(db.assignments, studentId, sessionId) {
      return Err(AlreadyAssigned);
    }
    var id := db.nextId;
    db.assignments := db.assignments[id := NewAssignment(db.students[studentId], studentId, teamId, groupId, sessionId)];
    db.nextId := db.nextId + 1;
    r := Ok(id);
  }

  /** `update_q10_mark`. A Q10 outside [0, 10] is rejected and changes nothing;
      an absent one changes nothing. The backup written after the commit is
      best effort: whether it fails has no bearing on the result. */
  method UpdateQ10(db: Store, id: nat, q10: Option<real>, backupFails: bool) returns (r: Result<Assignment>)
    requires db.Valid()
    modifies db`assignments
    ensures db.Valid()
    ensures Q10Kept(old(db.assignments), db.assignments)
    ensures id !in old(db.assignments) ==> r == Err(NotFound(AssignmentRow)) && db.assignments == old(db.assignments)
    ensures id in old(db.assignments) && q10.Some? && !ValidQ10(q10.value) ==>
              r == Err(Q10OutOfRange) && db.assignments == old(db.assignments)
    ensures id in old(db.assignments) && q10.None? ==>
              r == Ok(old(db.assignments)[id]) && db.assignments == old(db.assignments)
    ensures id in old(db.assignments) && q10.Some? && ValidQ10(q10.value) ==>
              && r == Ok(WithQ10(old(db.assignments)[id], q10.value))
              && db.assignments == old(db.assignments)[id := r.value]
  {
    if id !in db.assignments {
      return Err(NotFound(AssignmentRow));
    }
    if q10.Some? {
      if !ValidQ10(q10.value) {
        return Err(Q10OutOfRange);
      }
      db.assignments := db.assignments[id := WithQ10(db.assignments[id], q10.value)];
    }
    r := Ok(db.assignments[id]);
  }

  /** The assignment after a change of team: the graders are different, so both
      flags and completion are cleared. The Q10 stays. */
  function Reassigned(a: Assignment, teamId: nat): (r: Assignment)
    ensures r == a.(teamId := teamId, gradedT1 := false, gradedT2 := false, completed := false)
    ensures !r.completed && r.Consistent() && r.q10 == a.q10
  {
    a.(teamId := teamId, gradedT1 := false, gradedT2 := false, completed := false)
  }

  /** The grade table without the records of one assignment. */
  function WithoutGradesOf(grades: map<GradeKey, Grade>, id: nat): (r: map<GradeKey, Grade>)
    ensures forall k :: k in r <==> k in grades && k.assignmentId != id
    ensures forall k :: k in r ==> r[k] == grades[k]
  {
    map k | k in grades && k.assignmentId != id :: grades[k]
  }

  /** `update_assignment`. A team change deletes every grade of the assignment and
      clears its flags; a rubric change only swaps the reference, and the stored
      grades are not re-checked against it. An unknown team or rubric rejects
      the whole update. */
  method UpdateAssignment(db: Store, id: nat, teamId: Option<nat>, groupId: Option<nat>) returns (r: Result<Assignment>)
    requires db.Valid()
    modifies db`assignments, db`grades
    ensures db.Valid()
    ensures Q10Kept(old(db.assignments), db.assignments)
    ensures r.Err? ==> db.assignments == old(db.assignments) && db.grades == old(db.grades)
    ensures id !in old(db.assignments) ==> r == Err(NotFound(AssignmentRow))
    ensures r.Ok? <==>
      id in old(db.assignments) &&
      (teamId.Some? ==> HasTeam(db.teams, teamId.value)) &&
      (groupId.Some? ==> groupId.value in db.groups)
    ensures r.Ok? ==>
      && var moved := if teamId.Some? then Reassigned(old(db.assignments)[id], teamId.value) else old(db.assignments)[id];
      && r.value == (if groupId.Some? then moved.(groupId := groupId.value) else moved)
      && db.assignments == old(db.assignments)[id := r.value]
      && db.grades == if teamId.Some? then WithoutGradesOf(old(db.grades), id) else old(db.grades)
  {
    if id !in db.assignments {
      return Err(NotFound(AssignmentRow));
    }
    var a := db.assignments[id];
    var grades := db.grades;
    if teamId.Some? {
      if !HasTeam(db.teams, teamId.value) {
        return Err(NotFound(TeamRow));
      }
      a := Reassigned(a, teamId.value);
      grades := WithoutGradesOf(grades, id);
    }
    if groupId.Some? {
      if groupId.value !in db.groups {
        return Err(NotFound(GroupRow));
      }
      a := a.(groupId := groupId.value);
    }
    db.assignments := db.assignments[id := a];
    db.grades := grades;
    r := Ok(a);
  }

  /** `delete_assignment`: the assignment goes, and its grades with it. */
  method DeleteAssignment(db: Store, id: nat) returns (r: Result<()>)
    requires db.Valid()
    modifies db`assignments, db`grades
    ensures db.Valid()
    ensures id !in old(db.assignments) ==>
              r == Err(NotFound(AssignmentRow)) && db.assignments == old(db.assignments) && db.grades == old(db.grades)
    ensures id in old(db.assignments) ==>
              && r == Ok(())
              && db.assignments == old(db.assignments) - {id}
              && db.grades == WithoutGradesOf(old(db.grades), id)
  {
    if id !in db.assignments {
      return Err(NotFound(AssignmentRow));
    }
    db.grades := WithoutGradesOf(db.grades, id);
    db.assignments := db.assignments - {id};
    r := Ok(());
  }

  /** `mark_exam_incomplete`: only the unfinished-exam flag changes. */
  method MarkExamIncomplete(db: Store, id: nat) returns (r: Result<Assignment>)
    requires db.Valid()
    modifies db`assignments
    ensures db.Valid()
    ensures id !in old(db.assignments) ==> r == Err(NotFound(AssignmentRow)) && db.assignments == old(db.assignments)
    ensures id in old(db.assignments) ==>
              && r == Ok(old(db.assignments)[id].(examIncomplete := true))
              && db.assignments == old(db.assignments)[id := r.value]
  {
    if id !in db.assignments {
      return Err(NotFound(AssignmentRow));
    }
    db.assignments := db.assignments[id := db.assignments[id].(examIncomplete := true)];
    r := Ok(db.assignments[id]);
  }

  /** `mark_exam_complete`: undoes the flag above and changes nothing else. */
  method MarkExamComplete(db: Store, id: nat) returns (r: Result<Assignment>)
    requires db.Valid()
    modifies db`assignments
    ensures db.Valid()
    ensures id !in old(db.assignments) ==> r == Err(NotFound(AssignmentRow)) && db.assignments == old(db.assignments)
    ensures id in old(db.assignments) ==>
              && r == Ok(old(db.assignments)[id].(examIncomplete := false))
              && db.assignments == old(db.assignments)[id := r.value]
  {
    if id !in db.assignments {
      return Err(NotFound(AssignmentRow));
    }
    db.assignments := db.assignments[id := db.assignments[id].(examIncomplete := false)];
    r := Ok(db.assignments[id]);
  }

  /** The assignments the roster sync copies into: no Q10 yet, a student that
      still exists, and a roster Q10 within [0, 10]. */
  predicate SyncEligible(a: Assignment, students: map<nat, Student>) {
    && a.q10.None?
    && a.studentId in students
    && students[a.studentId].q10.Some?
    && ValidQ10(students[a.studentId].q10.value)
  }

  /** One assignment after the sync. Anything not eligible, an out-of-range
      roster value included, is skipped without an error. */
  function Synced(a: Assignment, students: map<nat, Student>): (r: Assignment)
    ensures !SyncEligible(a, students) ==> r == a
    ensures SyncEligible(a, students) ==> r == WithQ10(a, students[a.studentId].q10.value)
    ensures a.q10.Some? ==> r == a
    ensures a.Consistent() ==> r.Consistent()
  {
    if SyncEligible(a, students) then WithQ10(a, students[a.studentId].q10.value) else a
  }

  /** A second sync finds nothing left to copy. */
  lemma SyncedNotEligible(a: Assignment, students: map<nat, Student>)
    ensures !SyncEligible(Synced(a, students), students)
    ensures Synced(Synced(a, students), students) == Synced(a, students)
  {
  }

  /** The keys among `keys` whose assignment the sync would copy into. */
  ghost function EligibleIn(m: map<nat, Assignment>, students: map<nat, Student>, keys: set<nat>): set<nat> {
    set k | k in keys && k in m && SyncEligible(m[k], students)
  }

  lemma EligibleInAdd(m: map<nat, Assignment>, students: map<nat, Student>, keys: set<nat>, k: nat)
    requires k in m && k !in keys
    ensures SyncEligible(m[k], students) ==>
              |EligibleIn(m, students, keys + {k})| == |EligibleIn(m, students, keys)| + 1
    ensures !SyncEligible(m[k], students) ==>
              EligibleIn(m, students, keys + {k}) == EligibleIn(m, students, keys)
  {
    if SyncEligible(m[k], students) {
      assert EligibleIn(m, students, keys + {k}) == EligibleIn(m, students, keys) + {k};
    }
  }

  /** The loop of `sync_q10_from_students` over the assignment table. */
  method SyncAll(before: map<nat, Assignment>, students: map<nat, Student>)
    returns (result: map<nat, Assignment>, count: nat)
    ensures result.Keys == before.Keys
    ensures forall k :: k in result ==> result[k] == Synced(before[k], students)
    ensures count == |EligibleIn(before, students, before.Keys)|
  {
    result := before;
    var todo := before.Keys;
    count := 0;
    while todo != {}
      invariant todo <= before.Keys
      invariant result.Keys == before.Keys
      invariant forall k :: k in before ==> result[k] == if k in todo then before[k] else Synced(before[k], students)
      invariant count == |EligibleIn(before, students, before.Keys - todo)|
      decreases todo
    {
      var k :| k in todo;
      EligibleInAdd(before, students, before.Keys - todo, k);
      assert before.Keys - (todo - {k}) == (before.Keys - todo) + {k};
      if SyncEligible(before[k], students) {
        result := result[k := WithQ10(before[k], students[before[k].studentId].q10.value)];
        count := count + 1;
      }
      todo := todo - {k};
    }
    assert before.Keys - todo == before.Keys;
  }

  /** `sync_q10_from_students`: copies the roster's Q10 into every eligible
      assignment and returns how many it copied. */
  method SyncQ10(db: Store) returns (count: nat)
    requires db.Valid()
    modifies db`assignments
    ensures db.Valid()
    ensures Q10Kept(old(db.assignments), db.assignments)
    ensures db.assignments.Keys == old(db.assignments).Keys
    ensures forall k :: k in db.assignments ==> db.assignments[k] == Synced(old(db.assignments)[k], db.students)
    ensures count == |EligibleIn(old(db.assignments), db.students, old(db.assignments).Keys)|
  {
    var result;
    result, count := SyncAll(db.assignments, db.students);
    assert forall k :: k in result ==> result[k].Consistent() by {
      forall k | k in result
        ensures result[k].Consistent()
      {
        assert db.assignments[k].Consistent();
      }
    }
    db.assignments := result;
  }
}
