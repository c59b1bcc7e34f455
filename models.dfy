/** The records the grading system stores and the store that holds them.
    Each table is a field of the store; every endpoint is one atomic step on it. */
module Models {
  import opened Common

  datatype Team = Team(id: nat, name: string)

  /** A grader: member of one team, at position 1, 2 or 3 within it. */
  datatype Teacher = Teacher(name: string, teamId: nat, position: int)

  /** A rubric ("question group"): the maximum mark of each item and their total. */
  datatype QuestionGroup = QuestionGroup(name: string, code: string, structure: Structure, totalMarks: int)

  /** An exam occasion. The room and grader counts are nullable columns. */
  datatype ExamSession = ExamSession(
    id: nat, name: string, date: int, isActive: bool,
    numRooms: Option<int>, teachersPerRoom: Option<int>)

  datatype Student = Student(
    name: string, phone: Option<string>, birthYear: Option<int>,
    regularTeacher: Option<string>, q10: Option<real>)

  /** One student bound to one grading team and one rubric for one exam session. */
  datatype Assignment = Assignment(
    studentId: nat, teamId: nat, groupId: nat, sessionId: Option<nat>,
    q10: Option<real>,
    gradedT1: bool, gradedT2: bool, completed: bool, examIncomplete: bool)
  {
    /** The lifecycle invariant every endpoint keeps: a completed assignment has its Q10. */
    predicate Consistent() {
      completed ==> q10.Some?
    }
  }

  /** Grades are stored at most once per (assignment, grader) pair. */
  datatype GradeKey = GradeKey(assignmentId: nat, teacherId: nat)

  /** One grader's marks for one assignment; times come from an abstract clock. */
  datatype Grade = Grade(
    marks: ItemMarks, total: Option<real>,
    startedAt: Option<nat>, finishedAt: Option<nat>)
  {
    /** Stored marks are never negative, and a stored total is always the sum
        of the marks that are set. */
    predicate Consistent() {
      && NonNegative(marks)
      && (total.Some? ==> total.value == MarkSum(marks))
    }
  }

  predicate NonNegative(marks: ItemMarks) {
    forall i :: 0 <= i < ItemCount && marks[i].Some? ==> marks[i].value >= 0.0
  }

  /** No assignment that keeps existing loses a Q10 it had. */
  ghost predicate Q10Kept(before: map<nat, Assignment>, after: map<nat, Assignment>) {
    forall k :: k in before && k in after && before[k].q10.Some? ==> after[k].q10.Some?
  }

  predicate HasTeam(teams: seq<Team>, id: nat) {
    exists i :: 0 <= i < |teams| && teams[i].id == id
  }

  predicate TeamsOrdered(teams: seq<Team>) {
    forall i, j :: 0 <= i < j < |teams| ==> teams[i].id < teams[j].id
  }

  predicate SessionsOrdered(sessions: seq<ExamSession>) {
    forall i, j :: 0 <= i < j < |sessions| ==> sessions[i].id < sessions[j].id
  }

  /** The database. Teams and sessions are kept in primary-key order, since the
      endpoints read "the first" of them; the other tables are keyed by id. */
  class Store {
    var teams: seq<Team>
    var teachers: map<nat, Teacher>
    var groups: map<nat, QuestionGroup>
    var sessions: seq<ExamSession>
    var students: map<nat, Student>
    var assignments: map<nat, Assignment>
    var grades: map<GradeKey, Grade>
    /** The next primary key the database hands out. */
    var nextId: nat

    ghost predicate Valid()
      reads this
    {
      && TeamsOrdered(teams)
      && SessionsOrdered(sessions)
      && (forall k :: k in teachers ==> k < nextId)
      && (forall k :: k in groups ==> k < nextId)
      && (forall k :: k in students ==> k < nextId)
      && (forall k :: k in assignments ==> k < nextId && assignments[k].Consistent())
      && (forall k :: k in grades ==> grades[k].Consistent())
    }

    constructor (teams: seq<Team>, sessions: seq<ExamSession>)
      requires TeamsOrdered(teams) && SessionsOrdered(sessions)
      ensures Valid()
      ensures this.teams == teams && this.sessions == sessions
      ensures teachers == map[] && groups == map[] && students == map[]
      ensures assignments == map[] && grades == map[] && nextId == 0
    {
      this.teams := teams;
      this.sessions := sessions;
      teachers, groups, students := map[], map[], map[];
      assignments, grades := map[], map[];
      nextId := 0;
    }
  }
}
