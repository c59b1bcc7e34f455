/** Team membership: the checks on a new grader's position, the unchecked
    grader update, and the active-session filters that pick the first N teams
    and the graders at positions up to the per-room count. */
module Teams {
  import opened Common
  import opened Models
  import ExamSessions

  /** The positions a grader may hold within a team. */
  predicate ValidPosition(position: int) {
    position in {1, 2, 3}
  }

  /** Some grader of that team already holds that position. */
  predicate PositionHeld(teachers: map<nat, Teacher>, teamId: nat, position: int) {
    exists k :: k in teachers && teachers[k].teamId == teamId && teachers[k].position == position
  }

  /** At most one grader per (team, position). */
  predicate PositionsUnique(teachers: map<nat, Teacher>) {
    forall a, b :: a in teachers && b in teachers && a != b && teachers[a].teamId == teachers[b].teamId ==>
      teachers[a].position != teachers[b].position
  }

  /** The checks of `create_teacher`, in their order: the team exists, the
      position is 1, 2 or 3, and it is free in that team. */
  function TeacherCheck(teams: seq<Team>, teachers: map<nat, Teacher>, t: Teacher): (e: Option<Error>)
    ensures e.None? <==> HasTeam(teams, t.teamId) && ValidPosition(t.position) && !PositionHeld(teachers, t.teamId, t.position)
    ensures !HasTeam(teams, t.teamId) ==> e == Some(NotFound(TeamRow))
    ensures HasTeam(teams, t.teamId) && !ValidPosition(t.position) ==> e == Some(InvalidPosition)
    ensures HasTeam(teams, t.teamId) && ValidPosition(t.position) && PositionHeld(teachers, t.teamId, t.position) ==>
              e == Some(PositionTaken(t.position))
  {
    if !HasTeam(teams, t.teamId) then Some(NotFound(TeamRow))
    else if !ValidPosition(t.position) then Some(InvalidPosition)
    else if PositionHeld(teachers, t.teamId, t.position) then Some(PositionTaken(t.position))
    else None
  }

  /** A grader that passes the checks keeps positions unique and valid. */
  lemma CreationKeepsPositionsUnique(teams: seq<Team>, teachers: map<nat, Teacher>, id: nat, t: Teacher)
    requires PositionsUnique(teachers) && id !in teachers
    requires TeacherCheck(teams, teachers, t).None?
    ensures PositionsUnique(teachers[id := t])
    ensures ValidPosition(teachers[id := t][id].position)
  {
  }

  /** `create_teacher`. */
  method CreateTeacher(db: Store, t: Teacher) returns (r: Result<nat>)
    requires db.Valid()
    modifies db`teachers, db`nextId
    ensures db.Valid()
    ensures r.Err? ==>
      && Some(r.error) == TeacherCheck(db.teams, old(db.teachers), t)
      && db.teachers == old(db.teachers) && db.nextId == old(db.nextId)
    ensures r.Ok? ==>
      && TeacherCheck(db.teams, old(db.teachers), t).None?
      && r.value !in old(db.teachers)
      && db.teachers == old(db.teachers)[r.value := t]
    ensures PositionsUnique(old(db.teachers)) ==> PositionsUnique(db.teachers)
  {
    var e := TeacherCheck(db.teams, db.teachers, t);
    if e.Some? {
      return Err(e.value);
    }
    var id := db.nextId;
    if PositionsUnique(db.teachers) {
      CreationKeepsPositionsUnique(db.teams, db.teachers, id, t);
    }
    db.teachers := db.teachers[id := t];
    db.nextId := db.nextId + 1;
    r := Ok(id);
  }

  /** `update_teacher`: every field is overwritten, with neither the team, the
      position's range nor its uniqueness checked. */
  method UpdateTeacher(db: Store, id: nat, t: Teacher) returns (r: Result<Teacher>)
    requires db.Valid()
    modifies db`teachers
    ensures db.Valid()
    ensures id !in old(db.teachers) ==> r == Err(NotFound(TeacherRow)) && db.teachers == old(db.teachers)
    ensures id in old(db.teachers) ==> r == Ok(t) && db.teachers == old(db.teachers)[id := t]
  {
    if id !in db.teachers {
      return Err(NotFound(TeacherRow));
    }
    db.teachers := db.teachers[id := t];
    r := Ok(t);
  }

  /** An update can give two graders of one team the same position, which
      creation never allows. */
  lemma UpdateCanDuplicatePosition()
    ensures var before := map[1 := Teacher("A", 7, 1), 2 := Teacher("B", 7, 2)];
      && PositionsUnique(before)
      && !PositionsUnique(before[2 := Teacher("B", 7, 1)])
      && TeacherCheck([Team(7, "Room 1")], map[1 := Teacher("A", 7, 1)], Teacher("B", 7, 1)) == Some(PositionTaken(1))
  {
    var before := map[1 := Teacher("A", 7, 1), 2 := Teacher("B", 7, 2)];
    var after := before[2 := Teacher("B", 7, 1)];
    assert after[1].teamId == after[2].teamId && after[1].position == after[2].position;
    assert HasTeam([Team(7, "Room 1")], 7) by {
      assert [Team(7, "Room 1")][0].id == 7;
    }
    assert PositionHeld(map[1 := Teacher("A", 7, 1)], 7, 1) by {
      assert map[1 := Teacher("A", 7, 1)][1].teamId == 7;
    }
  }

  /** `num_rooms or 4`: an unset or zero room count means four rooms. */
  function RoomCount(s: ExamSession): (n: int)
    ensures s.numRooms.None? || s.numRooms == Some(0) ==> n == 4
    ensures s.numRooms.Some? && s.numRooms.value != 0 ==> n == s.numRooms.value
    ensures n != 0
  {
    if s.numRooms.None? || s.numRooms.value == 0 then 4 else s.numRooms.value
  }

  /** `teachers_per_room or 2`. */
  function GradersPerRoom(s: ExamSession): (n: int)
    ensures s.teachersPerRoom.None? || s.teachersPerRoom == Some(0) ==> n == 2
    ensures s.teachersPerRoom.Some? && s.teachersPerRoom.value != 0 ==> n == s.teachersPerRoom.value
    ensures n != 0
  {
    if s.teachersPerRoom.None? || s.teachersPerRoom.value == 0 then 2 else s.teachersPerRoom.value
  }

  /** `LIMIT n` on the teams in id order; a negative limit means no limit. */
  function FirstTeams(teams: seq<Team>, n: int): (r: seq<Team>)
    ensures 0 <= n <= |teams| ==> r == teams[..n]
    ensures n < 0 || n > |teams| ==> r == teams
    ensures r <= teams
  {
    if n < 0 || n > |teams| then teams else teams[..n]
  }

  /** `get_teams_for_active_session`. */
  function TeamsForActiveSession(teams: seq<Team>, sessions: seq<ExamSession>): (r: seq<Team>)
    ensures ExamSessions.FirstActive(sessions).None? ==> r == teams
    ensures ExamSessions.FirstActive(sessions).Some? ==>
      r == FirstTeams(teams, RoomCount(ExamSessions.FirstActive(sessions).value))
    ensures r <= teams
  {
    var active := ExamSessions.FirstActive(sessions);
    if active.None? then teams else FirstTeams(teams, RoomCount(active.value))
  }

  /** The graders shown for the active session: in one of its teams and at a
      position no higher than the per-room count. */
  predicate OnDuty(t: Teacher, teams: seq<Team>, perRoom: int) {
    HasTeam(teams, t.teamId) && t.position <= perRoom
  }

  /** `get_teachers_for_active_session`. */
  function TeachersForActiveSession(teams: seq<Team>, teachers: map<nat, Teacher>, sessions: seq<ExamSession>)
    : (r: map<nat, Teacher>)
    ensures ExamSessions.FirstActive(sessions).None? ==> r == teachers
    ensures forall k :: k in r ==> k in teachers && r[k] == teachers[k]
    ensures ExamSessions.FirstActive(sessions).Some? ==>
      var s := ExamSessions.FirstActive(sessions).value;
      forall k :: k in teachers ==>
        (k in r <==> OnDuty(teachers[k], FirstTeams(teams, RoomCount(s)), GradersPerRoom(s)))
  {
    var active := ExamSessions.FirstActive(sessions);
    if active.None? then teachers
    else
      var shown := FirstTeams(teams, RoomCount(active.value));
      var perRoom := GradersPerRoom(active.value);
      map k | k in teachers && OnDuty(teachers[k], shown, perRoom) :: teachers[k]
  }

  /** Every grader shown for the active session belongs to a team shown for it. */
  lemma ShownGradersInShownTeams(teams: seq<Team>, teachers: map<nat, Teacher>, sessions: seq<ExamSession>, k: nat)
    requires ExamSessions.FirstActive(sessions).Some?
    requires k in TeachersForActiveSession(teams, teachers, sessions)
    ensures HasTeam(TeamsForActiveSession(teams, sessions), teachers[k].teamId)
  {
  }
}
