/** Exam sessions: the active-session lookup, listing, partial updates and the
    activation step that leaves exactly one session active. The session table
    is kept in id order, the order in which the database returns rows. */
module ExamSessions {
  import opened Common
  import opened Models
  import opened Sorting

  /** Session i is active and no earlier one is. */
  predicate FirstActiveAt(sessions: seq<ExamSession>, i: int) {
    0 <= i < |sessions| && sessions[i].isActive && forall j :: 0 <= j < i ==> !sessions[j].isActive
  }

  /** `get_active_session`: the first active session, if any. */
  function FirstActive(sessions: seq<ExamSession>): (r: Option<ExamSession>)
    ensures r.None? <==> forall i :: 0 <= i < |sessions| ==> !sessions[i].isActive
    ensures r.Some? ==> exists i :: FirstActiveAt(sessions, i) && sessions[i] == r.value
  {
    if sessions == [] then None
    else if sessions[0].isActive then
      assert FirstActiveAt(sessions, 0);
      Some(sessions[0])
    else
      var r := FirstActive(sessions[1..]);
      assert r.Some? ==> exists i :: FirstActiveAt(sessions, i) && sessions[i] == r.value by {
        if r.Some? {
          var i :| FirstActiveAt(sessions[1..], i) && sessions[1..][i] == r.value;
          assert FirstActiveAt(sessions, i + 1) by {
            forall j | 0 <= j < i + 1
              ensures !sessions[j].isActive
            {
              if j > 0 {
                assert sessions[j] == sessions[1..][j - 1];
              }
            }
          }
        }
      }
      r
  }

  /** The position of the session with that id, if any. */
  function IndexOf(sessions: seq<ExamSession>, id: nat): (r: Option<nat>)
    ensures r.None? <==> forall i :: 0 <= i < |sessions| ==> sessions[i].id != id
    ensures r.Some? ==> r.value < |sessions| && sessions[r.value].id == id
  {
    if sessions == [] then None
    else if sessions[0].id == id then Some(0)
    else
      var r := IndexOf(sessions[1..], id);
      if r.None? then None else Some(r.value + 1)
  }

  /** Later sessions first. */
  predicate DateDesc(a: ExamSession, b: ExamSession) {
    a.date >= b.date
  }

  /** The sessions a listing shows, in table order. */
  function Selected(sessions: seq<ExamSession>, activeOnly: bool): (r: seq<ExamSession>)
    ensures forall s :: s in r <==> s in sessions && (activeOnly ==> s.isActive)
    ensures !activeOnly ==> r == sessions
    ensures |r| <= |sessions|
  {
    if sessions == [] then []
    else
      var rest := Selected(sessions[1..], activeOnly);
      assert forall s :: s in sessions <==> s == sessions[0] || s in sessions[1..];
      if !activeOnly || sessions[0].isActive then [sessions[0]] + rest else rest
  }

  /** `get_all_exam_sessions`: the selected sessions, latest date first. */
  function ListSessions(sessions: seq<ExamSession>, activeOnly: bool): (r: seq<ExamSession>)
    ensures Sorted(r, DateDesc)
    ensures multiset(r) == multiset(Selected(sessions, activeOnly))
    ensures forall s :: s in r <==> s in sessions && (activeOnly ==> s.isActive)
  {
    assert TotalPreorder(DateDesc);
    var r := SortBy(Selected(sessions, activeOnly), DateDesc);
    assert forall s :: s in r <==> s in multiset(Selected(sessions, activeOnly));
    r
  }

  /** The table after activating the session with that id: it alone is active. */
  function Activated(sessions: seq<ExamSession>, id: nat): (r: seq<ExamSession>)
    ensures |r| == |sessions|
    ensures forall i :: 0 <= i < |r| ==> r[i] == sessions[i].(isActive := sessions[i].id == id)
  {
    seq(|sessions|, i requires 0 <= i < |sessions| => sessions[i].(isActive := sessions[i].id == id))
  }

  /** After activation the active-session lookup finds exactly the chosen
      session, every other one is inactive, and activating again changes nothing. */
  lemma ActivationSelectsOne(sessions: seq<ExamSession>, id: nat, k: nat)
    requires SessionsOrdered(sessions)
    requires k < |sessions| && sessions[k].id == id
    ensures forall i :: 0 <= i < |sessions| ==> (Activated(sessions, id)[i].isActive <==> i == k)
    ensures FirstActive(Activated(sessions, id)) == Some(sessions[k].(isActive := true))
    ensures Activated(Activated(sessions, id), id) == Activated(sessions, id)
    ensures SessionsOrdered(Activated(sessions, id))
  {
    var r := Activated(sessions, id);
    var f := FirstActive(r);
    assert r[k].isActive;
    var i :| FirstActiveAt(r, i) && r[i] == f.value;
    assert i == k;
  }

  /** The first step of `activate_session`: every session switched off. */
  method DeactivateAll(sessions: seq<ExamSession>) returns (s: seq<ExamSession>)
    ensures |s| == |sessions|
    ensures forall j :: 0 <= j < |s| ==> s[j] == sessions[j].(isActive := false)
  {
    s := sessions;
    var i := 0;
    while i < |s|
      invariant 0 <= i <= |s| == |sessions|
      invariant forall j :: 0 <= j < i ==> s[j] == sessions[j].(isActive := false)
      invariant forall j :: i <= j < |s| ==> s[j] == sessions[j]
    {
      s := s[i := s[i].(isActive := false)];
      i := i + 1;
    }
  }

  /** Switching the chosen session back on after switching all off gives the
      activated table, still in id order. */
  lemma SwitchOnChosen(sessions: seq<ExamSession>, off: seq<ExamSession>, id: nat, k: nat)
    requires SessionsOrdered(sessions)
    requires |off| == |sessions| && forall j :: 0 <= j < |off| ==> off[j] == sessions[j].(isActive := false)
    requires k < |sessions| && sessions[k].id == id
    ensures off[k := off[k].(isActive := true)] == Activated(sessions, id)
    ensures SessionsOrdered(Activated(sessions, id))
  {
    var s := off[k := off[k].(isActive := true)];
    assert forall j :: 0 <= j < |s| ==> s[j].id == id ==> j == k;
  }

  /** `activate_session`. Every session is first switched off, then the chosen
      one on; an unknown id aborts the transaction and changes nothing. */
  method ActivateSession(db: Store, id: nat) returns (r: Result<ExamSession>)
    requires db.Valid()
    modifies db`sessions
    ensures db.Valid()
    ensures IndexOf(old(db.sessions), id).None? ==>
      r == Err(NotFound(SessionRow)) && db.sessions == old(db.sessions)
    ensures IndexOf(old(db.sessions), id).Some? ==>
      && db.sessions == Activated(old(db.sessions), id)
      && r == Ok(old(db.sessions)[IndexOf(old(db.sessions), id).value].(isActive := true))
  {
    var s := DeactivateAll(db.sessions);
    var k := IndexOf(s, id);
    assert k == IndexOf(db.sessions, id) by {
      IndexOfIds(s, db.sessions, id);
    }
    if k.None? {
      return Err(NotFound(SessionRow));
    }
    SwitchOnChosen(db.sessions, s, id, k.value);
    s := s[k.value := s[k.value].(isActive := true)];
    db.sessions := s;
    r := Ok(s[k.value]);
  }

  lemma {:induction false} IndexOfIds(a: seq<ExamSession>, b: seq<ExamSession>, id: nat)
    requires |a| == |b| && forall j :: 0 <= j < |a| ==> a[j].id == b[j].id
    ensures IndexOf(a, id) == IndexOf(b, id)
  {
    if a != [] {
      IndexOfIds(a[1..], b[1..], id);
    }
  }

  /** The fields an update may supply; an absent one (unset or null) is skipped. */
  datatype SessionUpdate = SessionUpdate(
    name: Option<string>, date: Option<int>, numRooms: Option<int>, teachersPerRoom: Option<int>)

  /** The session with every supplied field overwritten. */
  function Patched(s: ExamSession, u: SessionUpdate): (r: ExamSession)
    ensures r.id == s.id && r.isActive == s.isActive
    ensures r.name == (if u.name.Some? then u.name.value else s.name)
    ensures r.date == (if u.date.Some? then u.date.value else s.date)
    ensures r.numRooms == (if u.numRooms.Some? then u.numRooms else s.numRooms)
    ensures r.teachersPerRoom == (if u.teachersPerRoom.Some? then u.teachersPerRoom else s.teachersPerRoom)
  {
    var s1 := if u.name.Some? then s.(name := u.name.value) else s;
    var s2 := if u.date.Some? then s1.(date := u.date.value) else s1;
    var s3 := if u.numRooms.Some? then s2.(numRooms := u.numRooms) else s2;
    if u.teachersPerRoom.Some? then s3.(teachersPerRoom := u.teachersPerRoom) else s3
  }

  /** An update that supplies nothing changes nothing, and applying the same
      update twice is the same as once. */
  lemma PatchedIdempotent(s: ExamSession, u: SessionUpdate)
    ensures Patched(s, SessionUpdate(None, None, None, None)) == s
    ensures Patched(Patched(s, u), u) == Patched(s, u)
  {
  }

  /** `update_exam_session`. */
  method UpdateExamSession(db: Store, id: nat, u: SessionUpdate) returns (r: Result<ExamSession>)
    requires db.Valid()
    modifies db`sessions
    ensures db.Valid()
    ensures IndexOf(old(db.sessions), id).None? ==>
      r == Err(NotFound(SessionRow)) && db.sessions == old(db.sessions)
    ensures IndexOf(old(db.sessions), id).Some? ==>
      var k := IndexOf(old(db.sessions), id).value;
      && r == Ok(Patched(old(db.sessions)[k], u))
      && db.sessions == old(db.sessions)[k := r.value]
  {
    var k := IndexOf(db.sessions, id);
    if k.None? {
      return Err(NotFound(SessionRow));
    }
    var s := Patched(db.sessions[k.value], u);
    db.sessions := db.sessions[k.value := s];
    r := Ok(s);
  }
}
