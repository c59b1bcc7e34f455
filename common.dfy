/** Values shared by every part of the grading model: optional values, the
    endpoints' error outcomes, the nine graded items and the rubric lookup. */
module Common {

  datatype Option<+T> = None | Some(value: T)

  /** The record kinds an endpoint can fail to find. */
  datatype Entity =
    | AssignmentRow | TeacherRow | TeamRow | GroupRow | StudentRow | SessionRow | GradeRow

  /** The HTTP errors the endpoints raise. ServerError stands for an unhandled
      exception (an attribute read on a related row that no longer exists, or
      a unique column violated when the session commits). */
  datatype Error =
    | NotFound(entity: Entity)
    | WrongTeam
    | NegativeMark(item: nat)
    | AboveMaximum(item: nat, maximum: int)
    | Q10OutOfRange
    | AlreadyAssigned
    | MissingItem(item: nat)
    | InvalidPosition
    | PositionTaken(position: int)
    | ServerError

  datatype Result<+T> = Ok(value: T) | Err(error: Error)

  /** The HTTP status code each error is reported with. */
  function Status(e: Error): (code: int)
    ensures code == 404 <==> e.NotFound?
    ensures code == 403 <==> e.WrongTeam?
    ensures code == 500 <==> e.ServerError?
    ensures code in {400, 403, 404, 500}
  {
    match e
    case NotFound(_) => 404
    case WrongTeam => 403
    case ServerError => 500
    case _ => 400
  }

  /** Items q1..q9 are graded by the team; q10 is the supervisor's bonus. */
  const ItemCount: nat := 9

  const NoMarks: seq<Option<real>> := [None, None, None, None, None, None, None, None, None]

  /** One optional mark per graded item; index 0 holds q1. */
  type ItemMarks = s: seq<Option<real>> | |s| == ItemCount witness NoMarks

  /** The rubric key of item i ("q1" .. "q9"). */
  function ItemKey(i: nat): (k: string)
    requires 1 <= i <= ItemCount
    ensures |k| == 2 && k[0] == 'q' && k[1] as int == '0' as int + i
  {
    ['q', ('0' as int + i) as char]
  }

  /** A present mark, or 0 for an unset one (Python's `mark or 0`). */
  function OrZero(m: Option<real>): real {
    if m.Some? then m.value else 0.0
  }

  /** The sum of the marks that are present; an unset mark adds nothing. */
  function MarkSum(s: seq<Option<real>>): real {
    if s == [] then 0.0 else MarkSum(s[..|s| - 1]) + OrZero(s[|s| - 1])
  }

  lemma {:induction false} MarkSumAppend(s: seq<Option<real>>, m: Option<real>)
    ensures MarkSum(s + [m]) == MarkSum(s) + OrZero(m)
  {
    assert (s + [m])[..|s|] == s;
  }

  /** Marks that are all non-negative sum to a non-negative value, and each
      present mark is at most the sum. */
  lemma {:induction false} MarkSumBounds(s: seq<Option<real>>)
    requires forall i :: 0 <= i < |s| && s[i].Some? ==> s[i].value >= 0.0
    ensures MarkSum(s) >= 0.0
    ensures forall i :: 0 <= i < |s| && s[i].Some? ==> s[i].value <= MarkSum(s)
  {
    if s != [] {
      var p := s[..|s| - 1];
      MarkSumBounds(p);
      assert forall i :: 0 <= i < |p| ==> p[i] == s[i];
    }
  }

  /** One key/value pair of a rubric's marks structure, in insertion order. */
  datatype Entry = Entry(key: string, value: int)

  /** A rubric's marks structure: the JSON object mapping "q1".."q9" to maxima. */
  type Structure = seq<Entry>

  predicate HasKey(ms: Structure, key: string) {
    exists i :: 0 <= i < |ms| && ms[i].key == key
  }

  /** `marks_structure.get(key, default)`: the value of the first entry with that key. */
  function Get(ms: Structure, key: string, default: int): (v: int)
    ensures !HasKey(ms, key) ==> v == default
    ensures HasKey(ms, key) ==>
      exists i :: 0 <= i < |ms| && ms[i].key == key && ms[i].value == v &&
        forall j :: 0 <= j < i ==> ms[j].key != key
  {
    if ms == [] then default
    else if ms[0].key == key then ms[0].value
    else
      var v := Get(ms[1..], key, default);
      assert HasKey(ms[1..], key) ==> HasKey(ms, key) by {
        if HasKey(ms[1..], key) {
          var i :| 0 <= i < |ms[1..]| && ms[1..][i].key == key;
          assert ms[i + 1].key == key;
        }
      }
      assert HasKey(ms, key) ==> HasKey(ms[1..], key) by {
        if HasKey(ms, key) {
          var i :| 0 <= i < |ms| && ms[i].key == key;
          assert i > 0 && ms[1..][i - 1].key == key;
        }
      }
      v
  }

  /** `sum(marks_structure.values())`. */
  function StructureSum(ms: Structure): int {
    if ms == [] then 0 else StructureSum(ms[..|ms| - 1]) + ms[|ms| - 1].value
  }
}
