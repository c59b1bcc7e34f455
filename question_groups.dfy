/** Rubrics ("question groups"): creation checks that all nine items are
    present, the total is always recomputed from the structure, and listing
    is ordered by code. Also: what a rubric bounds — an accepted grade never
    sums above the rubric's total. */
module QuestionGroups {
  import opened Common
  import opened Models
  import opened Sorting
  import Grades

  /** All of q1..q9 are keys of the structure. */
  predicate HasAllItems(ms: Structure) {
    forall i :: 1 <= i <= ItemCount ==> HasKey(ms, ItemKey(i))
  }

  /** The key check of `create_question_group`: the first of q1..q9 (in item
      order) that is missing, if any. */
  method FirstMissingItem(ms: Structure) returns (missing: Option<nat>)
    ensures missing.None? <==> HasAllItems(ms)
    ensures missing.Some? ==>
      && 1 <= missing.value <= ItemCount
      && !HasKey(ms, ItemKey(missing.value))
      && forall i :: 1 <= i < missing.value ==> HasKey(ms, ItemKey(i))
  {
    var i := 1;
    while i <= ItemCount
      invariant 1 <= i <= ItemCount + 1
      invariant forall j :: 1 <= j < i ==> HasKey(ms, ItemKey(j))
    {
      if !HasKey(ms, ItemKey(i)) {
        return Some(i);
      }
      i := i + 1;
    }
    missing := None;
  }

  /** Some stored rubric has this code. The `code` column is unique, so the
      database refuses a second rubric with the same code. */
  predicate CodeInUse(groups: map<nat, QuestionGroup>, code: string) {
    exists g :: g in groups && groups[g].code == code
  }

  /** No two rubrics share a code. */
  predicate CodesUnique(groups: map<nat, QuestionGroup>) {
    forall g, h :: g in groups && h in groups && g != h ==> groups[g].code != groups[h].code
  }

  /** `create_question_group`. The total the client sends (`clientTotal`) is
      ignored: the stored total is the sum of the structure's values. The
      first missing item is reported; a code already in use makes the commit
      fail, which surfaces as a server error with nothing stored. */
  method CreateQuestionGroup(db: Store, name: string, code: string, ms: Structure, clientTotal: int)
    returns (r: Result<nat>)
    requires db.Valid()
    modifies db`groups, db`nextId
    ensures db.Valid()
    ensures r.Ok? <==> HasAllItems(ms) && !CodeInUse(old(db.groups), code)
    ensures !HasAllItems(ms) ==>
      && r.Err? && r.error.MissingItem?
      && 1 <= r.error.item <= ItemCount
      && !HasKey(ms, ItemKey(r.error.item))
      && forall j :: 1 <= j < r.error.item ==> HasKey(ms, ItemKey(j))
    ensures HasAllItems(ms) && CodeInUse(old(db.groups), code) ==> r == Err(ServerError)
    ensures r.Err? ==> db.groups == old(db.groups) && db.nextId == old(db.nextId)
    ensures r.Ok? ==>
      && r.value !in old(db.groups)
      && db.groups == old(db.groups)[r.value := QuestionGroup(name, code, ms, StructureSum(ms))]
    ensures CodesUnique(old(db.groups)) ==> CodesUnique(db.groups)
  {
    var missing := FirstMissingItem(ms);
    if missing.Some? {
      return Err(MissingItem(missing.value));
    }
    if exists g :: g in db.groups && db.groups[g].code == code {
      return Err(ServerError);
    }
    var id := db.nextId;
    db.groups := db.groups[id := QuestionGroup(name, code, ms, StructureSum(ms))];
    db.nextId := db.nextId + 1;
    r := Ok(id);
  }

  /** `update_question_group`: every field is replaced and the total is
      recomputed, but the nine keys are not checked again. A code that
      another rubric holds makes the commit fail: a server error, with
      nothing changed. */
  method UpdateQuestionGroup(db: Store, id: nat, name: string, code: string, ms: Structure, clientTotal: int)
    returns (r: Result<QuestionGroup>)
    requires db.Valid()
    modifies db`groups
    ensures db.Valid()
    ensures r.Err? ==> db.groups == old(db.groups)
    ensures id !in old(db.groups) ==> r == Err(NotFound(GroupRow))
    ensures id in old(db.groups) && CodeInUse(old(db.groups) - {id}, code) ==> r == Err(ServerError)
    ensures id in old(db.groups) && !CodeInUse(old(db.groups) - {id}, code) ==>
      && r == Ok(QuestionGroup(name, code, ms, StructureSum(ms)))
      && db.groups == old(db.groups)[id := r.value]
    ensures CodesUnique(old(db.groups)) ==> CodesUnique(db.groups)
  {
    if id !in db.groups {
      return Err(NotFound(GroupRow));
    }
    var others := db.groups - {id};
    if exists g :: g in others && others[g].code == code {
      return Err(ServerError);
    }
    assert forall g :: g in db.groups && g != id ==> g in others && db.groups[g].code != code;
    db.groups := db.groups[id := QuestionGroup(name, code, ms, StructureSum(ms))];
    r := Ok(db.groups[id]);
  }

  /** A rubric stored by an update without item `i` caps that item at 0: any
      positive mark for it is rejected. */
  lemma {:induction false} MissingItemCapsAtZero(marks: ItemMarks, ms: Structure, k: nat)
    requires k < ItemCount && !HasKey(ms, ItemKey(k + 1))
    requires marks[k].Some? && marks[k].value > 0.0
    ensures Grades.ItemError(marks, k, ms) == Some(AboveMaximum(k + 1, 0))
    ensures !Grades.Acceptable(marks, ms)
  {
    assert Get(ms, ItemKey(k + 1), 0) == 0;
  }

  // ----- ordering by code -----

  /** String order of the database: code point by code point, a proper prefix first. */
  predicate LexLe(a: string, b: string) {
    a == [] || (b != [] && (a[0] < b[0] || (a[0] == b[0] && LexLe(a[1..], b[1..]))))
  }

  lemma {:induction false} LexLeTotal(a: string, b: string)
    ensures LexLe(a, b) || LexLe(b, a)
  {
    if a != [] && b != [] && a[0] == b[0] {
      LexLeTotal(a[1..], b[1..]);
    }
  }

  lemma {:induction false} LexLeTransitive(a: string, b: string, c: string)
    requires LexLe(a, b) && LexLe(b, c)
    ensures LexLe(a, c)
  {
    if a != [] && a[0] == b[0] && b[0] == c[0] {
      LexLeTransitive(a[1..], b[1..], c[1..]);
    }
  }

  /** Compares two listed rubrics (with their ids) by code. */
  predicate CodeLe(x: (nat, QuestionGroup), y: (nat, QuestionGroup)) {
    LexLe(x.1.code, y.1.code)
  }

  lemma CodeLePreorder()
    ensures TotalPreorder(CodeLe)
  {
    forall x: (nat, QuestionGroup), y: (nat, QuestionGroup)
      ensures CodeLe(x, y) || CodeLe(y, x)
    {
      LexLeTotal(x.1.code, y.1.code);
    }
    forall x: (nat, QuestionGroup), y: (nat, QuestionGroup), z: (nat, QuestionGroup) | CodeLe(x, y) && CodeLe(y, z)
      ensures CodeLe(x, z)
    {
      LexLeTransitive(x.1.code, y.1.code, z.1.code);
    }
  }

  /** `get_all_question_groups`: every rubric exactly once, ordered by code. */
  method ListQuestionGroups(db: Store) returns (r: seq<(nat, QuestionGroup)>)
    ensures Sorted(r, CodeLe)
    ensures |r| == |db.groups|
    ensures forall p :: p in r <==> p.0 in db.groups && db.groups[p.0] == p.1
  {
    var rows: seq<(nat, QuestionGroup)> := [];
    var todo := db.groups.Keys;
    ghost var done: set<nat> := {};
    while todo != {}
      invariant todo + done == db.groups.Keys && todo !! done
      invariant |rows| == |done|
      invariant forall p :: p in rows <==> p.0 in done && db.groups[p.0] == p.1
      decreases todo
    {
      var k :| k in todo;
      rows := rows + [(k, db.groups[k])];
      todo := todo - {k};
      done := done + {k};
    }
    CodeLePreorder();
    r := SortBy(rows, CodeLe);
    assert forall p :: p in r <==> p in multiset(rows);
  }

  // ----- what a rubric bounds -----

  /** A JSON object decoded into a dictionary has each key once. */
  predicate UniqueKeys(ms: Structure) {
    forall i, j :: 0 <= i < j < |ms| ==> ms[i].key != ms[j].key
  }

  predicate NonNegativeValues(ms: Structure) {
    forall i :: 0 <= i < |ms| ==> ms[i].value >= 0
  }

  /** The maxima of the listed keys, added up (0 for an absent key). */
  function MaximaSum(ms: Structure, keys: seq<string>): int {
    if keys == [] then 0 else MaximaSum(ms, keys[..|keys| - 1]) + Get(ms, keys[|keys| - 1], 0)
  }

  /** The item keys "q1".."q9" in item order. */
  function ItemKeys(): (ks: seq<string>)
    ensures |ks| == ItemCount
    ensures forall k :: 0 <= k < ItemCount ==> ks[k] == ItemKey(k + 1)
    ensures forall i, j :: 0 <= i < j < |ks| ==> ks[i] != ks[j]
  {
    seq(ItemCount, k requires 0 <= k < ItemCount => ItemKey(k + 1))
  }

  lemma {:induction false} GetAppend(ms: Structure, e: Entry, key: string, default: int)
    ensures Get(ms + [e], key, default) ==
      if HasKey(ms, key) then Get(ms, key, default) else if e.key == key then e.value else default
  {
    if ms != [] {
      assert (ms + [e])[1..] == ms[1..] + [e];
      if ms[0].key != key {
        GetAppend(ms[1..], e, key, default);
        assert HasKey(ms, key) <==> HasKey(ms[1..], key) by {
          if HasKey(ms, key) {
            var i :| 0 <= i < |ms| && ms[i].key == key;
            assert ms[1..][i - 1].key == key;
          }
          if HasKey(ms[1..], key) {
            var i :| 0 <= i < |ms[1..]| && ms[1..][i].key == key;
            assert ms[i + 1].key == key;
          }
        }
      }
    }
  }

  /** Adding an entry with a fresh key adds its value to the maxima of a
      duplicate-free key list exactly when the list names it. */
  lemma {:induction false} MaximaSumAppend(ms: Structure, e: Entry, keys: seq<string>)
    requires !HasKey(ms, e.key)
    requires forall i, j :: 0 <= i < j < |keys| ==> keys[i] != keys[j]
    ensures MaximaSum(ms + [e], keys) == MaximaSum(ms, keys) + (if e.key in keys then e.value else 0)
  {
    if keys != [] {
      var front := keys[..|keys| - 1];
      var k := keys[|keys| - 1];
      MaximaSumAppend(ms, e, front);
      GetAppend(ms, e, k, 0);
      assert keys == front + [k];
      if k == e.key {
        assert e.key !in front;
      }
    }
  }

  /** The maxima of distinct keys never add up to more than the whole structure. */
  lemma {:induction false} MaximaSumBound(ms: Structure, keys: seq<string>)
    requires UniqueKeys(ms) && NonNegativeValues(ms)
    requires forall i, j :: 0 <= i < j < |keys| ==> keys[i] != keys[j]
    ensures MaximaSum(ms, keys) <= StructureSum(ms)
  {
    if ms == [] {
      MaximaSumEmpty(keys);
    } else {
      var p := ms[..|ms| - 1];
      var e := ms[|ms| - 1];
      assert ms == p + [e];
      assert !HasKey(p, e.key);
      MaximaSumBound(p, keys);
      MaximaSumAppend(p, e, keys);
    }
  }

  lemma {:induction false} MaximaSumEmpty(keys: seq<string>)
    ensures MaximaSum([], keys) == 0
  {
    if keys != [] {
      MaximaSumEmpty(keys[..|keys| - 1]);
    }
  }

  /** Accepted marks for the first n items sum to at most those items' maxima. */
  lemma {:induction false} AcceptedPrefixWithinMaxima(marks: ItemMarks, ms: Structure, n: nat)
    requires n <= ItemCount && Grades.Acceptable(marks, ms) && NonNegativeValues(ms)
    ensures MarkSum(marks[..n]) <= MaximaSum(ms, ItemKeys()[..n]) as real
  {
    if n > 0 {
      AcceptedPrefixWithinMaxima(marks, ms, n - 1);
      assert marks[..n][..n - 1] == marks[..n - 1];
      assert ItemKeys()[..n][..n - 1] == ItemKeys()[..n - 1];
      assert Grades.ItemError(marks, n - 1, ms).None?;
      var max := Get(ms, ItemKey(n), 0);
      assert max >= 0;
      assert MarkSum(marks[..n]) == MarkSum(marks[..n - 1]) + OrZero(marks[n - 1]);
      assert MaximaSum(ms, ItemKeys()[..n]) == MaximaSum(ms, ItemKeys()[..n - 1]) + max;
    }
  }

  /** The total of a grade that passed validation never exceeds the total
      stored with its rubric, provided the rubric's maxima are non-negative. */
  lemma AcceptedTotalWithinRubric(marks: ItemMarks, ms: Structure)
    requires Grades.Acceptable(marks, ms)
    requires UniqueKeys(ms) && NonNegativeValues(ms)
    ensures MarkSum(marks) <= StructureSum(ms) as real
  {
    AcceptedPrefixWithinMaxima(marks, ms, ItemCount);
    assert marks[..ItemCount] == marks;
    assert ItemKeys()[..ItemCount] == ItemKeys();
    MaximaSumBound(ms, ItemKeys());
  }
}
