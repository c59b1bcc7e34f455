/** How the reports combine two graders' marks: the per-item average, the
    Q1–Q9 subtotal, the final total with Q10, and the status and pass/fail
    decisions. The report endpoints repeat this calculation three times; it
    is defined here once, and the summary export's variant (which keeps only
    the averages that are present) is proved to give the same subtotal. */
module Scoring {
  import opened Common
  import opened Models

  /** The mark of item k in a grader's record; absent when there is no record. */
  function MarkOf(g: Option<Grade>, k: nat): (m: Option<real>)
    requires k < ItemCount
    ensures g.None? ==> m.None?
  {
    if g.Some? then g.value.marks[k] else None
  }

  /** The per-item average of the two graders' marks. */
  function Average(m1: Option<real>, m2: Option<real>): (a: Option<real>)
    ensures a.None? <==> m1.None? && m2.None?
  {
    if m1.Some? && m2.Some? then Some((m1.value + m2.value) / 2.0)
    else if m1.Some? then m1
    else m2
  }

  /** Two marks give their mean, which lies between them; a single mark is
      taken as it is (a missing mark never counts as 0); the order of the
      graders does not matter, and two equal marks average to that mark. */
  lemma AverageProperties(m1: Option<real>, m2: Option<real>)
    ensures m1.Some? && m2.Some? ==>
      && Average(m1, m2).value * 2.0 == m1.value + m2.value
      && ((m1.value <= Average(m1, m2).value <= m2.value) || (m2.value <= Average(m1, m2).value <= m1.value))
    ensures m2.None? ==> Average(m1, m2) == m1
    ensures m1.None? ==> Average(m1, m2) == m2
    ensures Average(m1, m2) == Average(m2, m1)
    ensures m1 == m2 ==> Average(m1, m2) == m1
  {
  }

  /** The nine per-item averages of the two slots' records. */
  function ItemAverages(g1: Option<Grade>, g2: Option<Grade>): (avg: ItemMarks)
    ensures forall k :: 0 <= k < ItemCount ==> avg[k] == Average(MarkOf(g1, k), MarkOf(g2, k))
  {
    seq(ItemCount, k requires 0 <= k < ItemCount => Average(MarkOf(g1, k), MarkOf(g2, k)))
  }

  /** With a single grader the averages are that grader's marks. */
  lemma SingleGraderAverages(g: Grade)
    ensures ItemAverages(Some(g), None) == g.marks
    ensures ItemAverages(None, Some(g)) == g.marks
  {
  }

  /** The Q1–Q9 subtotal: the sum of the averages that are present. */
  function Subtotal(g1: Option<Grade>, g2: Option<Grade>): real {
    MarkSum(ItemAverages(g1, g2))
  }

  /** Item by item, the sum of means is the mean of the sums, provided the
      two graders marked the same items. */
  lemma {:induction false} MeanOfSums(avg: seq<Option<real>>, m1: seq<Option<real>>, m2: seq<Option<real>>)
    requires |avg| == |m1| == |m2|
    requires forall k :: 0 <= k < |avg| ==> m1[k].Some? == m2[k].Some? && avg[k] == Average(m1[k], m2[k])
    ensures MarkSum(avg) * 2.0 == MarkSum(m1) + MarkSum(m2)
  {
    if avg != [] {
      var n := |avg| - 1;
      MeanOfSums(avg[..n], m1[..n], m2[..n]);
    }
  }

  /** A single grader's subtotal is that grader's total; two graders who
      marked the same items get the mean of their two totals. */
  lemma SubtotalOfGraders(g1: Grade, g2: Grade)
    ensures Subtotal(Some(g1), None) == MarkSum(g1.marks)
    ensures (forall k :: 0 <= k < ItemCount ==> g1.marks[k].Some? == g2.marks[k].Some?) ==>
      Subtotal(Some(g1), Some(g2)) * 2.0 == MarkSum(g1.marks) + MarkSum(g2.marks)
  {
    SingleGraderAverages(g1);
    if forall k :: 0 <= k < ItemCount ==> g1.marks[k].Some? == g2.marks[k].Some? {
      MeanOfSums(ItemAverages(Some(g1), Some(g2)), g1.marks, g2.marks);
    }
  }

  /** Averages of non-negative marks are non-negative, and so is the subtotal. */
  lemma SubtotalNonNegative(g1: Option<Grade>, g2: Option<Grade>)
    requires g1.Some? ==> NonNegative(g1.value.marks)
    requires g2.Some? ==> NonNegative(g2.value.marks)
    ensures NonNegative(ItemAverages(g1, g2))
    ensures Subtotal(g1, g2) >= 0.0
  {
    MarkSumBounds(ItemAverages(g1, g2));
  }

  /** The final total: defined only when the subtotal is positive and Q10 is
      set, and then the subtotal plus Q10. */
  function FinalTotal(subtotal: real, q10: Option<real>): (f: Option<real>)
    ensures f.Some? <==> subtotal > 0.0 && q10.Some?
    ensures f.Some? ==> f.value - q10.value == subtotal
  {
    if subtotal > 0.0 && q10.Some? then Some(subtotal + q10.value) else None
  }

  /** A final total always exceeds its Q10, so with a non-negative Q10 it is
      positive. */
  lemma FinalExceedsQ10(subtotal: real, q10: Option<real>)
    requires FinalTotal(subtotal, q10).Some?
    ensures FinalTotal(subtotal, q10).value > q10.value
    ensures q10.value >= 0.0 ==> FinalTotal(subtotal, q10).value > 0.0
  {
  }

  // ----- the summary export's variant of the subtotal -----

  /** The averages that are present, in item order. */
  function Present(avg: seq<Option<real>>): (r: seq<real>)
    ensures |r| <= |avg|
  {
    if avg == [] then []
    else Present(avg[..|avg| - 1]) + (if avg[|avg| - 1].Some? then [avg[|avg| - 1].value] else [])
  }

  function Sum(xs: seq<real>): real {
    if xs == [] then 0.0 else Sum(xs[..|xs| - 1]) + xs[|xs| - 1]
  }

  lemma {:induction false} SumAppend(xs: seq<real>, x: real)
    ensures Sum(xs + [x]) == Sum(xs) + x
  {
    assert (xs + [x])[..|xs|] == xs;
  }

  /** `sum(avg_marks) if avg_marks else 0` over the present averages. */
  function SummarySubtotal(present: seq<real>): real {
    if present == [] then 0.0 else Sum(present)
  }

  lemma {:induction false} SumOfPresent(avg: seq<Option<real>>)
    ensures Sum(Present(avg)) == MarkSum(avg)
  {
    if avg != [] {
      var n := |avg| - 1;
      SumOfPresent(avg[..n]);
      if avg[n].Some? {
        SumAppend(Present(avg[..n]), avg[n].value);
      } else {
        assert Present(avg) == Present(avg[..n]);
      }
    }
  }

  /** The three copies of the subtotal agree: summing the present values of
      the average list (the student results and the detailed export) and the
      summary export's `sum(...) if ... else 0` both give the subtotal. */
  lemma SubtotalCopiesAgree(avg: seq<Option<real>>)
    ensures Sum(Present(avg)) == MarkSum(avg)
    ensures SummarySubtotal(Present(avg)) == MarkSum(avg)
  {
    SumOfPresent(avg);
  }

  // ----- statuses and the pass/fail verdict -----

  datatype Status = Unfinished | Completed | Pending

  datatype Verdict = Passed | Failed | NoVerdict

  const PassMark: real := 80.0

  /** The detailed export's status: an unfinished exam first, then the
      completed flag, otherwise pending. */
  function DetailedStatus(a: Assignment): (s: Status)
    ensures s == Unfinished <==> a.examIncomplete
    ensures s == Completed <==> !a.examIncomplete && a.completed
    ensures s == Pending <==> !a.examIncomplete && !a.completed
  {
    if a.examIncomplete then Unfinished
    else if a.completed then Completed
    else Pending
  }

  /** The summary export's status and verdict: an unfinished exam fails
      whatever its score; otherwise a final total decides (pass from 80 up),
      and without one there is no verdict. */
  function SummaryDecision(examIncomplete: bool, final: Option<real>): (d: (Status, Verdict))
    ensures examIncomplete ==> d == (Unfinished, Failed)
    ensures !examIncomplete ==> (d.1 == Passed <==> final.Some? && final.value >= PassMark)
    ensures !examIncomplete ==> (d.1 == NoVerdict <==> final.None?)
    ensures d.0 == Completed <==> !examIncomplete && final.Some?
    ensures d.0 == Pending <==> d.1 == NoVerdict
  {
    if examIncomplete then (Unfinished, Failed)
    else if final.Some? then (Completed, if final.value >= PassMark then Passed else Failed)
    else (Pending, NoVerdict)
  }

  /** A higher final total never turns a pass into a fail. */
  lemma VerdictMonotone(f1: real, f2: real)
    requires f1 <= f2 && SummaryDecision(false, Some(f1)).1 == Passed
    ensures SummaryDecision(false, Some(f2)).1 == Passed
  {
  }

  /** A completed assignment of a finished exam with a positive subtotal is
      completed in the summary export as well. */
  lemma CompletedInBothExports(a: Assignment, subtotal: real)
    requires a.Consistent() && DetailedStatus(a) == Completed && subtotal > 0.0
    ensures SummaryDecision(a.examIncomplete, FinalTotal(subtotal, a.q10)).0 == Completed
  {
  }

  /** The converse fails: the summary export calls an assignment completed as
      soon as it has a final total, while the detailed export still shows it
      pending until the completed flag is set (here one grader has submitted
      and Q10 is set, so the flag is still false). */
  lemma StatusesCanDisagree()
    ensures var a := Assignment(1, 2, 3, None, Some(5.0), true, false, false, false);
      && a.Consistent()
      && DetailedStatus(a) == Pending
      && SummaryDecision(a.examIncomplete, FinalTotal(40.0, a.q10)) == (Completed, Failed)
  {
  }
}
