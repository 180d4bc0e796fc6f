/** The progress percentage shown while numbers are validated. */
module Progress {
  import opened Records

  /** From `a * t < b * t` with `t > 0`, `a < b`. */
  lemma MulLtCancel(a: int, b: int, t: int)
    requires t > 0 && a * t < b * t
    ensures a < b
  {
  }

  /** `Math.round(done / total * 100)` in exact arithmetic: the integer nearest to
      `100 * done / total`, halves rounded up. */
  function Percent(done: nat, total: nat): (p: nat)
    requires total > 0
    ensures (2 * p - 1) * total <= 200 * done < (2 * p + 1) * total
  {
    var x := 200 * done + total;
    var y := 2 * total;
    var q := x / y;
    assert y * q <= x < y * q + y;
    assert (2 * q - 1) * total == y * q - total;
    assert (2 * q + 1) * total == y * q + y - total;
    q
  }

  /** Two naturals that both round `100 * done / total` are the same. */
  lemma PercentUnique(done: nat, total: nat, p: nat)
    requires total > 0
    requires (2 * p - 1) * total <= 200 * done < (2 * p + 1) * total
    ensures p == Percent(done, total)
  {
    var q: int := Percent(done, total);
    MulLtCancel(2 * p - 1, 2 * q + 1, total);
    MulLtCancel(2 * q - 1, 2 * p + 1, total);
  }

  /** More rows done never shows a smaller percentage. */
  lemma PercentMonotone(d1: nat, d2: nat, total: nat)
    requires total > 0 && d1 <= d2
    ensures Percent(d1, total) <= Percent(d2, total)
  {
    var p1: int, p2: int := Percent(d1, total), Percent(d2, total);
    MulLtCancel(2 * p1 - 1, 2 * p2 + 1, total);
  }

  /** All rows done is exactly 100. */
  lemma PercentAll(total: nat)
    requires total > 0
    ensures Percent(total, total) == 100
  {
    PercentUnique(total, total, 100);
  }

  /** At most all rows done is at most 100. */
  lemma PercentAtMost100(done: nat, total: nat)
    requires 0 < total && done <= total
    ensures Percent(done, total) <= 100
  {
    PercentMonotone(done, total, total);
    PercentAll(total);
  }

  /** The value of `progress` after the first `i` rows of a run over `|outcomes|` rows
      that started at 0: a row whose request threw leaves it as it was, a row that got a
      response sets it to the percentage of rows done. */
  function ProgressAfter(outcomes: seq<Outcome>, i: nat): (p: nat)
    requires i <= |outcomes|
    ensures p <= 100
  {
    if i == 0 then 0
    else if outcomes[i - 1].Failure? then ProgressAfter(outcomes, i - 1)
    else
      PercentAtMost100(i, |outcomes|);
      Percent(i, |outcomes|)
  }

  /** One step of the run: a row whose request threw leaves the progress unchanged, a row
      that got a response sets it to the rounded percentage of rows done. (One unfolding of
      `ProgressAfter`'s definition, stated for the reader; it adds nothing beyond the definition.) */
  lemma ProgressStep(outcomes: seq<Outcome>, i: nat)
    requires i < |outcomes|
    ensures outcomes[i].Failure? ==> ProgressAfter(outcomes, i + 1) == ProgressAfter(outcomes, i)
    ensures outcomes[i].Response? ==> ProgressAfter(outcomes, i + 1) == Percent(i + 1, |outcomes|)
  {
  }

  /** Progress after `i >= 1` rows never exceeds the percentage of `i` rows done. */
  lemma {:induction false} ProgressAtMostPercent(outcomes: seq<Outcome>, i: nat)
    requires 1 <= i <= |outcomes|
    ensures ProgressAfter(outcomes, i) <= Percent(i, |outcomes|)
  {
    if outcomes[i - 1].Failure? && i > 1 {
      ProgressAtMostPercent(outcomes, i - 1);
      PercentMonotone(i - 1, i, |outcomes|);
    }
  }

  /** Progress never decreases during a run. */
  lemma {:induction false} ProgressMonotone(outcomes: seq<Outcome>, i: nat, j: nat)
    requires i <= j <= |outcomes|
    ensures ProgressAfter(outcomes, i) <= ProgressAfter(outcomes, j)
    decreases j
  {
    if i < j {
      ProgressMonotone(outcomes, i, j - 1);
      if outcomes[j - 1].Response? && j > 1 {
        ProgressAtMostPercent(outcomes, j - 1);
        PercentMonotone(j - 1, j, |outcomes|);
      }
    }
  }

  /** A run whose last row got a response ends at 100 (before the reset). */
  lemma ProgressComplete(outcomes: seq<Outcome>)
    requires |outcomes| > 0 && outcomes[|outcomes| - 1].Response?
    ensures ProgressAfter(outcomes, |outcomes|) == 100
  {
    PercentAll(|outcomes|);
  }
}
