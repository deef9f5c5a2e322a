/** The final-score bands shown when a quiz is completed. The source computes
    `pct = (score / answered) * 100` and walks an if/elif chain with inclusive
    lower bounds 75, 50 and 25. Here the percentage is an exact `real`, and
    the same chain is also given on integers, comparing `100 * score` with
    `k * answered`; the two are proved to agree. */
module Scoring {

  datatype Band = Excellent | Good | Encouraging | NeedsImprovement

  /** Inclusive lower bound, in percent, of each band. */
  function LowerBound(b: Band): nat {
    match b
    case Excellent => 75
    case Good => 50
    case Encouraging => 25
    case NeedsImprovement => 0
  }

  /** The percentage of correct answers, over the questions answered. */
  function Percent(score: nat, answered: nat): (pct: real)
    requires answered > 0
    ensures 0.0 <= pct
    ensures score <= answered ==> pct <= 100.0
  {
    var ratio := score as real / answered as real;
    assert score <= answered ==> ratio <= 1.0 by {
      DivAtLeast(score as real, answered as real, 1.0);
    }
    ratio * 100.0
  }

  /** The source's if/elif chain on the percentage. */
  function BandOfPercent(pct: real): (b: Band)
    ensures LowerBound(b) as real <= pct || b == NeedsImprovement
    ensures b != Excellent ==> pct < (LowerBound(b) + 25) as real
  {
    if pct >= 75.0 then Excellent
    else if pct >= 50.0 then Good
    else if pct >= 25.0 then Encouraging
    else NeedsImprovement
  }

  /** The same chain without division: `pct >= k` is `100 * score >= k * answered`. */
  function BandOf(score: nat, answered: nat): (b: Band)
    requires answered > 0
    ensures LowerBound(b) * answered <= 100 * score
  {
    if 100 * score >= 75 * answered then Excellent
    else if 100 * score >= 50 * answered then Good
    else if 100 * score >= 25 * answered then Encouraging
    else NeedsImprovement
  }

  /** For every threshold k, comparing the percentage with k is comparing
      `100 * score` with `k * answered`. */
  lemma PercentAtLeast(score: nat, answered: nat, k: nat)
    requires answered > 0
    ensures Percent(score, answered) >= k as real <==> 100 * score >= k * answered
  {
    var s, a := score as real, answered as real;
    calc {
      Percent(score, answered);
      (s / a) * 100.0;
      (100.0 * s) / a;
    }
    assert (100.0 * s) / a >= k as real <==> 100.0 * s >= k as real * a by {
      DivAtLeast(100.0 * s, a, k as real);
    }
    assert (100 * score) as real == 100.0 * s;
    assert (k * answered) as real == k as real * a;
  }

  lemma DivAtLeast(x: real, a: real, k: real)
    requires a > 0.0
    ensures x / a >= k <==> x >= k * a
  {
    assert x == (x / a) * a;
    if x / a >= k {
      assert (x / a) * a >= k * a;
    } else {
      assert (x / a) * a < k * a;
    }
  }

  /** The integer banding is the source's banding of the exact percentage. */
  lemma BandOfMatchesPercent(score: nat, answered: nat)
    requires answered > 0
    ensures BandOf(score, answered) == BandOfPercent(Percent(score, answered))
  {
    PercentAtLeast(score, answered, 75);
    PercentAtLeast(score, answered, 50);
    PercentAtLeast(score, answered, 25);
  }

  /** Each band is exactly the range from its lower bound (inclusive) to
      the next band's lower bound (exclusive). */
  lemma BandRange(score: nat, answered: nat, b: Band)
    requires answered > 0
    ensures BandOf(score, answered) == b <==>
              && LowerBound(b) * answered <= 100 * score
              && (b != Excellent ==> 100 * score < (LowerBound(b) + 25) * answered)
  {
  }

  /** Rank of a band, best first. */
  function Rank(b: Band): nat {
    match b
    case Excellent => 3
    case Good => 2
    case Encouraging => 1
    case NeedsImprovement => 0
  }

  /** More correct answers over the same number answered never give a lower band. */
  lemma BandMonotonic(s1: nat, s2: nat, answered: nat)
    requires answered > 0 && s1 <= s2
    ensures Rank(BandOf(s1, answered)) <= Rank(BandOf(s2, answered))
  {
  }

  /** The sample percentages and the three boundaries: 80, 60, 30 and 10
      percent, then exactly 75, 50 and 25 percent. */
  lemma BandExamples()
    ensures BandOf(4, 5) == Excellent && BandOf(3, 5) == Good
    ensures BandOf(3, 10) == Encouraging && BandOf(1, 10) == NeedsImprovement
    ensures BandOf(3, 4) == Excellent && BandOf(1, 2) == Good && BandOf(1, 4) == Encouraging
    ensures BandOf(1, 2) == BandOfPercent(50.0)
  {
    BandOfMatchesPercent(1, 2);
  }
}
