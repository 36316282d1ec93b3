/**
 * The one percentage formula the handlers use three times: a part of a whole
 * times one hundred, and zero when the whole is not positive. The test score,
 * a course's lesson progress and the overall course progress all use it.
 */
module Percentages {

  /** The passing threshold of a course test, in percent. */
  const PassMark: int := 70

  /** `part / whole * 100 if whole > 0 else 0`, computed exactly. */
  function Percent(part: int, whole: int): (r: real)
    ensures whole <= 0 ==> r == 0.0
    ensures whole > 0 ==> r * (whole as real) == 100.0 * (part as real)
  {
    if whole > 0 then (part as real) / (whole as real) * 100.0 else 0.0
  }

  /** A percentage that reaches the passing threshold. */
  predicate ReachesPassMark(percentage: real)
  {
    percentage >= PassMark as real
  }

  /** A test result passes when its percentage reaches the threshold. */
  predicate Passed(score: int, total: int)
  {
    ReachesPassMark(Percent(score, total))
  }

  /** A percentage of exactly one hundred. */
  predicate IsFullMark(percentage: real)
  {
    percentage == 100.0
  }

  /** A test result is perfect when its percentage is exactly one hundred. */
  predicate Perfect(score: int, total: int)
  {
    IsFullMark(Percent(score, total))
  }

  /**
   * Passing, in integers: there is something to score, and one hundred times
   * the score reaches seventy times the total. A test with no points is never passed.
   */
  lemma PassedIff(score: int, total: int)
    ensures Passed(score, total) <==> total > 0 && 100 * score >= PassMark * total
  {
    if total > 0 {
      var r := Percent(score, total);
      var w := total as real;
      assert r * w == 100.0 * (score as real);
      assert Passed(score, total) <==> r >= 70.0;
      assert r >= 70.0 ==> r * w >= 70.0 * w by {
        if r >= 70.0 {
          assert (r - 70.0) * w >= 0.0;
        }
      }
      assert r < 70.0 ==> r * w < 70.0 * w by {
        if r < 70.0 {
          assert (70.0 - r) * w > 0.0;
        }
      }
    }
  }

  /** A result is perfect exactly when there are points to score and all of them were scored. */
  lemma PerfectIff(score: int, total: int)
    ensures Perfect(score, total) <==> total > 0 && score == total
  {
    if total > 0 {
      var r := Percent(score, total);
      var w := total as real;
      assert r * w == 100.0 * (score as real);
      assert r == 100.0 ==> score == total by {
        if r == 100.0 {
          assert 100.0 * w == 100.0 * (score as real);
        }
      }
      assert score == total ==> r == 100.0 by {
        if score == total {
          assert (r - 100.0) * w == 0.0;
        }
      }
    }
  }

  /** A perfect result is a passing one. */
  lemma PerfectIsPassed(score: int, total: int)
    requires Perfect(score, total)
    ensures Passed(score, total)
  {
    PerfectIff(score, total);
    PassedIff(score, total);
  }

  /** A part between nothing and the whole gives a percentage between 0 and 100. */
  lemma PercentBounds(part: int, whole: int)
    requires 0 <= part <= whole
    ensures 0.0 <= Percent(part, whole) <= 100.0
  {
    if whole > 0 {
      var r := Percent(part, whole);
      var w := whole as real;
      assert r * w == 100.0 * (part as real);
      assert r * w <= 100.0 * w;
      assert r * w >= 0.0;
    }
  }

  /** A larger part of the same whole never gives a smaller percentage. */
  lemma PercentMonotonic(part: int, part': int, whole: int)
    requires part <= part'
    ensures Percent(part, whole) <= Percent(part', whole)
  {
    if whole > 0 {
      var w := whole as real;
      var r, r' := Percent(part, whole), Percent(part', whole);
      assert r * w <= r' * w;
      assert (r' - r) * w >= 0.0;
    }
  }
}
