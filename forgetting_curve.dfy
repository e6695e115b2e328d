/**
 * The forgetting curve R(t) = e^(-t/S), solved for the time at which retention falls
 * to a target: t = -S * ln(target) days after the last review. Timestamps are
 * milliseconds, as returned by Date.getTime().
 */
module ForgettingCurve {

  /** 24 * 60 * 60 * 1000 milliseconds. */
  const MsPerDay: real := 86400000.0

  /**
   * Math.log, known only through the facts the scheduling relies on: it is strictly
   * increasing on the positive reals and vanishes at 1. Any such function may be
   * supplied; x - 1 is one.
   */
  type Log = ln: real -> real
    | (forall x, y :: 0.0 < x < y ==> ln(x) < ln(y)) && ln(1.0) == 0.0
    witness (x: real) => x - 1.0

  /**
   * Math.log(0.7) as the runtime's double-precision result; the default retention
   * target's logarithm, which the answer path inlines as a constant computation.
   */
  const LnDefaultRetention: real := -0.35667494393873245

  /** The logarithm of a retention target strictly between 0 and 1 is negative. */
  lemma LogBelowOneNegative(ln: Log, x: real)
    requires 0.0 < x < 1.0
    ensures ln(x) < 0.0
  {
    assert ln(x) < ln(1.0);
  }

  /** The logarithm is strictly increasing, so a higher target gives a smaller magnitude. */
  lemma LogMonotone(ln: Log, x: real, y: real)
    requires 0.0 < x < y
    ensures ln(x) < ln(y)
  {
  }

  /**
   * When retention reaches the target, given the target's logarithm: lastReview plus
   * -stability * lnTarget days.
   */
  function ReviewTime(lastReview: real, stability: real, lnTarget: real): (t: real)
    ensures stability > 0.0 && lnTarget < 0.0 ==> t > lastReview
  {
    PositiveProduct(stability, -lnTarget);
    lastReview + (-stability * lnTarget) * MsPerDay
  }

  lemma PositiveProduct(a: real, b: real)
    ensures a > 0.0 && b > 0.0 ==> a * b > 0.0
  {
  }

  /** A stable memory is reviewed later: the review time is strictly increasing in stability. */
  lemma {:induction false} ReviewTimeIncreasing(lastReview: real, s1: real, s2: real, lnTarget: real)
    requires s1 < s2 && lnTarget < 0.0
    ensures ReviewTime(lastReview, s1, lnTarget) < ReviewTime(lastReview, s2, lnTarget)
  {
    PositiveProduct(s2 - s1, -lnTarget);
    assert -s2 * lnTarget - -s1 * lnTarget == (s2 - s1) * -lnTarget;
  }

  /** A logarithm of larger magnitude (a lower target) gives a strictly later review. */
  lemma {:induction false} ReviewTimeTargetMonotone(lastReview: real, stability: real, ln1: real, ln2: real)
    requires stability > 0.0 && ln1 < ln2
    ensures ReviewTime(lastReview, stability, ln2) < ReviewTime(lastReview, stability, ln1)
  {
    PositiveProduct(stability, ln2 - ln1);
    assert -stability * ln1 - -stability * ln2 == stability * (ln2 - ln1);
  }

  /** The interval does not depend on when the last review was. */
  lemma ReviewTimeShift(lastReview: real, d: real, stability: real, lnTarget: real)
    ensures ReviewTime(lastReview + d, stability, lnTarget) == ReviewTime(lastReview, stability, lnTarget) + d
  {
  }

  /** The interval, in milliseconds, for stability 1: -ln(target) days. */
  function UnitInterval(lnTarget: real): (u: real)
    ensures lnTarget < 0.0 ==> u > 0.0
  {
    -lnTarget * MsPerDay
  }

  /** The interval is proportional to stability. */
  lemma ReviewIntervalLinear(lastReview: real, stability: real, lnTarget: real)
    ensures ReviewTime(lastReview, stability, lnTarget) - lastReview == stability * UnitInterval(lnTarget)
  {
  }
}
