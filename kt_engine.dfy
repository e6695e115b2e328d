/**
 * Bayesian Knowledge Tracing step of the tutoring backend (the KtEngine service).
 * Mastery is a probability; one observed answer turns the prior into a posterior
 * with fixed guess and slip rates, then the transit rate adds the chance that the
 * student learned the concept on this opportunity.
 */
module KtEngine {

  /** Probability of a correct answer without mastery. */
  const PGuess: real := 0.2
  /** Probability of a wrong answer despite mastery. */
  const PSlip: real := 0.1
  /** Probability of learning the concept on one opportunity. */
  const PTransit: real := 0.1

  predicate IsProbability(m: real) {
    0.0 <= m <= 1.0
  }

  /** Numerator of the Bayesian update: the mastered share of the observation. */
  function Evidence(m: real, isCorrect: bool): real {
    if isCorrect then m * (1.0 - PSlip) else m * PSlip
  }

  /** Denominator of the Bayesian update: total probability of the observation. */
  function Denominator(m: real, isCorrect: bool): (d: real)
    requires IsProbability(m)
    ensures isCorrect ==> d == 0.2 + 0.7 * m && d >= 0.2
    ensures !isCorrect ==> d == 0.8 - 0.7 * m && d >= 0.1
  {
    Evidence(m, isCorrect) + (1.0 - m) * (if isCorrect then PGuess else 1.0 - PGuess)
  }

  /** P(mastered | observation), before the transit step. */
  function Posterior(m: real, isCorrect: bool): (p: real)
    requires IsProbability(m)
    ensures IsProbability(p)
  {
    var e, d := Evidence(m, isCorrect), Denominator(m, isCorrect);
    QuotientIsProbability(e, d);
    e / d
  }

  lemma QuotientIsProbability(e: real, d: real)
    requires 0.0 <= e <= d && d > 0.0
    ensures IsProbability(e / d)
  {
    assert e / d * d == e;
  }

  /** A real whose product with a positive factor is non-negative is non-negative. */
  lemma NonNegativeFactor(x: real, k: real)
    requires k > 0.0 && x * k >= 0.0
    ensures x >= 0.0
  {
  }

  lemma ProductNonNegative(a: real, b: real)
    requires a >= 0.0 && b >= 0.0
    ensures a * b >= 0.0
  {
  }

  /** KtEngine.updateMastery: the posterior plus the transit step. */
  function UpdateMastery(m: real, isCorrect: bool): (r: real)
    requires IsProbability(m)
    ensures PTransit <= r <= 1.0
  {
    var posterior := Posterior(m, isCorrect);
    posterior + (1.0 - posterior) * PTransit
  }

  /** The result is an increasing affine image of the posterior. */
  lemma UpdateIsAffineInPosterior(m: real, isCorrect: bool)
    requires IsProbability(m)
    ensures UpdateMastery(m, isCorrect) == 0.9 * Posterior(m, isCorrect) + 0.1
  {
  }

  /** A correct answer never lowers mastery. */
  lemma {:induction false} CorrectNeverLowers(m: real)
    requires IsProbability(m)
    ensures UpdateMastery(m, true) >= m
  {
    var d := Denominator(m, true);
    var p := Posterior(m, true);
    assert p * d == 0.9 * m;
    // 0.9 p + 0.1 >= m  <==  (0.9 p + 0.1) d >= m d, i.e. (1 - m)(0.7 m + 0.02) >= 0
    assert (0.9 * p + 0.1) * d == 0.88 * m + 0.02;
    assert m * d == 0.2 * m + 0.7 * m * m;
    ProductNonNegative(1.0 - m, 0.7 * m + 0.02);
    assert (0.9 * p + 0.1 - m) * d == (1.0 - m) * (0.7 * m + 0.02);
    NonNegativeFactor(0.9 * p + 0.1 - m, d);
    UpdateIsAffineInPosterior(m, true);
  }

  /** After a wrong answer the Bayesian posterior never exceeds the prior. */
  lemma {:induction false} IncorrectPosteriorAtMostPrior(m: real)
    requires IsProbability(m)
    ensures Posterior(m, false) <= m
  {
    var d := Denominator(m, false);
    var p := Posterior(m, false);
    assert p * d == 0.1 * m;
    assert m * d - 0.1 * m == 0.7 * m * (1.0 - m);
    assert m * (1.0 - m) >= 0.0;
    assert p * d <= m * d;
  }

  /** For the same prior, a correct answer yields at least the mastery of a wrong one. */
  lemma {:induction false} CorrectDominatesIncorrect(m: real)
    requires IsProbability(m)
    ensures UpdateMastery(m, true) >= UpdateMastery(m, false)
  {
    var dc, di := Denominator(m, true), Denominator(m, false);
    var pc, pi := Posterior(m, true), Posterior(m, false);
    assert pc * dc == 0.9 * m;
    assert pi * di == 0.1 * m;
    // pc - pi has the sign of 0.9 m di - 0.1 m dc = 0.7 m (1 - m)
    assert (pc - pi) * dc * di == 0.9 * m * di - 0.1 * m * dc;
    assert 0.9 * m * di - 0.1 * m * dc == 0.7 * m * (1.0 - m);
    assert m * (1.0 - m) >= 0.0;
    assert dc * di > 0.0;
    assert pc >= pi;
    UpdateIsAffineInPosterior(m, true);
    UpdateIsAffineInPosterior(m, false);
  }

  /** Full mastery is kept whatever the answer; no mastery becomes exactly PTransit. */
  lemma FixedPoints(isCorrect: bool)
    ensures UpdateMastery(1.0, isCorrect) == 1.0
    ensures UpdateMastery(0.0, isCorrect) == PTransit
  {
  }

  /** For a fixed observation the update is monotone in the prior. */
  lemma {:induction false} UpdateMonotone(m1: real, m2: real, isCorrect: bool)
    requires IsProbability(m1) && IsProbability(m2) && m1 <= m2
    ensures UpdateMastery(m1, isCorrect) <= UpdateMastery(m2, isCorrect)
  {
    var d1, d2 := Denominator(m1, isCorrect), Denominator(m2, isCorrect);
    var p1, p2 := Posterior(m1, isCorrect), Posterior(m2, isCorrect);
    assert p1 * d1 == Evidence(m1, isCorrect);
    assert p2 * d2 == Evidence(m2, isCorrect);
    // p2 - p1 has the sign of e2 d1 - e1 d2, which is 0.18 (m2 - m1) or 0.08 (m2 - m1)
    assert (p2 - p1) * d1 * d2 == Evidence(m2, isCorrect) * d1 - Evidence(m1, isCorrect) * d2;
    if isCorrect {
      assert Evidence(m2, isCorrect) * d1 - Evidence(m1, isCorrect) * d2 == 0.18 * (m2 - m1);
    } else {
      assert Evidence(m2, isCorrect) * d1 - Evidence(m1, isCorrect) * d2 == 0.08 * (m2 - m1);
    }
    ProductNonNegative(d1, d2);
    assert d1 * d2 > 0.0;
    assert (p2 - p1) * (d1 * d2) >= 0.0;
    NonNegativeFactor(p2 - p1, d1 * d2);
    UpdateIsAffineInPosterior(m1, isCorrect);
    UpdateIsAffineInPosterior(m2, isCorrect);
  }

  /**
   * Reference values: from an even prior, 46/55 after a correct answer and 1/5 after
   * a wrong one; from 0.1, 0.4 after a correct answer.
   */
  lemma HalfPriorValues()
    ensures UpdateMastery(0.5, true) == 46.0 / 55.0
    ensures UpdateMastery(0.5, false) == 1.0 / 5.0
    ensures UpdateMastery(0.1, true) == 0.4
  {
    assert Posterior(0.5, true) == 9.0 / 11.0;
    assert Posterior(0.5, false) == 1.0 / 9.0;
    assert Posterior(0.1, true) == 1.0 / 3.0;
  }
}
