/** Products with a positive factor, and how many steps of one size cover a distance. */
module Arithmetic {
  lemma Times(a: int, b: int, d: int)
    requires d >= 0 && a <= b
    ensures a * d <= b * d
  {
  }

  lemma RealTimes(a: real, b: real, k: real)
    requires a <= b && k > 0.0
    ensures a * k <= b * k && (a < b ==> a * k < b * k)
  {
  }

  // ---- how many steps cover a distance ----

  type Positive = t: real | t > 0.0 witness 1.0

  /** `k` steps. */
  function Steps(k: nat, step: real): (r: real) {
    k as real * step
  }

  lemma StepsNext(k: nat, step: real)
    ensures Steps(0, step) == 0.0 && Steps(k + 1, step) == Steps(k, step) + step
  {
  }

  /** The least number of steps that cover a distance: its quotient rounded up. */
  function StepsToCover(length: real, step: Positive): (n: nat)
    ensures Steps(n, step) >= length && (n > 0 ==> Steps(n - 1, step) < length)
  {
    if length <= 0.0 then 0
    else
      Covers(length, step);
      -(-(length / step)).Floor
  }

  lemma Covers(length: real, step: Positive)
    requires length > 0.0
    ensures var n := -(-(length / step)).Floor;
            n > 0 && n as real * step >= length && (n - 1) as real * step < length
  {
    var q := length / step;
    Ceiling(q);
    Covered(length, step, q, -(-q).Floor);
  }

  lemma Covered(length: real, step: Positive, q: real, n: int)
    requires length > 0.0 && q == length / step && (n - 1) as real < q <= n as real
    ensures n > 0 && n as real * step >= length && (n - 1) as real * step < length
  {
    assert q * step == length;
    if q <= 0.0 { RealTimes(q, 0.0, step); }
    RealTimes(q, n as real, step);
    RealTimes((n - 1) as real, q, step);
  }

  lemma Ceiling(q: real)
    ensures var n := -(-q).Floor; (n - 1) as real < q <= n as real
  {
  }

  lemma BelowCover(k: nat, step: Positive, used: real, length: real)
    requires Steps(k, step) <= used < length
    ensures k < StepsToCover(length, step)
  {
    if k >= StepsToCover(length, step) { RealTimes(StepsToCover(length, step) as real, k as real, step); }
  }
}
