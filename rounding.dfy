/** JavaScript's `Math.round` over exact real numbers.

    `Math.round(x)` returns the integer nearest to `x`; when `x` lies exactly
    half-way between two integers it returns the larger one, so halves are
    rounded toward positive infinity (`Math.round(2.5) == 3`,
    `Math.round(-2.5) == -2`). Over the reals this is `Floor(x + 1/2)`. */
module Rounding {

  /** The integer nearest to `x`, exact halves going up. */
  function Round(x: real): (r: int)
    ensures x - 0.5 < r as real <= x + 0.5
  {
    (x + 0.5).Floor
  }

  /** The bounds in Round's contract pin the result down: exactly one integer
      lies in the half-open window (x - 1/2, x + 1/2]. */
  lemma RoundUnique(x: real, n: int)
    ensures Round(x) == n <==> x - 0.5 < n as real <= x + 0.5
  {
    var r := Round(x);
    if x - 0.5 < n as real <= x + 0.5 {
      assert -1.0 < (r - n) as real < 1.0;
    }
  }

  /** Rounding never reverses the order of its arguments. */
  lemma RoundMonotone(x: real, y: real)
    requires x <= y
    ensures Round(x) <= Round(y)
  {
  }

  /** Integers are left as they are. */
  lemma RoundOfInt(n: int)
    ensures Round(n as real) == n
  {
    RoundUnique(n as real, n);
  }

  /** An exact half is rounded up, to the larger neighbour, whatever its sign. */
  lemma RoundHalfUp(n: int)
    ensures Round(n as real + 0.5) == n + 1
  {
    RoundUnique(n as real + 0.5, n + 1);
  }

  /** The two examples that tell `Math.round` apart from rounding half away
      from zero: 2.5 goes to 3 and -2.5 goes to -2. */
  lemma RoundHalfExamples()
    ensures Round(2.5) == 3
    ensures Round(-2.5) == -2
  {
    RoundHalfUp(2);
    RoundHalfUp(-3);
  }

  /** A number above -1/2, in particular any non-negative one, rounds to a
      non-negative integer. */
  lemma RoundNonNegative(x: real)
    requires x > -0.5
    ensures Round(x) >= 0
  {
  }

}
