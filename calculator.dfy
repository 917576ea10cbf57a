/** The pace projector of src/lib/calculator.ts: from the minutes of game time
    played and the combined score so far, project the combined final score by
    extrapolating the current scoring pace linearly to the end of regulation.

    Numbers are exact reals; JavaScript's IEEE-754 doubles are abstracted away. */
module Calculator {
  import opened Wrappers
  import opened Rounding

  /** Length of a regulation game in minutes (four 12-minute quarters). */
  const RegulationMinutes: real := 48.0

  /** What the projector reports for a computable input. */
  datatype CalculationResult = CalculationResult(
    expectedTotal: int,     // projected combined final score
    pace: real,             // points per minute, rounded to two decimals
    remainingMinutes: real  // regulation minutes still to play
  )

  /** Elapsed time the projector accepts: the half-open interval (0, 48]. */
  predicate ValidElapsed(minutesElapsed: real) {
    0.0 < minutesElapsed <= RegulationMinutes
  }

  /** `calculateExpectedTotal`. `None` stands for the source's `null`. */
  function CalculateExpectedTotal(minutesElapsed: real, currentPoints: real): (r: Option<CalculationResult>)
    // null exactly outside (0, 48], whatever the score
    ensures r.None? <==> minutesElapsed <= 0.0 || minutesElapsed > RegulationMinutes
    // the remaining time completes the regulation length
    ensures r.Some? ==> r.value.remainingMinutes + minutesElapsed == RegulationMinutes
    ensures r.Some? ==> 0.0 <= r.value.remainingMinutes < RegulationMinutes
    // the projection is the nearest integer to pace * 48, halves up
    ensures r.Some? ==>
      var p := currentPoints / minutesElapsed;
      p * RegulationMinutes - 0.5 < r.value.expectedTotal as real <= p * RegulationMinutes + 0.5
    // the reported pace is a whole number of hundredths within 0.005 of the true pace
    ensures r.Some? ==>
      var p := currentPoints / minutesElapsed;
      && (r.value.pace * 100.0).Floor as real == r.value.pace * 100.0
      && p - 0.005 < r.value.pace <= p + 0.005
  {
    if minutesElapsed <= 0.0 || minutesElapsed > RegulationMinutes then
      None
    else
      var pace := currentPoints / minutesElapsed;
      var expectedTotal := Round(pace * RegulationMinutes);
      var remainingMinutes := RegulationMinutes - minutesElapsed;
      Some(CalculationResult(expectedTotal, Round(pace * 100.0) as real / 100.0, remainingMinutes))
  }

  /** The projection agrees with extrapolating the current pace over the
      remaining minutes and adding it to the current score. */
  lemma ProjectionExtrapolatesRemaining(minutesElapsed: real, currentPoints: real)
    requires ValidElapsed(minutesElapsed)
    ensures
      var r := CalculateExpectedTotal(minutesElapsed, currentPoints).value;
      r.expectedTotal == Round(currentPoints + currentPoints / minutesElapsed * r.remainingMinutes)
  {
    var p := currentPoints / minutesElapsed;
    assert p * minutesElapsed == currentPoints;
    assert currentPoints + p * (RegulationMinutes - minutesElapsed) == p * RegulationMinutes;
  }

  /** Any integer within the half-open window around points * 48 / minutes is
      the projection: `expectedTotal` is the unique such integer. */
  lemma ExpectedTotalUnique(minutesElapsed: real, currentPoints: real, n: int)
    requires ValidElapsed(minutesElapsed)
    ensures
      var exact := currentPoints * RegulationMinutes / minutesElapsed;
      (CalculateExpectedTotal(minutesElapsed, currentPoints).value.expectedTotal == n
       <==> exact - 0.5 < n as real <= exact + 0.5)
  {
    var exact := currentPoints * RegulationMinutes / minutesElapsed;
    var p := currentPoints / minutesElapsed;
    DivThenScale(currentPoints, minutesElapsed, RegulationMinutes);
    assert currentPoints / minutesElapsed * RegulationMinutes == currentPoints * RegulationMinutes / minutesElapsed;
    assert p * RegulationMinutes == exact;
    assert CalculateExpectedTotal(minutesElapsed, currentPoints).value.expectedTotal == Round(exact);
    RoundUnique(exact, n);
  }

  /** Dividing and then scaling is scaling and then dividing. */
  lemma DivThenScale(a: real, m: real, k: real)
    requires m != 0.0
    ensures a / m * k == a * k / m
  {
    var q, t := a / m, a * k / m;
    assert q * m == a;
    assert t * m == a * k;
    assert (q * k) * m == a * k;
    assert (t - q * k) * m == 0.0;
  }

  /** Exact halves of the unrounded projection are rounded up: a game heading
      for n + 1/2 points is projected at n + 1. */
  lemma ExpectedTotalHalfRoundsUp(minutesElapsed: real, currentPoints: real, n: int)
    requires ValidElapsed(minutesElapsed)
    requires currentPoints * RegulationMinutes / minutesElapsed == n as real + 0.5
    ensures CalculateExpectedTotal(minutesElapsed, currentPoints).value.expectedTotal == n + 1
  {
    ExpectedTotalUnique(minutesElapsed, currentPoints, n + 1);
  }

  /** With a non-negative score the projection never falls below the score so
      far (rounded), and is itself non-negative. */
  lemma ProjectionNotBelowCurrent(minutesElapsed: real, currentPoints: real)
    requires ValidElapsed(minutesElapsed)
    requires currentPoints >= 0.0
    ensures
      var r := CalculateExpectedTotal(minutesElapsed, currentPoints).value;
      r.expectedTotal >= Round(currentPoints) && r.expectedTotal >= 0
  {
    var p := currentPoints / minutesElapsed;
    assert p >= 0.0;
    assert p * minutesElapsed == currentPoints;
    assert p * RegulationMinutes >= p * minutesElapsed;
    RoundMonotone(currentPoints, p * RegulationMinutes);
    RoundNonNegative(currentPoints);
  }

  /** For a whole-number score the projection is at least that score. */
  lemma ProjectionNotBelowWholeScore(minutesElapsed: real, points: nat)
    requires ValidElapsed(minutesElapsed)
    ensures CalculateExpectedTotal(minutesElapsed, points as real).value.expectedTotal >= points
  {
    ProjectionNotBelowCurrent(minutesElapsed, points as real);
    RoundOfInt(points);
  }

  /** At the final buzzer nothing remains and the projection is the score itself. */
  lemma FullGame(currentPoints: real)
    ensures
      var r := CalculateExpectedTotal(RegulationMinutes, currentPoints);
      r.Some? && r.value.remainingMinutes == 0.0 && r.value.expectedTotal == Round(currentPoints)
  {
    assert currentPoints / RegulationMinutes * RegulationMinutes == currentPoints;
  }

  /** At a fixed elapsed time, a higher score never gives a lower projection. */
  lemma MonotoneInPoints(minutesElapsed: real, points1: real, points2: real)
    requires ValidElapsed(minutesElapsed)
    requires points1 <= points2
    ensures CalculateExpectedTotal(minutesElapsed, points1).value.expectedTotal
         <= CalculateExpectedTotal(minutesElapsed, points2).value.expectedTotal
  {
    var p1, p2 := points1 / minutesElapsed, points2 / minutesElapsed;
    assert p1 <= p2 by {
      assert p2 - p1 == (points2 - points1) / minutesElapsed;
    }
    RoundMonotone(p1 * RegulationMinutes, p2 * RegulationMinutes);
  }

  /** At a fixed non-negative score, later in the game never gives a higher
      projection. */
  lemma AntitoneInMinutes(minutes1: real, minutes2: real, currentPoints: real)
    requires ValidElapsed(minutes1) && ValidElapsed(minutes2)
    requires minutes1 <= minutes2
    requires currentPoints >= 0.0
    ensures CalculateExpectedTotal(minutes2, currentPoints).value.expectedTotal
         <= CalculateExpectedTotal(minutes1, currentPoints).value.expectedTotal
  {
    var p1, p2 := currentPoints / minutes1, currentPoints / minutes2;
    assert p2 <= p1 by {
      assert p1 * minutes1 == currentPoints;
      assert p2 * minutes2 == currentPoints;
      assert p1 >= 0.0;
      assert p1 * minutes2 >= p1 * minutes1;
      assert (p1 - p2) * minutes2 >= 0.0;
    }
    RoundMonotone(p2 * RegulationMinutes, p1 * RegulationMinutes);
  }

  /** Halfway through a game with 110 points: projected 220, pace 4.58,
      24 minutes to play. */
  lemma HalftimeExample()
    ensures CalculateExpectedTotal(24.0, 110.0) == Some(CalculationResult(220, 4.58, 24.0))
  {
    var p := 110.0 / 24.0;
    assert p * 48.0 == 220.0;
    RoundOfInt(220);
    RoundUnique(p * 100.0, 458);
  }

}
