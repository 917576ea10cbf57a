# NBA total calculator: pace projector

This project models the pace projector of the NBA total calculator,
`calculateExpectedTotal` in `src/lib/calculator.ts`. It takes the minutes of
game time played and the combined score of both teams so far. It answers
"not computable" (`null`) when the elapsed time is outside (0, 48]. Otherwise
it reports three numbers:

- the projected combined final score: the current pace extrapolated to the
  48 regulation minutes and rounded with `Math.round`;
- the pace in points per minute, rounded to two decimals;
- the regulation minutes still to play.

The model is written in Dafny over exact `real` arithmetic:

- `wrappers.dfy`: the `Option` type; `None` stands for the source's `null`.
- `rounding.dfy`: JavaScript's `Math.round` as `Round(x) = Floor(x + 1/2)`. It
  returns the nearest integer and rounds exact halves toward positive infinity,
  so `Round(-2.5) == -2`. Its lemmas cover the rounding window, uniqueness,
  monotonicity, integers and halves.
- `calculator.dfy`: `RegulationMinutes` (48), the `CalculationResult` record and
  `CalculateExpectedTotal`, with lemmas on the projection. Those lemmas cover
  its unique characterisation, halves rounding up, never falling below the
  current score, the full-game case, monotonicity in score and elapsed time,
  and the halftime example.

The function is total. It puts no condition on the score, because the source
puts none. Everything it promises about a negative score or an out-of-range
time is proved as stated.

Two places where the design description and the code differ; the model
follows the code:

- The description leaves the tie-breaking rule open ("half away from zero
  or half to even"). The code uses `Math.round`, which rounds halves up
  (toward positive infinity). `Rounding.RoundHalfExamples` shows that this
  differs from rounding half away from zero at -2.5.
- The description calls the reported pace "truncated" to two decimals. The
  code rounds it with `Math.round(pace * 100) / 100`, so it can lie above the
  true pace by up to 0.005.

## Model

| member | source | states |
|---|---|---|
| `Rounding.Round` | src/lib/calculator.ts:18 | `Math.round(x)` is an integer in the half-open window (x - 1/2, x + 1/2], so exact halves go up |
| `Rounding.RoundUnique` | src/lib/calculator.ts:18 | an integer equals `Math.round(x)` if and only if it lies in (x - 1/2, x + 1/2] |
| `Rounding.RoundMonotone` | src/lib/calculator.ts:18 | rounding preserves order: x <= y implies Round(x) <= Round(y) |
| `Rounding.RoundOfInt` | src/lib/calculator.ts:18 | an integer is rounded to itself |
| `Rounding.RoundHalfUp` | src/lib/calculator.ts:18 | n + 1/2 rounds to n + 1 for every integer n, negative ones included |
| `Rounding.RoundHalfExamples` | src/lib/calculator.ts:18 | Round(2.5) == 3 and Round(-2.5) == -2 |
| `Rounding.RoundNonNegative` | src/lib/calculator.ts:18 | a number above -1/2 rounds to a non-negative integer |
| `Calculator.CalculateExpectedTotal` | src/lib/calculator.ts:1-27 | the result is `None` exactly when the elapsed time is <= 0 or > 48, whatever the score. Otherwise remaining + elapsed == 48 with 0 <= remaining < 48, the projection is within the rounding window (pace*48 - 1/2, pace*48 + 1/2], and the reported pace is a whole number of hundredths in (pace - 0.005, pace + 0.005] |
| `Calculator.ExpectedTotalUnique` | src/lib/calculator.ts:17-18 | for valid elapsed time, an integer n is the projection if and only if points*48/elapsed - 1/2 < n <= points*48/elapsed + 1/2 |
| `Calculator.ExpectedTotalHalfRoundsUp` | src/lib/calculator.ts:17-18 | when points*48/elapsed is exactly n + 1/2, the projection is n + 1 |
| `Calculator.ProjectionExtrapolatesRemaining` | src/lib/calculator.ts:17-19 | the projection equals the rounded current score plus the pace carried over the reported remaining minutes |
| `Calculator.ProjectionNotBelowCurrent` | src/lib/calculator.ts:13-18 | with a non-negative score and valid elapsed time, the projection is at least Round(score) and is non-negative |
| `Calculator.ProjectionNotBelowWholeScore` | src/lib/calculator.ts:13-18 | with a whole-number score, the projection is at least the score |
| `Calculator.FullGame` | src/lib/calculator.ts:13-19 | at 48 minutes the result exists, 0 minutes remain, and the projection is Round(score) |
| `Calculator.MonotoneInPoints` | src/lib/calculator.ts:17-18 | at a fixed valid elapsed time, a higher score never gives a lower projection |
| `Calculator.AntitoneInMinutes` | src/lib/calculator.ts:17-18 | at a fixed non-negative score, a later valid elapsed time never gives a higher projection |
| `Calculator.HalftimeExample` | src/lib/calculator.ts:9-27 | 24 minutes and 110 points give projection 220, pace 4.58 and 24 remaining minutes |

## Left out

- IEEE-754 double arithmetic: `/`, `*` and `Math.round` are modelled over exact reals. Rounding errors of doubles are not modelled, for example `Math.round(0.49999999999999994) == 0` or a pace of `x.xx5` that is stored just below the half. Neither are `NaN` and `Infinity` inputs. These are artefacts of the number format, not of the projector's logic.
- `src/components/calculator/Calculator.tsx` is the React form. Its state hooks, the `parseFloat`/`isNaN` string parsing, the keystroke guards, the rendering, the `toFixed(1)` display of the remaining time and the choice of message are UI. Its guards (a score >= 0, minutes in [0, 48]) are the only reason some lemmas assume a non-negative score. The projector itself accepts any score.
- `src/routes/__root.tsx` and `src/routes/index.tsx` hold router wiring and page layout only.
- The quarter-and-clock to elapsed-minutes converter and the dry-spell and slowdown scenario projections appear in the design description only. No source file implements them, so they are not part of this model.
- Idempotence (the same inputs give the same output) holds for every Dafny function. It needs no separate lemma.
