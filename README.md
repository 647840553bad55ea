# Investment projection engine, in Dafny

This project models the engine of a small investment simulator written in TypeScript, `functions.ts`. The engine has four operations:

- `simulateInvestment` projects a portfolio month by month. Each month it applies interest, adds a contribution and deflates the value. It tracks the money paid in, records every month's value, and notes the first month in which the value reaches the money paid in. At the end it taxes a positive gross profit at a flat rate and reports final value, profits and return on investment.
- `economicScenarios` runs the projection three times, with the annual rate lowered by 0.03, as given, and raised by 0.03.
- `compareRates` runs the projection once for each rate in a list.
- `monteCarlo` runs the projection at rates drawn uniformly from `[rateMin, rateMax]`. It reduces the final values to their minimum, maximum and average.

Money and rates are exact `real`s. Each operation keeps the form it has in the source:

- `simulateInvestment` and `monteCarlo` change local state in loops. They are methods, `Projection.SimulateInvestment` and `Risk.MonteCarlo`, proved equal to specification functions.
- `economicScenarios` and `compareRates` are pure. They are functions over `Projection.Simulation`.

The model follows functions.ts as written:

- The monthly rate is the linear `annualRate / 12` (functions.ts:8). It is not a compounded conversion.
- The value is deflated by `1 + inflation / 12` every month (functions.ts:9, 21).
- The scenario shift is ±0.03 on the annual rate (functions.ts:59, 63).

Modules:

- `Wrappers` holds `Option`.
- `Interface` holds the records of interface.ts.
- `Projection` models `simulateInvestment` and its properties.
- `Scenarios` models `economicScenarios`.
- `RateSweep` models `compareRates`.
- `Risk` models `monteCarlo`.

## Model

| member | source | states |
|---|---|---|
| Projection.GrowthFactor | functions.ts:8-17 | Definition of the monthly growth factor `1 + annualRate / 12`, the linear monthly rate of line 8 as applied at line 17; no contract of its own. |
| Projection.Deflator | functions.ts:9-21 | Definition of the monthly deflation divisor `1 + inflation / 12`, from line 9 as applied at line 21; no contract of its own. |
| Projection.Months | functions.ts:7 | Definition of the horizon `years * 12` months; no contract of its own. |
| Projection.MonthStep | functions.ts:17-21 | Definition of one month: the value times `1 + annualRate / 12`, plus the contribution, divided by `1 + inflation / 12`; no contract of its own, MonthStepMatches ties it to the three updates. |
| Projection.ValueAfter | functions.ts:16-21 | Definition: the initial sum after zero months, one MonthStep per further month; no contract of its own, the lemmas below state its properties. |
| Projection.InvestedAfter | functions.ts:12-19 | Definition of the running invested total: the initial sum plus one contribution per month; no contract of its own, InvestedClosedForm gives its closed form. |
| Projection.History | functions.ts:14-27 | The recorded history after n months has exactly n entries, one per month pushed. |
| Projection.BrokeEven | functions.ts:23 | Definition of the break-even test: the value after month m is at least the invested total after month m; no contract of its own. |
| Projection.FirstBreakEven | functions.ts:13-25 | A tracked break-even month lies in [1, n] and that month's value reaches the money paid in by then. |
| Projection.TaxApplies | functions.ts:34 | Definition of the tax guard: a present, non-zero tax rate and a strictly positive gross profit; no contract of its own. |
| Projection.TaxOn | functions.ts:32-35 | No tax is charged on a loss or a zero profit, without a tax rate, or with a tax rate of 0. |
| Projection.AfterTax | functions.ts:34-37 | Definition of the reported final value, `invested + (grossProfit - tax)` when the tax block runs and the pre-tax value otherwise; no contract of its own, AfterTaxMonotone and AfterTaxStrictlyMonotone state its properties. |
| Projection.FinalValue | functions.ts:34-43 | Definition of the reported finalValue: AfterTax applied to the invested total and the value after `years * 12` months; no contract of its own, the FinalValue lemmas below state its properties. |
| Projection.SimulateInvestment | functions.ts:6-51 | The loop followed by the tax block returns exactly `Simulation(p)`; the only demand on the caller is a non-zero deflation divisor (inflation is not -12). |
| Projection.AccumulateMonths | functions.ts:7-28 | After the loop, the value, running invested total, break-even month and history equal ValueAfter, InvestedAfter, FirstBreakEven and History at `years * 12` months. |
| Projection.ApplyTax | functions.ts:31-38 | The tax block computes grossProfit = value - invested, tax = TaxOn of it, netProfit = grossProfit - tax, and the final value AfterTax gives. |
| Projection.Simulation | functions.ts:30-50 | The history has one entry per month; grossProfit is final pre-tax value minus invested; tax is 0 when grossProfit <= 0; netProfit = grossProfit - tax = profitNet; finalValue = invested + netProfit; roi is absent exactly when nothing was invested. |
| Projection.SimulationLedger | functions.ts:12-48 | invested = initial + months * monthlyContribution; tax = grossProfit * taxRate when a non-zero rate is given and grossProfit > 0, else 0; without tax, finalValue is the last history entry (initial for zero months); roi * invested = netProfit. |
| Projection.MonthStepMatches | functions.ts:17-21 | The three in-place updates of one iteration (times `1 + monthlyRate`, plus the contribution, divided by `1 + monthlyInflation`) compose to one MonthStep. |
| Projection.InvestedClosedForm | functions.ts:12-19 | After m months the running invested total is initial + m * monthlyContribution. |
| Projection.InvestedSameFor | functions.ts:12-19 | The invested total depends only on the initial sum and the contribution, not on rate or inflation. |
| Projection.InvestedNonDecreasing | functions.ts:19 | With a non-negative contribution the running invested total never decreases from one month to a later one. |
| Projection.HistoryEntries | functions.ts:16-27 | The history after n months has n entries, and entry k is the value after month k + 1. |
| Projection.HistoryPrefix | functions.ts:27 | A shorter run's history is a prefix of a longer run's: values are only appended. |
| Projection.BreakEvenIsFirst | functions.ts:13-25 | A tracked month lies in [1, n], breaks even, and no earlier month does; none is tracked exactly when no month in [1, n] breaks even. |
| Projection.BreakEvenStable | functions.ts:23-25 | Once set, the break-even month is never overwritten by later months. |
| Projection.FirstBreakEvenOnHistory | functions.ts:13-27 | Break-even over n months restated on the recorded history: the smallest m with history[m-1] >= initial + m * monthlyContribution, or absent when there is none. |
| Projection.BreakEvenOnHistory | functions.ts:23-49 | The returned breakEvenMonth is the smallest month whose history entry reaches initial + m * monthlyContribution, within [1, years * 12], and it is null exactly when no month does. |
| Projection.NoLossWithoutInflation | functions.ts:13-38 | With no inflation, a non-negative rate and non-negative amounts, month 1 already breaks even (so breakEvenMonth is 1 when the horizon is not empty), grossProfit >= 0, and netProfit >= 0 for a tax rate of at most 1. |
| Projection.ValueCoversInvested | functions.ts:16-21 | With no inflation, a non-negative rate, a non-negative initial sum and a non-negative contribution, the value never falls below the running invested total, which is itself non-negative. |
| Projection.ValueExceedsInvested | functions.ts:16-21 | With no inflation, a positive rate, a non-negative initial sum and a positive contribution, the value is strictly above the running invested total from month 2 on. |
| Projection.MonthStepMonotone | functions.ts:17-21 | One month keeps two non-negative values in order when the second grows no slower and is deflated no more. |
| Projection.ValueMonotone | functions.ts:16-28 | Same amounts with no less growth and no more deflation give a value at least as high in every month. |
| Projection.MonthStepStrictlyMonotone | functions.ts:17-21 | One month keeps two positive values strictly ordered when the second grows strictly faster. |
| Projection.ValueStrictlyMonotone | functions.ts:16-28 | With a positive initial sum, strictly faster growth gives a strictly higher value from month 1 on. |
| Projection.AfterTaxMonotone | functions.ts:31-38 | For a tax rate of at most 1, the after-tax final value never decreases as the pre-tax value grows. |
| Projection.AfterTaxStrictlyMonotone | functions.ts:31-38 | For a tax rate below 1, the after-tax final value grows strictly with the pre-tax value. |
| Projection.AfterTaxedAboveInvested | functions.ts:34-37 | When the tax block runs at a rate below 1, the reported final value stays strictly above the invested total. |
| Projection.FinalValueMonotone | functions.ts:6-51 | Same non-negative amounts, horizon and tax, with a tax rate of at most 1, a non-negative growth factor that is no smaller, and a positive divisor that is no larger, give a final value at least as high. |
| Projection.FinalValueStrictlyMonotone | functions.ts:6-51 | With a positive initial sum, a non-empty horizon and a tax rate below 1, strictly faster growth gives a strictly higher final value. |
| Projection.FinalValueMonotoneInRate | functions.ts:8-38 | With non-negative amounts, a positive divisor, a tax rate of at most 1 and rates of at least -12, finalValue never decreases as annualRate grows. |
| Projection.FinalValueStrictlyMonotoneInRate | functions.ts:8-38 | With a positive initial sum, at least one year and a tax rate below 1, finalValue grows strictly with annualRate. |
| Projection.FinalValueAntitoneInInflation | functions.ts:9-38 | With non-negative amounts, a non-negative growth factor and a tax rate of at most 1, higher inflation never gives a higher finalValue. |
| Projection.ValuePositive | functions.ts:16-21 | With a positive initial sum, a non-negative contribution, a positive growth factor and a positive divisor, the value stays positive in every month. |
| Projection.MonthStepStrictlyDeflated | functions.ts:17-21 | At the same rate and contribution, one month under strictly higher inflation ends strictly lower from a value no higher. |
| Projection.ValueStrictlyDeflated | functions.ts:16-28 | With a positive initial sum and the same amounts and rate, strictly higher inflation gives a strictly lower value from month 1 on. |
| Projection.FinalValueStrictlyAntitoneInInflation | functions.ts:9-38 | With a positive initial sum, a non-negative contribution, a positive growth factor, at least one year and a tax rate below 1, strictly higher inflation gives a strictly lower finalValue. |
| Projection.InflationLowersFinalValue | tests/prj.test.ts:44-57 | For 1000 at 5 % over 10 years with nothing added and no tax, 3 % inflation gives a strictly lower finalValue than none. |
| Projection.ContributionsGrow | tests/prj.test.ts:25-41 | For 100 a month at 12 % over one year from nothing, with no inflation and a tax rate of 0, invested is 1200 and finalValue is above 1200. |
| Scenarios.EconomicScenarios | functions.ts:56-65 | The three results share the invested total and have `years * 12` history entries each. |
| Scenarios.ScenariosOrdered | functions.ts:56-65 | With non-negative amounts, a positive divisor, a tax rate of at most 1 and a pessimist rate of at least -12, pessimist.finalValue <= realist.finalValue <= optimist.finalValue. |
| Scenarios.ScenariosStrictlyOrdered | functions.ts:56-65 | With a positive initial sum, at least one year and a tax rate below 1, the three final values are strictly ordered. |
| Scenarios.ScenarioExample | tests/prj.test.ts:77-90 | For the test's parameters (5000, 7 %, 5 years, 200 a month, 2 % inflation) the optimist beats the realist and the realist beats the pessimist. |
| Interface.WithRate | functions.ts:80 | Definition of the spread `{ ...base, annualRate: rate }`: every field of base, with the given rate; no contract of its own. |
| RateSweep.RateRecord | functions.ts:97-103 | The record carries the given rate and the finalValue of the simulation at that rate. |
| RateSweep.CompareRates | functions.ts:91-105 | One record per input rate, same length and order, duplicates kept; record i carries rates[i] and the finalValue, netProfit and roi of the simulation at that rate. |
| RateSweep.CompareRatesAppend | functions.ts:96-104 | The sweep of a concatenation is the concatenation of the sweeps. |
| RateSweep.CompareRatesSorted | functions.ts:96-104 | With non-negative amounts, a positive divisor, a tax rate of at most 1 and every rate at least -12, ascending rates give ascending final values. |
| Risk.DrawnRate | functions.ts:79 | Definition of the drawn rate `rateMin + u * (rateMax - rateMin)`; no contract of its own, DrawnRateInRange states its range. |
| Risk.DrawnRateInRange | functions.ts:79 | A draw in [0, 1) gives a rate in [rateMin, rateMax], and below rateMax when rateMin < rateMax. |
| Risk.FinalValues | functions.ts:76-82 | One collected value per draw, in draw order: the final value of the simulation at that draw's rate. |
| Risk.Min | functions.ts:85 | The minimum is one of the values and is at most each of them. |
| Risk.Max | functions.ts:86 | The maximum is one of the values and is at least each of them. |
| Risk.Sum | functions.ts:87 | Definition of the left-to-right sum that `reduce` computes from 0; no contract of its own, SumBounds and Summarize state its properties. |
| Risk.SumBounds | functions.ts:87 | A sum of n values in [lo, hi] lies in [n * lo, n * hi]. |
| Risk.Summarize | functions.ts:84-88 | For a non-empty sample, min and max are sample values bounding every value, min <= avg <= max, and avg * count = sum; absent for an empty sample. |
| Risk.MonteCarlo | functions.ts:70-89 | The loop collects exactly one final value per run and returns the summary of those values. |
| Risk.MonteCarloWithinRateBounds | functions.ts:76-88 | With non-negative amounts, a positive divisor, a tax rate of at most 1, rateMin at least -12 and draws in [0, 1), every collected value and the summary's min and max lie between the final values at rateMin and at rateMax. |

## Left out

- `Math.random()` (functions.ts:79) is not modelled. The values it returned are a parameter `draws` of `Risk.MonteCarlo`, one per run. The model says nothing about how they are distributed.
- IEEE-754 rounding is not modelled: all amounts are exact reals. Non-finite numbers and NaN are not modelled either.
- Projection.Simulation: `roi` is `None` when nothing was invested. There the source divides by zero and returns Infinity or NaN (functions.ts:48).
- Risk.MonteCarlo: the model always returns a summary. The source spreads the whole results array into `Math.min` and `Math.max` (functions.ts:85-86), which common JavaScript engines reject with a RangeError once `runs` reaches about 10^5 arguments. That engine limit is not modelled.
- Risk.Summarize: an empty sample (`runs == 0`) gives `None`. There the source returns Infinity, -Infinity and NaN (functions.ts:85-87).
- Projection.SimulateInvestment: inflation of exactly -12 is excluded by the precondition, because the divisor at functions.ts:21 is then zero.
- `years` and `runs` are whole numbers (`nat`). The source accepts any number there.
- A tax rate of 0 is treated like an absent one, as JavaScript truthiness does at functions.ts:34. A NaN tax rate is not modelled.
- Projection.AccumulateMonths: the loop (functions.ts:16-28) and the tax block (functions.ts:31-38, `Projection.ApplyTax`) are methods of their own, so that their proofs are separate. `Projection.SimulateInvestment` calls the two in the source's order.
- The monotonicity lemmas assume extra conditions, because the source's results are not monotone without them: non-negative amounts, a monthly growth factor of at least 0 (annual rate at least -12), a positive deflation divisor and a tax rate of at most 1. With a tax rate above 1 a larger gross profit is taxed by more than it adds, so the final value falls as the rate rises. The strict versions also assume a positive initial sum, at least one month and a tax rate below 1. These are sufficient, not necessary: an initial sum of 0 with a positive contribution and at least 2 months also gives a strict order, and that case is not proved.
- Projection.FinalValueAntitoneInInflation is non-strict, because with nothing invested the final value is 0 at every inflation. The strict decrease, which the test at tests/prj.test.ts:44-57 expects, is Projection.FinalValueStrictlyAntitoneInInflation under a positive initial sum.
- The numeric expectations at tests/prj.test.ts:20-21 and tests/prj.test.ts:72-73 assume yearly compounding. The code's monthly steps at `annualRate / 12` give a finalValue of about 1104.7 rather than 1100 and a grossProfit of about 104.7 rather than 100 at lines 20-21. With the 10 % tax at lines 72-73 they give a tax of about 10.47, which is within the 0.5 margin of `toBeCloseTo(10, 0)`, and a finalValue of about 1094.2 rather than 1090. So the checks at lines 20, 21 and 73 do not hold for the code. The model follows the code.
- The `MonteCarloResult` fields `stdDev`, `percentiles`, `probabilityLoss`, `confidence95` and `expectedAnnualReturn` (interface.ts:31-40) are not modelled: no code computes them. `yearlySnapshots` (interface.ts:20-30) is not modelled: it is never filled.
- The `grossProfit` and `tax` fields in the declared return type of `compareRates` are not modelled: the implementation does not produce them.
- `exportCsv` and `printTextChart` are declared only. The command-line front ends main.js and main.ts (argument parsing, console output, number formatting) are I/O and are not part of this model.
