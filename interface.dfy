/** The records exchanged by the projection engine (interface.ts). */
module Interface {
  import opened Wrappers

  /** Parameters of one simulation. `taxRate` is optional; `years` is a whole
      number of years. All money and rates are exact reals. */
  datatype InvestmentParams = InvestmentParams(
    initial: real,
    annualRate: real,
    years: nat,
    monthlyContribution: real,
    inflation: real,
    taxRate: Option<real>)

  /** The parameters without the rate (`Omit<InvestmentParams, "annualRate">`),
      as taken by the rate sweep and the Monte Carlo engine. */
  datatype BaseParams = BaseParams(
    initial: real,
    years: nat,
    monthlyContribution: real,
    inflation: real,
    taxRate: Option<real>)

  /** The object spread `{ ...base, annualRate: rate }`. */
  function WithRate(base: BaseParams, rate: real): InvestmentParams
  {
    InvestmentParams(base.initial, rate, base.years, base.monthlyContribution, base.inflation, base.taxRate)
  }

  /** Result of one simulation. `roi` is None where the source divides by a
      zero invested total (a non-finite number there); `breakEvenMonth` is
      None where the source has null. */
  datatype SimulationResult = SimulationResult(
    history: seq<real>,
    invested: real,
    finalValue: real,
    grossProfit: real,
    netProfit: real,
    tax: real,
    profitNet: real,
    roi: Option<real>,
    breakEvenMonth: Option<nat>)
}
