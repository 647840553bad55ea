/** `economicScenarios` of functions.ts: the simulation run with the rate
    lowered by 0.03, as given, and raised by 0.03. */
module Scenarios {
  import opened Wrappers
  import opened Interface
  import opened Projection

  /** The fixed rate offset of the pessimistic and optimistic scenarios. */
  const RateShift: real := 0.03

  datatype ScenarioSet = ScenarioSet(pessimist: SimulationResult, realist: SimulationResult, optimist: SimulationResult)

  /** Three simulations over copies of the parameters that differ only in the rate;
      all three share the same invested total and horizon. */
  function EconomicScenarios(s: InvestmentParams): (r: ScenarioSet)
    requires Deflatable(s)
    ensures r.pessimist.invested == r.realist.invested == r.optimist.invested
    ensures |r.pessimist.history| == |r.realist.history| == |r.optimist.history| == Months(s)
  {
    var pessimist := s.(annualRate := s.annualRate - RateShift);
    var optimist := s.(annualRate := s.annualRate + RateShift);
    InvestedSameFor(pessimist, s, Months(s));
    InvestedSameFor(optimist, s, Months(s));
    ScenarioSet(Simulation(pessimist), Simulation(s), Simulation(optimist))
  }

  /** With non-negative amounts, a non-negative monthly growth factor even for the
      lowered rate, a positive deflator and a tax rate of at most 1, the scenarios
      are ordered by final value. */
  lemma ScenariosOrdered(s: InvestmentParams)
    requires Deflator(s.inflation) > 0.0
    requires s.initial >= 0.0 && s.monthlyContribution >= 0.0
    requires s.annualRate - RateShift >= -12.0
    requires TaxRateAtMostOne(s.taxRate)
    ensures EconomicScenarios(s).pessimist.finalValue <= EconomicScenarios(s).realist.finalValue
    ensures EconomicScenarios(s).realist.finalValue <= EconomicScenarios(s).optimist.finalValue
  {
    var lo, mid, hi := s.annualRate - RateShift, s.annualRate, s.annualRate + RateShift;
    FinalValueMonotoneInRate(s, lo, mid);
    FinalValueMonotoneInRate(s, mid, hi);
    assert s.(annualRate := mid) == s;
  }

  /** With something invested up front, a non-empty horizon and a tax rate below 1,
      the ordering is strict. */
  lemma ScenariosStrictlyOrdered(s: InvestmentParams)
    requires Deflator(s.inflation) > 0.0
    requires s.initial > 0.0 && s.monthlyContribution >= 0.0
    requires s.years >= 1
    requires s.annualRate - RateShift > -12.0
    requires TaxRateBelowOne(s.taxRate)
    ensures EconomicScenarios(s).pessimist.finalValue < EconomicScenarios(s).realist.finalValue
    ensures EconomicScenarios(s).realist.finalValue < EconomicScenarios(s).optimist.finalValue
  {
    var lo, mid, hi := s.annualRate - RateShift, s.annualRate, s.annualRate + RateShift;
    FinalValueStrictlyMonotoneInRate(s, lo, mid);
    FinalValueStrictlyMonotoneInRate(s, mid, hi);
    assert s.(annualRate := mid) == s;
  }

  /** The scenario case of the test suite: 5000 up front at 7% for 5 years,
      200 a month, 2% inflation, no tax. */
  lemma ScenarioExample()
    ensures var r := EconomicScenarios(InvestmentParams(5000.0, 0.07, 5, 200.0, 0.02, None));
            r.pessimist.finalValue < r.realist.finalValue < r.optimist.finalValue
  {
    ScenariosStrictlyOrdered(InvestmentParams(5000.0, 0.07, 5, 200.0, 0.02, None));
  }
}
