/** `compareRates` of functions.ts: the simulation mapped over a list of rates. */
module RateSweep {
  import opened Wrappers
  import opened Interface
  import opened Projection

  /** One row of the comparison; `profit` is the simulation's net profit. */
  datatype RateComparison = RateComparison(rate: real, finalValue: real, profit: real, roi: Option<real>)

  /** The row for one rate: the simulation with that rate substituted into `base`. */
  function RateRecord(base: BaseParams, rate: real): (r: RateComparison)
    requires BaseDeflatable(base)
    ensures r.rate == rate && r.finalValue == FinalValue(WithRate(base, rate))
  {
    var sim := Simulation(WithRate(base, rate));
    RateComparison(rate, sim.finalValue, sim.netProfit, sim.roi)
  }

  /** One row per input rate, in input order, duplicates kept. */
  function CompareRates(rates: seq<real>, base: BaseParams): (r: seq<RateComparison>)
    requires BaseDeflatable(base)
    ensures |r| == |rates|
    ensures forall i :: 0 <= i < |rates| ==> r[i] == RateRecord(base, rates[i])
  {
    if rates == [] then [] else [RateRecord(base, rates[0])] + CompareRates(rates[1..], base)
  }

  /** The sweep of a concatenation is the concatenation of the sweeps: the
      output keeps the input's order and neither sorts nor merges. */
  lemma CompareRatesAppend(a: seq<real>, b: seq<real>, base: BaseParams)
    requires BaseDeflatable(base)
    ensures CompareRates(a + b, base) == CompareRates(a, base) + CompareRates(b, base)
  {
    var lhs, rhs := CompareRates(a + b, base), CompareRates(a, base) + CompareRates(b, base);
    assert |lhs| == |rhs|;
    forall i | 0 <= i < |lhs|
      ensures lhs[i] == rhs[i]
    {
      if i < |a| {
        assert (a + b)[i] == a[i];
      } else {
        assert (a + b)[i] == b[i - |a|];
      }
    }
  }

  /** Under the conditions for monotonicity, rates in ascending order give
      final values in ascending order. */
  lemma CompareRatesSorted(rates: seq<real>, base: BaseParams)
    requires Deflator(base.inflation) > 0.0
    requires base.initial >= 0.0 && base.monthlyContribution >= 0.0
    requires TaxRateAtMostOne(base.taxRate)
    requires forall i :: 0 <= i < |rates| ==> rates[i] >= -12.0
    requires forall i, j :: 0 <= i < j < |rates| ==> rates[i] <= rates[j]
    ensures forall i, j :: 0 <= i < j < |rates| ==>
              CompareRates(rates, base)[i].finalValue <= CompareRates(rates, base)[j].finalValue
  {
    var r := CompareRates(rates, base);
    forall i, j | 0 <= i < j < |rates|
      ensures r[i].finalValue <= r[j].finalValue
    {
      var p := WithRate(base, rates[i]);
      FinalValueMonotoneInRate(p, rates[i], rates[j]);
      assert p.(annualRate := rates[i]) == p;
      assert p.(annualRate := rates[j]) == WithRate(base, rates[j]);
    }
  }
}
