/** `monteCarlo` of functions.ts: `runs` simulations at rates drawn uniformly
    from [rateMin, rateMax], reduced to the minimum, maximum and average final
    value. The random source is injected as the sequence of values it returned. */
module Risk {
  import opened Wrappers
  import opened Interface
  import opened Projection

  datatype MonteCarloSummary = MonteCarloSummary(min: real, max: real, avg: real)

  /** The rate for one draw `u` of the random source. */
  function DrawnRate(rateMin: real, rateMax: real, u: real): real
  {
    rateMin + u * (rateMax - rateMin)
  }

  /** A draw in [0, 1) gives a rate in [rateMin, rateMax], below rateMax when the range is not a point. */
  lemma DrawnRateInRange(rateMin: real, rateMax: real, u: real)
    requires rateMin <= rateMax
    requires 0.0 <= u < 1.0
    ensures rateMin <= DrawnRate(rateMin, rateMax, u) <= rateMax
    ensures rateMin < rateMax ==> DrawnRate(rateMin, rateMax, u) < rateMax
  {
    MulNonNegative(u, rateMax - rateMin);
    MulNonNegative(1.0 - u, rateMax - rateMin);
    if rateMin < rateMax {
      MulPositive(1.0 - u, rateMax - rateMin);
    }
  }

  /** The final values collected over the draws, in draw order. */
  function FinalValues(rateMin: real, rateMax: real, base: BaseParams, draws: seq<real>): (r: seq<real>)
    requires BaseDeflatable(base)
    ensures |r| == |draws|
    ensures forall i :: 0 <= i < |draws| ==>
              r[i] == FinalValue(WithRate(base, DrawnRate(rateMin, rateMax, draws[i])))
  {
    if draws == [] then []
    else
      FinalValues(rateMin, rateMax, base, draws[..|draws| - 1])
        + [FinalValue(WithRate(base, DrawnRate(rateMin, rateMax, draws[|draws| - 1])))]
  }

  /** `Math.min` over a non-empty list. */
  function Min(s: seq<real>): (m: real)
    requires |s| > 0
    ensures m in s
    ensures forall x :: x in s ==> m <= x
  {
    if |s| == 1 then s[0]
    else
      var rest := Min(s[1..]);
      assert forall x :: x in s ==> x == s[0] || x in s[1..];
      if s[0] <= rest then s[0] else rest
  }

  /** `Math.max` over a non-empty list. */
  function Max(s: seq<real>): (m: real)
    requires |s| > 0
    ensures m in s
    ensures forall x :: x in s ==> x <= m
  {
    if |s| == 1 then s[0]
    else
      var rest := Max(s[1..]);
      assert forall x :: x in s ==> x == s[0] || x in s[1..];
      if s[0] >= rest then s[0] else rest
  }

  /** `reduce((a, b) => a + b, 0)`: the sum, folded from the left. */
  function Sum(s: seq<real>): real
  {
    if s == [] then 0.0 else Sum(s[..|s| - 1]) + s[|s| - 1]
  }

  /** A sum of `n` values in [lo, hi] lies in [n * lo, n * hi]. */
  lemma {:induction false} SumBounds(s: seq<real>, lo: real, hi: real)
    requires forall x :: x in s ==> lo <= x <= hi
    ensures |s| as real * lo <= Sum(s) <= |s| as real * hi
  {
    if s != [] {
      var init := s[..|s| - 1];
      assert forall x :: x in init ==> x in s;
      assert s[|s| - 1] in s;
      SumBounds(init, lo, hi);
      assert |s| as real * lo == |init| as real * lo + lo;
      assert |s| as real * hi == |init| as real * hi + hi;
    }
  }

  /** The reduction of the collected values; None for an empty sample, where the
      source returns non-finite numbers. */
  function Summarize(s: seq<real>): (r: Option<MonteCarloSummary>)
    ensures r.Some? <==> |s| > 0
    ensures r.Some? ==> r.value.min in s && r.value.max in s
    ensures r.Some? ==> forall x :: x in s ==> r.value.min <= x <= r.value.max
    ensures r.Some? ==> r.value.min <= r.value.avg <= r.value.max
    ensures r.Some? ==> r.value.avg * |s| as real == Sum(s)
  {
    if |s| == 0 then None
    else
      var n := |s| as real;
      SumBounds(s, Min(s), Max(s));
      AverageBetween(Sum(s), n, Min(s), Max(s));
      Some(MonteCarloSummary(Min(s), Max(s), Sum(s) / n))
  }

  lemma AverageBetween(total: real, n: real, lo: real, hi: real)
    requires n > 0.0
    requires n * lo <= total <= n * hi
    ensures lo <= total / n <= hi
    ensures total / n * n == total
  {
  }

  /** The Monte Carlo loop: one simulation per draw, its final value pushed,
      then the reduction. `draws` holds what the random source returned, one per run. */
  method MonteCarlo(runs: nat, rateMin: real, rateMax: real, base: BaseParams, draws: seq<real>)
    returns (r: Option<MonteCarloSummary>)
    requires |draws| == runs
    requires BaseDeflatable(base)
    ensures r == Summarize(FinalValues(rateMin, rateMax, base, draws))
  {
    var results: seq<real> := [];

    for i := 0 to runs
      invariant results == FinalValues(rateMin, rateMax, base, draws[..i])
    {
      var rate := rateMin + draws[i] * (rateMax - rateMin);
      var simResult := SimulateInvestment(WithRate(base, rate));
      results := results + [simResult.finalValue];
      assert simResult.finalValue == FinalValue(WithRate(base, DrawnRate(rateMin, rateMax, draws[i])));
      assert draws[..i + 1][..i] == draws[..i];
      assert draws[..i + 1][i] == draws[i];
    }
    assert draws[..runs] == draws;

    if runs == 0 {
      r := None;
    } else {
      r := Some(MonteCarloSummary(Min(results), Max(results), Sum(results) / runs as real));
    }
  }

  /** With draws in [0, 1) and the conditions for monotonicity, every collected
      final value lies between those of rateMin and rateMax, and so do the
      summary's minimum and maximum. */
  lemma MonteCarloWithinRateBounds(rateMin: real, rateMax: real, base: BaseParams, draws: seq<real>)
    requires rateMin <= rateMax
    requires forall i :: 0 <= i < |draws| ==> 0.0 <= draws[i] < 1.0
    requires Deflator(base.inflation) > 0.0
    requires base.initial >= 0.0 && base.monthlyContribution >= 0.0
    requires rateMin >= -12.0
    requires TaxRateAtMostOne(base.taxRate)
    ensures forall x :: x in FinalValues(rateMin, rateMax, base, draws) ==>
              FinalValue(WithRate(base, rateMin)) <= x <= FinalValue(WithRate(base, rateMax))
    ensures var r := Summarize(FinalValues(rateMin, rateMax, base, draws));
            r.Some? ==> FinalValue(WithRate(base, rateMin)) <= r.value.min
                        && r.value.max <= FinalValue(WithRate(base, rateMax))
  {
    var finals := FinalValues(rateMin, rateMax, base, draws);
    var lo, hi := FinalValue(WithRate(base, rateMin)), FinalValue(WithRate(base, rateMax));
    forall i | 0 <= i < |draws|
      ensures lo <= finals[i] <= hi
    {
      var rate := DrawnRate(rateMin, rateMax, draws[i]);
      DrawnRateInRange(rateMin, rateMax, draws[i]);
      var p := WithRate(base, rateMin);
      FinalValueMonotoneInRate(p, rateMin, rate);
      FinalValueMonotoneInRate(p, rate, rateMax);
      assert p.(annualRate := rateMin) == p;
      assert p.(annualRate := rate) == WithRate(base, rate);
      assert p.(annualRate := rateMax) == WithRate(base, rateMax);
    }
  }
}
