/** The growth engine: `simulateInvestment` of functions.ts.
    The method SimulateInvestment runs the monthly loop (AccumulateMonths) and
    then the tax block (ApplyTax); the function Simulation says what it computes, and the
    lemmas below state what the result means. */
module Projection {
  import opened Wrappers
  import opened Interface

  /** Monthly growth factor: the annual rate converted LINEARLY, `1 + annualRate/12`. */
  function GrowthFactor(annualRate: real): real
  {
    1.0 + annualRate / 12.0
  }

  /** Monthly deflation divisor `1 + inflation/12`. */
  function Deflator(inflation: real): real
  {
    1.0 + inflation / 12.0
  }

  /** The deflation divisor is non-zero (inflation is not -12), so every month is defined. */
  predicate Deflatable(p: InvestmentParams)
  {
    Deflator(p.inflation) != 0.0
  }

  /** Deflatable for the parameters `monteCarlo` and `compareRates` take, which
      lack the rate: the divisor does not depend on it. */
  predicate BaseDeflatable(base: BaseParams)
  {
    Deflatable(WithRate(base, 0.0))
  }

  function Months(p: InvestmentParams): nat
  {
    p.years * 12
  }

  /** One month of the loop: interest, then the contribution, then deflation. */
  function MonthStep(p: InvestmentParams, value: real): real
    requires Deflatable(p)
  {
    (value * GrowthFactor(p.annualRate) + p.monthlyContribution) / Deflator(p.inflation)
  }

  /** Portfolio value after `m` months. */
  function ValueAfter(p: InvestmentParams, m: nat): real
    requires Deflatable(p)
  {
    if m == 0 then p.initial else MonthStep(p, ValueAfter(p, m - 1))
  }

  /** Running invested total after `m` months, accumulated as the loop does. */
  function InvestedAfter(p: InvestmentParams, m: nat): real
  {
    if m == 0 then p.initial else InvestedAfter(p, m - 1) + p.monthlyContribution
  }

  /** The recorded history after `n` months: one value pushed per month. */
  function History(p: InvestmentParams, n: nat): (h: seq<real>)
    requires Deflatable(p)
    ensures |h| == n
  {
    if n == 0 then [] else History(p, n - 1) + [ValueAfter(p, n)]
  }

  /** Month `m` has the value at or above the money put in so far. */
  predicate BrokeEven(p: InvestmentParams, m: nat)
    requires Deflatable(p)
  {
    ValueAfter(p, m) >= InvestedAfter(p, m)
  }

  /** The break-even month as the loop tracks it over the first `n` months:
      set on the first month that breaks even and never overwritten. */
  function FirstBreakEven(p: InvestmentParams, n: nat): (r: Option<nat>)
    requires Deflatable(p)
    ensures r.Some? ==> 1 <= r.value <= n && BrokeEven(p, r.value)
  {
    if n == 0 then None
    else if FirstBreakEven(p, n - 1).Some? then FirstBreakEven(p, n - 1)
    else if BrokeEven(p, n) then Some(n)
    else None
  }

  /** The tax block runs only for a truthy tax rate (present and non-zero)
      and a strictly positive gross profit. */
  predicate TaxApplies(taxRate: Option<real>, grossProfit: real)
  {
    taxRate.Some? && taxRate.value != 0.0 && grossProfit > 0.0
  }

  /** Tax is charged on a profit only: nothing on a loss or break-even, and
      nothing without a rate or with a zero rate. */
  function TaxOn(taxRate: Option<real>, grossProfit: real): (r: real)
    ensures grossProfit <= 0.0 || taxRate.None? || taxRate.value == 0.0 ==> r == 0.0
  {
    if TaxApplies(taxRate, grossProfit) then grossProfit * taxRate.value else 0.0
  }

  /** The reported final value: after tax when the tax block runs, else the pre-tax value. */
  function AfterTax(taxRate: Option<real>, invested: real, value: real): (r: real)
  {
    var grossProfit := value - invested;
    if TaxApplies(taxRate, grossProfit) then invested + (grossProfit - TaxOn(taxRate, grossProfit)) else value
  }

  /** The final value `simulateInvestment` reports. */
  function FinalValue(p: InvestmentParams): real
    requires Deflatable(p)
  {
    AfterTax(p.taxRate, InvestedAfter(p, Months(p)), ValueAfter(p, Months(p)))
  }

  predicate TaxRateAtMostOne(taxRate: Option<real>)
  {
    taxRate.Some? ==> taxRate.value <= 1.0
  }

  predicate TaxRateBelowOne(taxRate: Option<real>)
  {
    taxRate.Some? ==> taxRate.value < 1.0
  }

  /** What `simulateInvestment` returns: the profit figures add up, tax is only
      ever taken from a positive gross profit, and `roi` is absent exactly when
      nothing was invested (where the source divides by zero). */
  function Simulation(p: InvestmentParams): (r: SimulationResult)
    requires Deflatable(p)
    ensures |r.history| == Months(p)
    ensures r.grossProfit == ValueAfter(p, Months(p)) - r.invested
    ensures r.grossProfit <= 0.0 ==> r.tax == 0.0
    ensures r.netProfit == r.grossProfit - r.tax && r.profitNet == r.netProfit
    ensures r.finalValue == r.invested + r.netProfit
    ensures r.invested == 0.0 <==> r.roi.None?
  {
    var months := Months(p);
    var value := ValueAfter(p, months);
    var invested := InvestedAfter(p, months);
    var grossProfit := value - invested;
    var tax := TaxOn(p.taxRate, grossProfit);
    var netProfit := grossProfit - tax;
    SimulationResult(
      History(p, months),
      invested,
      FinalValue(p),
      grossProfit,
      netProfit,
      tax,
      netProfit,
      if invested == 0.0 then None else Some(netProfit / invested),
      FirstBreakEven(p, months))
  }

  /** The ledger of one simulation: the invested total is the initial sum plus
      one contribution per month, the tax is the tax rate's share of a positive
      gross profit (none when there is no rate, a zero rate or no profit), the
      untaxed final value is the last history entry, and `roi` is net profit
      per unit invested. */
  lemma SimulationLedger(p: InvestmentParams)
    requires Deflatable(p)
    ensures Simulation(p).invested == p.initial + Months(p) as real * p.monthlyContribution
    ensures Simulation(p).tax ==
              (if TaxApplies(p.taxRate, Simulation(p).grossProfit)
               then Simulation(p).grossProfit * p.taxRate.value else 0.0)
    ensures !TaxApplies(p.taxRate, Simulation(p).grossProfit) ==>
              Simulation(p).finalValue
                == (if Months(p) == 0 then p.initial else Simulation(p).history[Months(p) - 1])
    ensures Simulation(p).roi.Some? ==>
              Simulation(p).roi.value * Simulation(p).invested == Simulation(p).netProfit
  {
    var r, n := Simulation(p), Months(p);
    assert r.invested == InvestedAfter(p, n);
    InvestedClosedForm(p, n);
    assert r.tax == TaxOn(p.taxRate, r.grossProfit);
    if !TaxApplies(p.taxRate, r.grossProfit) {
      assert r.finalValue == ValueAfter(p, n);
      HistoryEntries(p, n);
    }
    if r.roi.Some? {
      assert r.roi.value == r.netProfit / r.invested;
    }
  }

  /** The month-by-month loop of `simulateInvestment`: interest, contribution and
      deflation each month, the running invested total, the first break-even
      month, and one history entry per month. */
  method AccumulateMonths(p: InvestmentParams)
    returns (portfolioValue: real, totalInvested: real, breakEvenMonth: Option<nat>, history: seq<real>)
    requires Deflatable(p)
    ensures portfolioValue == ValueAfter(p, Months(p))
    ensures totalInvested == InvestedAfter(p, Months(p))
    ensures breakEvenMonth == FirstBreakEven(p, Months(p))
    ensures history == History(p, Months(p))
  {
    var months := p.years * 12;
    var monthlyRate := p.annualRate / 12.0;
    var monthlyInflation := p.inflation / 12.0;

    portfolioValue := p.initial;
    totalInvested := p.initial;
    breakEvenMonth := None;
    history := [];

    for m := 1 to months + 1
      invariant portfolioValue == ValueAfter(p, m - 1)
      invariant totalInvested == InvestedAfter(p, m - 1)
      invariant history == History(p, m - 1)
      invariant breakEvenMonth == FirstBreakEven(p, m - 1)
    {
      ghost var previous := portfolioValue;
      portfolioValue := portfolioValue * (1.0 + monthlyRate);
      ghost var grown := portfolioValue;
      portfolioValue := portfolioValue + p.monthlyContribution;
      totalInvested := totalInvested + p.monthlyContribution;
      ghost var contributed := portfolioValue;

      portfolioValue := portfolioValue / (1.0 + monthlyInflation);

      MonthStepMatches(p, monthlyRate, monthlyInflation, previous, grown, contributed, portfolioValue);
      BreakEvenStep(p, m, portfolioValue, totalInvested);
      if breakEvenMonth == None && portfolioValue >= totalInvested {
        breakEvenMonth := Some(m);
      }

      history := history + [portfolioValue];
    }
  }

  /** `simulateInvestment`: the monthly loop, then the profit and tax block. */
  method SimulateInvestment(p: InvestmentParams) returns (r: SimulationResult)
    requires Deflatable(p)
    ensures r == Simulation(p)
  {
    var portfolioValue, totalInvested, breakEvenMonth, history := AccumulateMonths(p);
    var finalValue, grossProfit, netProfit, tax := ApplyTax(p.taxRate, portfolioValue, totalInvested);
    var roi := if totalInvested == 0.0 then None else Some(netProfit / totalInvested);
    r := SimulationResult(history, totalInvested, finalValue, grossProfit, netProfit, tax, netProfit, roi, breakEvenMonth);
  }

  /** The tax block after the loop: a truthy tax rate and a positive gross
      profit tax the profit and lower the value to invested plus net profit. */
  method ApplyTax(taxRate: Option<real>, value: real, invested: real)
    returns (finalValue: real, grossProfit: real, netProfit: real, tax: real)
    ensures grossProfit == value - invested
    ensures tax == TaxOn(taxRate, grossProfit) && netProfit == grossProfit - tax
    ensures finalValue == AfterTax(taxRate, invested, value)
  {
    finalValue := value;
    grossProfit := value - invested;
    tax := 0.0;
    netProfit := grossProfit;
    if taxRate.Some? && taxRate.value != 0.0 && grossProfit > 0.0 {
      tax := grossProfit * taxRate.value;
      netProfit := grossProfit - tax;
      finalValue := invested + netProfit;
    }
  }

  /** The loop's three updates of the portfolio value make one MonthStep. */
  lemma MonthStepMatches(p: InvestmentParams, monthlyRate: real, monthlyInflation: real,
                         previous: real, grown: real, contributed: real, deflated: real)
    requires Deflatable(p)
    requires monthlyRate == p.annualRate / 12.0 && monthlyInflation == p.inflation / 12.0
    requires grown == previous * (1.0 + monthlyRate)
    requires contributed == grown + p.monthlyContribution
    requires deflated == contributed / (1.0 + monthlyInflation)
    ensures deflated == MonthStep(p, previous)
  {
    var growth, deflator := GrowthFactor(p.annualRate), Deflator(p.inflation);
    assert 1.0 + monthlyRate == growth;
    assert grown == previous * growth;
    assert 1.0 + monthlyInflation == deflator;
    assert deflated == (previous * growth + p.monthlyContribution) / deflator;
  }

  /** One month of break-even tracking, stated on the loop's own variables. */
  lemma BreakEvenStep(p: InvestmentParams, m: nat, value: real, invested: real)
    requires Deflatable(p)
    requires m >= 1
    requires value == ValueAfter(p, m) && invested == InvestedAfter(p, m)
    ensures FirstBreakEven(p, m) ==
              if FirstBreakEven(p, m - 1).Some? then FirstBreakEven(p, m - 1)
              else if value >= invested then Some(m)
              else None
  {
  }

  // ---------------------------------------------------------------------------
  // The invested total

  /** After `m` months the invested total is the initial sum plus `m` contributions. */
  lemma {:induction false} InvestedClosedForm(p: InvestmentParams, m: nat)
    ensures InvestedAfter(p, m) == p.initial + m as real * p.monthlyContribution
  {
    if m > 0 {
      InvestedClosedForm(p, m - 1);
      assert m as real * p.monthlyContribution == (m - 1) as real * p.monthlyContribution + p.monthlyContribution;
    }
  }

  /** The invested total depends only on the initial sum and the contribution. */
  lemma {:induction false} InvestedSameFor(p: InvestmentParams, q: InvestmentParams, m: nat)
    requires p.initial == q.initial && p.monthlyContribution == q.monthlyContribution
    ensures InvestedAfter(p, m) == InvestedAfter(q, m)
  {
    if m > 0 {
      InvestedSameFor(p, q, m - 1);
    }
  }

  /** With non-negative contributions the running invested total never decreases. */
  lemma {:induction false} InvestedNonDecreasing(p: InvestmentParams, m1: nat, m2: nat)
    requires p.monthlyContribution >= 0.0
    requires m1 <= m2
    ensures InvestedAfter(p, m1) <= InvestedAfter(p, m2)
  {
    if m1 < m2 {
      InvestedNonDecreasing(p, m1, m2 - 1);
    }
  }

  // ---------------------------------------------------------------------------
  // The history

  /** One entry per month, in order: entry `k` is the value after month `k + 1`. */
  lemma {:induction false} HistoryEntries(p: InvestmentParams, n: nat)
    requires Deflatable(p)
    ensures |History(p, n)| == n
    ensures forall k :: 0 <= k < n ==> History(p, n)[k] == ValueAfter(p, k + 1)
  {
    if n > 0 {
      HistoryEntries(p, n - 1);
    }
  }

  /** The history only grows at its end: a shorter run is a prefix of a longer one. */
  lemma HistoryPrefix(p: InvestmentParams, n1: nat, n2: nat)
    requires Deflatable(p)
    requires n1 <= n2
    ensures History(p, n1) == History(p, n2)[..n1]
  {
    HistoryEntries(p, n1);
    HistoryEntries(p, n2);
  }

  // ---------------------------------------------------------------------------
  // Break-even

  /** The tracked month is the FIRST month that breaks even, and it is absent
      exactly when no month within the horizon breaks even. */
  lemma {:induction false} BreakEvenIsFirst(p: InvestmentParams, n: nat)
    requires Deflatable(p)
    ensures FirstBreakEven(p, n).Some? ==>
              var m := FirstBreakEven(p, n).value;
              1 <= m <= n && BrokeEven(p, m) && forall k: nat :: 1 <= k < m ==> !BrokeEven(p, k)
    ensures FirstBreakEven(p, n).None? <==> forall k: nat :: 1 <= k <= n ==> !BrokeEven(p, k)
  {
    if n > 0 {
      BreakEvenIsFirst(p, n - 1);
    }
  }

  /** Once the break-even month is set, later months never overwrite it. */
  lemma {:induction false} BreakEvenStable(p: InvestmentParams, n1: nat, n2: nat)
    requires Deflatable(p)
    requires n1 <= n2
    requires FirstBreakEven(p, n1).Some?
    ensures FirstBreakEven(p, n2) == FirstBreakEven(p, n1)
  {
    if n1 < n2 {
      BreakEvenStable(p, n1, n2 - 1);
    }
  }

  /** The break-even test of month `m`, read on the returned history: entry
      `m - 1` against the initial sum plus `m` contributions. */
  predicate HistoryBreaksEven(p: InvestmentParams, history: seq<real>, m: nat)
    requires 1 <= m <= |history|
  {
    history[m - 1] >= p.initial + m as real * p.monthlyContribution
  }

  /** `breakEvenMonth` as the caller sees it: the smallest month whose history
      entry reaches the principal paid in so far, or absent when no month does. */
  lemma BreakEvenOnHistory(p: InvestmentParams)
    requires Deflatable(p)
    ensures var r := Simulation(p);
            r.breakEvenMonth.Some? ==>
              var m := r.breakEvenMonth.value;
              && 1 <= m <= Months(p)
              && HistoryBreaksEven(p, r.history, m)
              && forall k: nat :: 1 <= k < m ==> !HistoryBreaksEven(p, r.history, k)
    ensures var r := Simulation(p);
            r.breakEvenMonth.None? <==>
              forall k: nat :: 1 <= k <= Months(p) ==> !HistoryBreaksEven(p, r.history, k)
  {
    var n := Months(p);
    var r := Simulation(p);
    assert r.history == History(p, n);
    assert r.breakEvenMonth == FirstBreakEven(p, n);
    FirstBreakEvenOnHistory(p, n);
    if r.breakEvenMonth.Some? {
      assert HistoryBreaksEven(p, r.history, r.breakEvenMonth.value);
    } else {
      forall k: nat | 1 <= k <= n
        ensures !HistoryBreaksEven(p, r.history, k)
      {
        BreakEvenIsFirst(p, n);
        HistoryBreaksEvenIff(p, n, k);
      }
    }
  }

  /** The same, for the first `n` months. */
  lemma FirstBreakEvenOnHistory(p: InvestmentParams, n: nat)
    requires Deflatable(p)
    ensures FirstBreakEven(p, n).Some? ==>
              var m := FirstBreakEven(p, n).value;
              && 1 <= m <= n
              && HistoryBreaksEven(p, History(p, n), m)
              && forall k: nat :: 1 <= k < m ==> !HistoryBreaksEven(p, History(p, n), k)
    ensures FirstBreakEven(p, n).None? <==>
              forall k: nat :: 1 <= k <= n ==> !HistoryBreaksEven(p, History(p, n), k)
  {
    BreakEvenIsFirst(p, n);
    if FirstBreakEven(p, n).Some? {
      var m := FirstBreakEven(p, n).value;
      HistoryBreaksEvenIff(p, n, m);
      forall k: nat | 1 <= k < m
        ensures !HistoryBreaksEven(p, History(p, n), k)
      {
        HistoryBreaksEvenIff(p, n, k);
      }
    } else {
      forall k: nat | 1 <= k <= n
        ensures !HistoryBreaksEven(p, History(p, n), k)
      {
        HistoryBreaksEvenIff(p, n, k);
      }
    }
  }

  lemma HistoryBreaksEvenIff(p: InvestmentParams, n: nat, k: nat)
    requires Deflatable(p)
    requires 1 <= k <= n
    ensures HistoryBreaksEven(p, History(p, n), k) <==> BrokeEven(p, k)
  {
    HistoryEntries(p, n);
    InvestedClosedForm(p, k);
  }

  /** Without inflation, a non-negative rate never loses money: every month
      breaks even, so the break-even month is month 1, and profit is not negative. */
  lemma NoLossWithoutInflation(p: InvestmentParams)
    requires p.inflation == 0.0
    requires p.annualRate >= 0.0
    requires p.initial >= 0.0 && p.monthlyContribution >= 0.0
    ensures Simulation(p).breakEvenMonth == (if p.years == 0 then None else Some(1))
    ensures Simulation(p).grossProfit >= 0.0
    ensures TaxRateAtMostOne(p.taxRate) ==> Simulation(p).netProfit >= 0.0
  {
    var months := Months(p);
    ValueCoversInvested(p, months);
    if months > 0 {
      ValueCoversInvested(p, 1);
      assert FirstBreakEven(p, 1) == Some(1);
      BreakEvenStable(p, 1, months);
    }
    var r := Simulation(p);
    if TaxRateAtMostOne(p.taxRate) && TaxApplies(p.taxRate, r.grossProfit) {
      MulNonNegative(r.grossProfit, 1.0 - p.taxRate.value);
    }
  }

  lemma {:induction false} ValueCoversInvested(p: InvestmentParams, m: nat)
    requires p.inflation == 0.0
    requires p.annualRate >= 0.0
    requires p.initial >= 0.0 && p.monthlyContribution >= 0.0
    ensures 0.0 <= InvestedAfter(p, m) <= ValueAfter(p, m)
  {
    if m > 0 {
      ValueCoversInvested(p, m - 1);
      var v := ValueAfter(p, m - 1);
      MulAtLeastOne(v, GrowthFactor(p.annualRate));
    }
  }

  /** With no inflation, a positive rate and a positive contribution, the value
      is strictly above the money paid in from month 2 on. */
  lemma ValueExceedsInvested(p: InvestmentParams, m: nat)
    requires p.inflation == 0.0
    requires p.annualRate > 0.0
    requires p.initial >= 0.0 && p.monthlyContribution > 0.0
    requires m >= 2
    ensures InvestedAfter(p, m) < ValueAfter(p, m)
  {
    var v, before := ValueAfter(p, m - 1), InvestedAfter(p, m - 1);
    assert 0.0 <= before <= v && 0.0 < v by {
      ValueCoversInvested(p, m - 2);
      ValueCoversInvested(p, m - 1);
      assert before == InvestedAfter(p, m - 2) + p.monthlyContribution;
    }
    MonthStepAboveInvested(p, before, v);
    assert ValueAfter(p, m) == MonthStep(p, v);
  }

  /** Without inflation and with a positive rate, one month takes a positive
      value strictly above the money paid in once the contribution is added. */
  lemma MonthStepAboveInvested(p: InvestmentParams, before: real, v: real)
    requires p.inflation == 0.0 && p.annualRate > 0.0
    requires 0.0 <= before <= v && 0.0 < v
    ensures before + p.monthlyContribution < MonthStep(p, v)
  {
    StepAboveInvested(before, v, GrowthFactor(p.annualRate), p.monthlyContribution);
    assert MonthStep(p, v) == (v * GrowthFactor(p.annualRate) + p.monthlyContribution) / 1.0;
  }

  // ---------------------------------------------------------------------------
  // Monotonicity in the rate and in inflation

  /** `p2` grows at least as fast as `p1` each month and is deflated no more,
      with both growth factors non-negative and both divisors positive. */
  predicate GrowsNoSlower(p1: InvestmentParams, p2: InvestmentParams)
  {
    && 0.0 <= GrowthFactor(p1.annualRate) <= GrowthFactor(p2.annualRate)
    && 0.0 < Deflator(p2.inflation) <= Deflator(p1.inflation)
  }

  /** The two parameter sets invest the same non-negative amounts over the
      same horizon under the same tax: only rate and inflation may differ. */
  predicate SameNonNegativeAmounts(p1: InvestmentParams, p2: InvestmentParams)
  {
    && p1.initial == p2.initial && p1.initial >= 0.0
    && p1.monthlyContribution == p2.monthlyContribution && p1.monthlyContribution >= 0.0
    && p1.years == p2.years
    && p1.taxRate == p2.taxRate
  }

  /** One month never reverses the order of two non-negative values when the
      second one grows no slower. */
  lemma MonthStepMonotone(p1: InvestmentParams, p2: InvestmentParams, v1: real, v2: real)
    requires GrowsNoSlower(p1, p2)
    requires p1.monthlyContribution == p2.monthlyContribution && p1.monthlyContribution >= 0.0
    requires 0.0 <= v1 <= v2
    ensures 0.0 <= MonthStep(p1, v1) <= MonthStep(p2, v2)
  {
    StepMonotone(v1, v2, GrowthFactor(p1.annualRate), GrowthFactor(p2.annualRate),
      p1.monthlyContribution, p2.monthlyContribution, Deflator(p1.inflation), Deflator(p2.inflation));
    assert MonthStep(p1, v1) == (v1 * GrowthFactor(p1.annualRate) + p1.monthlyContribution) / Deflator(p1.inflation);
    assert MonthStep(p2, v2) == (v2 * GrowthFactor(p2.annualRate) + p2.monthlyContribution) / Deflator(p2.inflation);
  }

  /** In every month, the value of the faster-growing set is at least the other's. */
  lemma {:induction false} ValueMonotone(p1: InvestmentParams, p2: InvestmentParams, m: nat)
    requires GrowsNoSlower(p1, p2)
    requires SameNonNegativeAmounts(p1, p2)
    ensures 0.0 <= ValueAfter(p1, m) <= ValueAfter(p2, m)
  {
    if m > 0 {
      ValueMonotone(p1, p2, m - 1);
      MonthStepMonotone(p1, p2, ValueAfter(p1, m - 1), ValueAfter(p2, m - 1));
    }
  }

  /** One month keeps two positive values strictly ordered when the second one
      grows strictly faster under the same inflation. */
  lemma MonthStepStrictlyMonotone(p1: InvestmentParams, p2: InvestmentParams, v1: real, v2: real)
    requires 0.0 < GrowthFactor(p1.annualRate) < GrowthFactor(p2.annualRate)
    requires p1.inflation == p2.inflation && Deflator(p1.inflation) > 0.0
    requires p1.monthlyContribution == p2.monthlyContribution && p1.monthlyContribution >= 0.0
    requires 0.0 < v1 <= v2
    ensures 0.0 < MonthStep(p1, v1) < MonthStep(p2, v2)
  {
    StepStrictlyMonotone(v1, v2, GrowthFactor(p1.annualRate), GrowthFactor(p2.annualRate),
      p1.monthlyContribution, p2.monthlyContribution, Deflator(p1.inflation), Deflator(p2.inflation));
  }

  /** With a positive initial sum, a strictly faster growth gives a strictly
      higher value from month 1 on. */
  lemma {:induction false} ValueStrictlyMonotone(p1: InvestmentParams, p2: InvestmentParams, m: nat)
    requires 0.0 < GrowthFactor(p1.annualRate) < GrowthFactor(p2.annualRate)
    requires p1.inflation == p2.inflation && Deflator(p1.inflation) > 0.0
    requires SameNonNegativeAmounts(p1, p2) && p1.initial > 0.0
    requires m >= 1
    ensures 0.0 < ValueAfter(p1, m) < ValueAfter(p2, m)
  {
    if m > 1 {
      ValueStrictlyMonotone(p1, p2, m - 1);
    }
    MonthStepStrictlyMonotone(p1, p2, ValueAfter(p1, m - 1), ValueAfter(p2, m - 1));
  }

  /** When the tax block runs, the reported value is the invested total plus
      the gross profit less its tax. */
  lemma AfterTaxed(taxRate: Option<real>, invested: real, value: real)
    requires TaxApplies(taxRate, value - invested)
    ensures AfterTax(taxRate, invested, value)
              == invested + ((value - invested) - (value - invested) * taxRate.value)
  {
  }

  /** The after-tax value never decreases as the pre-tax value grows, for a tax rate of at most 1. */
  lemma AfterTaxMonotone(taxRate: Option<real>, invested: real, v1: real, v2: real)
    requires TaxRateAtMostOne(taxRate)
    requires v1 <= v2
    ensures AfterTax(taxRate, invested, v1) <= AfterTax(taxRate, invested, v2)
  {
    if !TaxApplies(taxRate, v2 - invested) {
      AfterTaxUntaxed(taxRate, invested, v1);
      AfterTaxUntaxed(taxRate, invested, v2);
    } else if TaxApplies(taxRate, v1 - invested) {
      var t := taxRate.value;
      MulNonNegative(v2 - v1, 1.0 - t);
      MulDistributes(v2 - invested, v1 - invested, t);
      AfterTaxed(taxRate, invested, v1);
      AfterTaxed(taxRate, invested, v2);
    } else {
      var t := taxRate.value;
      MulNonNegative(v2 - invested, 1.0 - t);
      AfterTaxUntaxed(taxRate, invested, v1);
      AfterTaxed(taxRate, invested, v2);
    }
  }

  /** The after-tax value grows strictly with the pre-tax value, for a tax rate below 1. */
  lemma AfterTaxStrictlyMonotone(taxRate: Option<real>, invested: real, v1: real, v2: real)
    requires TaxRateBelowOne(taxRate)
    requires v1 < v2
    ensures AfterTax(taxRate, invested, v1) < AfterTax(taxRate, invested, v2)
  {
    if !TaxApplies(taxRate, v2 - invested) {
      AfterTaxUntaxed(taxRate, invested, v1);
      AfterTaxUntaxed(taxRate, invested, v2);
    } else if TaxApplies(taxRate, v1 - invested) {
      BothTaxedStrictlyMonotone(taxRate, invested, v1, v2);
    } else {
      OnlyLargerTaxedStrictlyMonotone(taxRate, invested, v1, v2);
    }
  }

  lemma BothTaxedStrictlyMonotone(taxRate: Option<real>, invested: real, v1: real, v2: real)
    requires TaxRateBelowOne(taxRate)
    requires v1 < v2
    requires TaxApplies(taxRate, v1 - invested) && TaxApplies(taxRate, v2 - invested)
    ensures AfterTax(taxRate, invested, v1) < AfterTax(taxRate, invested, v2)
  {
    AfterTaxed(taxRate, invested, v1);
    AfterTaxed(taxRate, invested, v2);
    NetStrictlyMonotone(v1, v2, invested, taxRate.value);
  }

  lemma OnlyLargerTaxedStrictlyMonotone(taxRate: Option<real>, invested: real, v1: real, v2: real)
    requires TaxRateBelowOne(taxRate)
    requires !TaxApplies(taxRate, v1 - invested) && TaxApplies(taxRate, v2 - invested)
    ensures AfterTax(taxRate, invested, v1) < AfterTax(taxRate, invested, v2)
  {
    assert v1 <= invested;
    AfterTaxUntaxed(taxRate, invested, v1);
    AfterTaxedAboveInvested(taxRate, invested, v2);
  }

  /** A taxed profit, at a rate below 1, still leaves the reported value above the invested total. */
  lemma AfterTaxedAboveInvested(taxRate: Option<real>, invested: real, value: real)
    requires TaxRateBelowOne(taxRate)
    requires TaxApplies(taxRate, value - invested)
    ensures AfterTax(taxRate, invested, value) > invested
  {
    AfterTaxed(taxRate, invested, value);
    NetAboveInvested(value, invested, taxRate.value);
  }

  /** When the tax block does not run, the reported value is the pre-tax value. */
  lemma AfterTaxUntaxed(taxRate: Option<real>, invested: real, value: real)
    requires !TaxApplies(taxRate, value - invested)
    ensures AfterTax(taxRate, invested, value) == value
  {
  }

  /** The final value of the faster-growing set is at least the other's. */
  lemma FinalValueMonotone(p1: InvestmentParams, p2: InvestmentParams)
    requires GrowsNoSlower(p1, p2)
    requires SameNonNegativeAmounts(p1, p2)
    requires TaxRateAtMostOne(p1.taxRate)
    ensures FinalValue(p1) <= FinalValue(p2)
  {
    var months := Months(p1);
    ValueMonotone(p1, p2, months);
    InvestedSameFor(p1, p2, months);
    AfterTaxMonotone(p1.taxRate, InvestedAfter(p1, months), ValueAfter(p1, months), ValueAfter(p2, months));
  }

  /** The final value grows strictly with the growth factor when something is
      invested up front, the horizon is not empty and the tax rate is below 1. */
  lemma FinalValueStrictlyMonotone(p1: InvestmentParams, p2: InvestmentParams)
    requires 0.0 < GrowthFactor(p1.annualRate) < GrowthFactor(p2.annualRate)
    requires p1.inflation == p2.inflation && Deflator(p1.inflation) > 0.0
    requires SameNonNegativeAmounts(p1, p2) && p1.initial > 0.0
    requires p1.years >= 1
    requires TaxRateBelowOne(p1.taxRate)
    ensures FinalValue(p1) < FinalValue(p2)
  {
    var months := Months(p1);
    ValueStrictlyMonotone(p1, p2, months);
    InvestedSameFor(p1, p2, months);
    AfterTaxStrictlyMonotone(p1.taxRate, InvestedAfter(p1, months), ValueAfter(p1, months), ValueAfter(p2, months));
  }

  /** The final value never decreases as the annual rate grows. */
  lemma FinalValueMonotoneInRate(p: InvestmentParams, r1: real, r2: real)
    requires Deflator(p.inflation) > 0.0
    requires p.initial >= 0.0 && p.monthlyContribution >= 0.0
    requires -12.0 <= r1 <= r2
    requires TaxRateAtMostOne(p.taxRate)
    ensures FinalValue(p.(annualRate := r1)) <= FinalValue(p.(annualRate := r2))
  {
    FinalValueMonotone(p.(annualRate := r1), p.(annualRate := r2));
  }

  /** The final value grows strictly with the annual rate when something is
      invested up front, the horizon is not empty and the tax rate is below 1. */
  lemma FinalValueStrictlyMonotoneInRate(p: InvestmentParams, r1: real, r2: real)
    requires Deflator(p.inflation) > 0.0
    requires p.initial > 0.0 && p.monthlyContribution >= 0.0
    requires p.years >= 1
    requires -12.0 < r1 < r2
    requires TaxRateBelowOne(p.taxRate)
    ensures FinalValue(p.(annualRate := r1)) < FinalValue(p.(annualRate := r2))
  {
    FinalValueStrictlyMonotone(p.(annualRate := r1), p.(annualRate := r2));
  }

  /** Higher inflation never gives a higher final value. */
  lemma FinalValueAntitoneInInflation(p: InvestmentParams, i1: real, i2: real)
    requires GrowthFactor(p.annualRate) >= 0.0
    requires p.initial >= 0.0 && p.monthlyContribution >= 0.0
    requires -12.0 < i1 <= i2
    requires TaxRateAtMostOne(p.taxRate)
    ensures FinalValue(p.(inflation := i2)) <= FinalValue(p.(inflation := i1))
  {
    FinalValueMonotone(p.(inflation := i2), p.(inflation := i1));
  }

  /** With a positive initial sum and a positive growth factor the value stays positive. */
  lemma {:induction false} ValuePositive(p: InvestmentParams, m: nat)
    requires Deflator(p.inflation) > 0.0 && GrowthFactor(p.annualRate) > 0.0
    requires p.initial > 0.0 && p.monthlyContribution >= 0.0
    ensures ValueAfter(p, m) > 0.0
  {
    if m > 0 {
      ValuePositive(p, m - 1);
      var v := ValueAfter(p, m - 1);
      StepPositive(v, GrowthFactor(p.annualRate), p.monthlyContribution, Deflator(p.inflation));
      assert ValueAfter(p, m) == (v * GrowthFactor(p.annualRate) + p.monthlyContribution) / Deflator(p.inflation);
    }
  }

  /** One month at the same rate ends strictly lower under strictly higher inflation. */
  lemma MonthStepStrictlyDeflated(p1: InvestmentParams, p2: InvestmentParams, v1: real, v2: real)
    requires p1.annualRate == p2.annualRate && GrowthFactor(p1.annualRate) > 0.0
    requires 0.0 < Deflator(p2.inflation) < Deflator(p1.inflation)
    requires p1.monthlyContribution == p2.monthlyContribution && p1.monthlyContribution >= 0.0
    requires 0.0 <= v1 <= v2 && v2 > 0.0
    ensures MonthStep(p1, v1) < MonthStep(p2, v2)
  {
    StepStrictlyDeflated(v1, v2, GrowthFactor(p1.annualRate), GrowthFactor(p2.annualRate),
      p1.monthlyContribution, p2.monthlyContribution, Deflator(p1.inflation), Deflator(p2.inflation));
    assert MonthStep(p1, v1) == (v1 * GrowthFactor(p1.annualRate) + p1.monthlyContribution) / Deflator(p1.inflation);
    assert MonthStep(p2, v2) == (v2 * GrowthFactor(p2.annualRate) + p2.monthlyContribution) / Deflator(p2.inflation);
  }

  /** With a positive initial sum, strictly higher inflation at the same rate
      gives a strictly lower value from month 1 on. */
  lemma ValueStrictlyDeflated(p1: InvestmentParams, p2: InvestmentParams, m: nat)
    requires p1.annualRate == p2.annualRate && GrowthFactor(p1.annualRate) > 0.0
    requires 0.0 < Deflator(p2.inflation) < Deflator(p1.inflation)
    requires SameNonNegativeAmounts(p1, p2) && p1.initial > 0.0
    requires m >= 1
    ensures ValueAfter(p1, m) < ValueAfter(p2, m)
  {
    ValueMonotone(p1, p2, m - 1);
    ValuePositive(p2, m - 1);
    MonthStepStrictlyDeflated(p1, p2, ValueAfter(p1, m - 1), ValueAfter(p2, m - 1));
  }

  /** Strictly higher inflation gives a strictly lower final value when something
      is invested up front, the horizon is not empty and the tax rate is below 1. */
  lemma FinalValueStrictlyAntitoneInInflation(p: InvestmentParams, i1: real, i2: real)
    requires GrowthFactor(p.annualRate) > 0.0
    requires p.initial > 0.0 && p.monthlyContribution >= 0.0
    requires p.years >= 1
    requires -12.0 < i1 < i2
    requires TaxRateBelowOne(p.taxRate)
    ensures FinalValue(p.(inflation := i2)) < FinalValue(p.(inflation := i1))
  {
    var q1, q2 := p.(inflation := i2), p.(inflation := i1);
    var months := Months(q1);
    ValueStrictlyDeflated(q1, q2, months);
    InvestedSameFor(q1, q2, months);
    AfterTaxStrictlyMonotone(q1.taxRate, InvestedAfter(q1, months), ValueAfter(q1, months), ValueAfter(q2, months));
  }

  // ---------------------------------------------------------------------------
  // Instances

  /** 1000 at 5 % for 10 years with nothing added and no tax: 3 % inflation
      gives a strictly lower final value than none. */
  lemma InflationLowersFinalValue()
    ensures var p := InvestmentParams(1000.0, 0.05, 10, 0.0, 0.0, None);
            Simulation(p.(inflation := 0.03)).finalValue < Simulation(p).finalValue
  {
    var p := InvestmentParams(1000.0, 0.05, 10, 0.0, 0.0, None);
    FinalValueStrictlyAntitoneInInflation(p, 0.0, 0.03);
    assert p.(inflation := 0.0) == p;
  }

  /** 100 a month at 12 % for one year, from nothing, without inflation or tax:
      1200 is paid in and the final value is above it. */
  lemma ContributionsGrow()
    ensures var r := Simulation(InvestmentParams(0.0, 0.12, 1, 100.0, 0.0, Some(0.0)));
            r.invested == 1200.0 && r.finalValue > 1200.0
  {
    var p := InvestmentParams(0.0, 0.12, 1, 100.0, 0.0, Some(0.0));
    SimulationLedger(p);
    ValueExceedsInvested(p, 12);
  }

  // ---------------------------------------------------------------------------
  // Arithmetic helpers

  /** One month, written on plain numbers: a smaller start, a smaller factor and
      a larger divisor end no higher. */
  lemma StepMonotone(v1: real, v2: real, g1: real, g2: real, c1: real, c2: real, d1: real, d2: real)
    requires 0.0 <= v1 <= v2
    requires 0.0 <= g1 <= g2
    requires c1 == c2 && c1 >= 0.0
    requires 0.0 < d2 <= d1
    ensures 0.0 <= (v1 * g1 + c1) / d1 <= (v2 * g2 + c2) / d2
  {
    MulMonotone(v1, v2, g1, g2);
    DivMonotone(v1 * g1 + c1, v2 * g2 + c2, d1);
    DivAntitone(v2 * g2 + c2, d2, d1);
  }

  /** One month, written on plain numbers: a strictly larger factor ends strictly higher. */
  lemma StepStrictlyMonotone(v1: real, v2: real, g1: real, g2: real, c1: real, c2: real, d1: real, d2: real)
    requires 0.0 < v1 <= v2
    requires 0.0 < g1 < g2
    requires c1 == c2 && c1 >= 0.0
    requires d1 == d2 && d1 > 0.0
    ensures 0.0 < (v1 * g1 + c1) / d1 < (v2 * g2 + c2) / d2
  {
    MulStrictlyMonotone(v1, v2, g1, g2);
    DivStrictlyMonotone(v1 * g1 + c1, v2 * g2 + c2, d1);
  }

  lemma MulNonNegative(a: real, b: real)
    requires a >= 0.0 && b >= 0.0
    ensures a * b >= 0.0
  {
  }

  lemma MulPositive(a: real, b: real)
    requires a > 0.0 && b > 0.0
    ensures a * b > 0.0
  {
  }

  /** Two taxed profits at the same rate below 1 keep their strict order after tax. */
  lemma NetStrictlyMonotone(v1: real, v2: real, invested: real, t: real)
    requires v1 < v2 && t < 1.0
    ensures invested + ((v1 - invested) - (v1 - invested) * t)
              < invested + ((v2 - invested) - (v2 - invested) * t)
  {
    var g1, g2 := v1 - invested, v2 - invested;
    var d := g2 - g1;
    assert (g2 - g2 * t) - (g1 - g1 * t) == d * (1.0 - t);
    MulPositive(d, 1.0 - t);
  }

  /** A positive profit taxed at a rate below 1 leaves the value above the invested total. */
  lemma NetAboveInvested(value: real, invested: real, t: real)
    requires value - invested > 0.0 && t < 1.0
    ensures invested + ((value - invested) - (value - invested) * t) > invested
  {
    var g := value - invested;
    assert g - g * t == g * (1.0 - t);
    MulPositive(g, 1.0 - t);
  }

  lemma MulDistributes(a: real, b: real, c: real)
    ensures a * c - b * c == (a - b) * c
  {
  }

  lemma MulAtLeastOne(v: real, g: real)
    requires v >= 0.0 && g >= 1.0
    ensures v * g >= v
  {
    MulNonNegative(v, g - 1.0);
  }

  lemma MulMonotone(v1: real, v2: real, g1: real, g2: real)
    requires 0.0 <= v1 <= v2
    requires 0.0 <= g1 <= g2
    ensures 0.0 <= v1 * g1 <= v2 * g2
  {
    MulNonNegative(v1, g1);
    MulNonNegative(v2 - v1, g1);
    MulNonNegative(v2, g2 - g1);
  }

  lemma MulStrictlyMonotone(v1: real, v2: real, g1: real, g2: real)
    requires 0.0 < v1 <= v2
    requires 0.0 < g1 < g2
    ensures 0.0 < v1 * g1 < v2 * g2
  {
    MulPositive(v1, g1);
    MulNonNegative(v2 - v1, g1);
    MulPositive(v2, g2 - g1);
  }

  lemma DivMonotone(a: real, b: real, d: real)
    requires 0.0 <= a <= b
    requires d > 0.0
    ensures 0.0 <= a / d <= b / d
  {
    MulNonNegative(a, 1.0 / d);
    MulNonNegative(b - a, 1.0 / d);
  }

  lemma DivStrictlyMonotone(a: real, b: real, d: real)
    requires 0.0 < a < b
    requires d > 0.0
    ensures 0.0 < a / d < b / d
  {
    MulPositive(a, 1.0 / d);
    MulPositive(b - a, 1.0 / d);
  }

  /** One month, written on plain numbers: the same factor and a strictly larger
      divisor on a value no higher end strictly lower. */
  lemma StepStrictlyDeflated(v1: real, v2: real, g1: real, g2: real, c1: real, c2: real, d1: real, d2: real)
    requires 0.0 <= v1 <= v2 && v2 > 0.0
    requires g1 == g2 && g1 > 0.0
    requires c1 == c2 && c1 >= 0.0
    requires 0.0 < d2 < d1
    ensures (v1 * g1 + c1) / d1 < (v2 * g2 + c2) / d2
  {
    MulMonotone(v1, v2, g1, g2);
    MulPositive(v2, g2);
    DivMonotone(v1 * g1 + c1, v2 * g2 + c2, d1);
    DivStrictlyAntitone(v2 * g2 + c2, d2, d1);
  }

  /** One month, written on plain numbers, keeps a positive value positive. */
  lemma StepPositive(v: real, g: real, c: real, d: real)
    requires v > 0.0 && g > 0.0 && c >= 0.0 && d > 0.0
    ensures (v * g + c) / d > 0.0
  {
    MulPositive(v, g);
    MulPositive(v * g + c, 1.0 / d);
  }

  /** One month, written on plain numbers, without deflation: growing a
      positive value by more than 1 and adding `c` ends strictly above `before + c`. */
  lemma StepAboveInvested(before: real, v: real, g: real, c: real)
    requires 0.0 <= before <= v && 0.0 < v && g > 1.0
    ensures before + c < (v * g + c) / 1.0
  {
    MulPositive(v, g - 1.0);
  }

  lemma DivStrictlyAntitone(a: real, d1: real, d2: real)
    requires a > 0.0
    requires 0.0 < d1 < d2
    ensures a / d2 < a / d1
  {
    MulPositive(a, d2 - d1);
    MulPositive(d1, d2);
    MulPositive(a * (d2 - d1), 1.0 / (d1 * d2));
  }

  lemma DivAntitone(a: real, d1: real, d2: real)
    requires a >= 0.0
    requires 0.0 < d1 <= d2
    ensures a / d2 <= a / d1
  {
    MulNonNegative(a, d2 - d1);
    MulPositive(d1, d2);
    MulNonNegative(a * (d2 - d1), 1.0 / (d1 * d2));
  }
}
