/**
  The calculation pass: one row per fund in list order, running totals of
  the unrounded invested amounts and future values, and the summary and
  percentage figures derived from those totals.
 */
module Reporting {
  import opened Funds
  import SipFormula

  /** One line of the per-fund table. */
  datatype Row = Row(fundName: string, investedAmount: real, estimatedReturns: real, futureValue: real)

  /** The portfolio totals. */
  datatype Summary = Summary(totalInvestedAmount: real, totalEstimatedReturns: real, totalFutureValue: real)

  /**
    Result of a calculation request: a warning when there are no funds, the
    division by zero raised by the formula at the first fund whose rate is
    zero, or the report.
   */
  datatype Calculation =
    | NoFunds
    | ZeroRateError(fundIndex: nat)
    | Report(rows: seq<Row>, summary: Summary)

  /** The two percentage figures shown beside the totals, or the division by zero they raise when nothing was invested. */
  datatype Deltas = DivisionByZero | Percentages(returnPercent: real, futurePercent: real)

  function DigitChar(d: nat): char
    requires d < 10
  {
    ('0' as int + d) as char
  }

  predicate AllDigits(s: string)
  {
    forall k :: 0 <= k < |s| ==> '0' <= s[k] <= '9'
  }

  /** Decimal notation of n, most significant digit first, without leading zeros. */
  function DecimalString(n: nat): (s: string)
    ensures s != [] && AllDigits(s)
    ensures s[0] == '0' ==> n == 0
  {
    if n < 10 then [DigitChar(n)] else DecimalString(n / 10) + [DigitChar(n % 10)]
  }

  /** The number a string of decimal digits denotes. */
  function DecimalValue(s: string): nat
    requires AllDigits(s)
  {
    if s == [] then 0 else DecimalValue(s[..|s| - 1]) * 10 + (s[|s| - 1] as int - '0' as int)
  }

  lemma {:induction false} DecimalRoundTrip(n: nat)
    ensures DecimalValue(DecimalString(n)) == n
  {
    var s := DecimalString(n);
    if n >= 10 {
      DecimalRoundTrip(n / 10);
      assert s[..|s| - 1] == DecimalString(n / 10);
    }
  }

  /** The label shown for a fund: its own name, or "Fund " and its 1-based position when the name is blank. */
  function DisplayName(fundName: string, idx: nat): (name: string)
    ensures name != []
    ensures fundName != [] ==> name == fundName
  {
    if fundName != [] then fundName else "Fund " + DecimalString(idx + 1)
  }

  /** A blank name is shown as "Fund " followed by the decimal digits of its 1-based position. */
  lemma BlankNameLabel(idx: nat)
    ensures |DisplayName("", idx)| > 5 && DisplayName("", idx)[..5] == "Fund "
    ensures AllDigits(DisplayName("", idx)[5..]) && DecimalValue(DisplayName("", idx)[5..]) == idx + 1
  {
    assert DisplayName("", idx)[5..] == DecimalString(idx + 1);
    DecimalRoundTrip(idx + 1);
  }

  /** Blank-named funds at different positions get different labels. */
  lemma PositionalLabelsDistinct(i: nat, j: nat)
    requires i != j
    ensures DisplayName("", i) != DisplayName("", j)
  {
    BlankNameLabel(i);
    BlankNameLabel(j);
  }

  function FundInvested(f: Fund): real
  {
    SipFormula.InvestedAmount(f.monthlyInvestment, f.years)
  }

  function FundFutureValue(f: Fund): real
    requires f.rateOfReturn != 0.0
  {
    SipFormula.FutureValue(f.monthlyInvestment, f.rateOfReturn, f.years)
  }

  /** A fund within the input bounds, at a non-zero (so positive) rate, never loses money. */
  lemma FundCoversInvested(f: Fund)
    requires f.rateOfReturn != 0.0
    ensures Admissible(f) ==> FundFutureValue(f) >= FundInvested(f)
  {
    if Admissible(f) {
      SipFormula.FutureValueCoversInvested(f.monthlyInvestment, f.rateOfReturn, f.years);
    }
  }

  /** The row the calculation produces for fund f at position idx, before display rounding. */
  function ReportRow(f: Fund, idx: nat): (row: Row)
    requires f.rateOfReturn != 0.0
    ensures row.investedAmount + row.estimatedReturns == row.futureValue
    ensures row.investedAmount == f.monthlyInvestment * (SipFormula.Months(f.years) as real)
    ensures Admissible(f) ==> row.estimatedReturns >= 0.0
  {
    FundCoversInvested(f);
    var fv := FundFutureValue(f);
    var invested := FundInvested(f);
    Row(DisplayName(f.fundName, idx), invested, fv - invested, fv)
  }

  predicate RatesNonZero(funds: seq<Fund>)
  {
    forall k :: 0 <= k < |funds| ==> funds[k].rateOfReturn != 0.0
  }

  /** Total paid in across the funds, in list order. */
  function SumInvested(funds: seq<Fund>): real
  {
    if funds == [] then 0.0 else SumInvested(funds[..|funds| - 1]) + FundInvested(funds[|funds| - 1])
  }

  /** Total future value across the funds, in list order. */
  function SumFutureValue(funds: seq<Fund>): real
    requires RatesNonZero(funds)
  {
    if funds == [] then 0.0 else SumFutureValue(funds[..|funds| - 1]) + FundFutureValue(funds[|funds| - 1])
  }

  function RowsInvested(rows: seq<Row>): real
  {
    if rows == [] then 0.0 else RowsInvested(rows[..|rows| - 1]) + rows[|rows| - 1].investedAmount
  }

  function RowsReturns(rows: seq<Row>): real
  {
    if rows == [] then 0.0 else RowsReturns(rows[..|rows| - 1]) + rows[|rows| - 1].estimatedReturns
  }

  function RowsFutureValue(rows: seq<Row>): real
  {
    if rows == [] then 0.0 else RowsFutureValue(rows[..|rows| - 1]) + rows[|rows| - 1].futureValue
  }

  /** Extending a prefix by one fund adds that fund's amounts to the prefix totals. */
  lemma PrefixTotalsStep(funds: seq<Fund>, idx: nat)
    requires idx < |funds| && forall k :: 0 <= k <= idx ==> funds[k].rateOfReturn != 0.0
    ensures RatesNonZero(funds[..idx]) && RatesNonZero(funds[..idx + 1])
    ensures SumInvested(funds[..idx + 1]) == SumInvested(funds[..idx]) + FundInvested(funds[idx])
    ensures SumFutureValue(funds[..idx + 1]) == SumFutureValue(funds[..idx]) + FundFutureValue(funds[idx])
  {
    assert funds[..idx + 1][..idx] == funds[..idx];
  }

  /**
    The calculation pass. No funds gives only a warning. Otherwise the funds
    are visited in order; the first fund with a zero rate aborts the pass
    (the formula divides by the monthly rate). A completed pass has one row
    per fund, in list order, and totals that are the exact sums over all
    funds, with the estimated return their difference.
   */
  method BuildReport(funds: seq<Fund>) returns (c: Calculation)
    ensures c.NoFunds? <==> funds == []
    ensures c.ZeroRateError? <==> funds != [] && !RatesNonZero(funds)
    ensures c.ZeroRateError? ==>
      c.fundIndex < |funds| && funds[c.fundIndex].rateOfReturn == 0.0 && RatesNonZero(funds[..c.fundIndex])
    ensures c.Report? ==>
      && RatesNonZero(funds)
      && |c.rows| == |funds|
      && (forall k :: 0 <= k < |funds| ==> c.rows[k] == ReportRow(funds[k], k))
      && c.summary.totalInvestedAmount == SumInvested(funds)
      && c.summary.totalFutureValue == SumFutureValue(funds)
      && c.summary.totalEstimatedReturns == SumFutureValue(funds) - SumInvested(funds)
  {
    if funds == [] {
      return NoFunds;
    }
    var totalFutureValue := 0.0;
    var totalInvestedAmount := 0.0;
    var data: seq<Row> := [];
    for idx := 0 to |funds|
      invariant forall k :: 0 <= k < idx ==> funds[k].rateOfReturn != 0.0
      invariant |data| == idx
      invariant forall k :: 0 <= k < idx ==> data[k] == ReportRow(funds[k], k)
      invariant RatesNonZero(funds[..idx]) && totalFutureValue == SumFutureValue(funds[..idx])
      invariant totalInvestedAmount == SumInvested(funds[..idx])
    {
      var fund := funds[idx];
      if fund.rateOfReturn == 0.0 {
        return ZeroRateError(idx);
      }
      var futureValue := FundFutureValue(fund);
      var investedAmount := FundInvested(fund);
      PrefixTotalsStep(funds, idx);
      totalFutureValue := totalFutureValue + futureValue;
      totalInvestedAmount := totalInvestedAmount + investedAmount;
      var row := Row(DisplayName(fund.fundName, idx), investedAmount, futureValue - investedAmount, futureValue);
      data := data + [row];
    }
    assert funds[..|funds|] == funds;
    var totalEstimatedReturn := totalFutureValue - totalInvestedAmount;
    c := Report(data, Summary(totalInvestedAmount, totalEstimatedReturn, totalFutureValue));
  }

  /**
    The percentage figures: returns and future value as percentages of the
    amount invested. They divide by the total invested, so there are none
    when it is zero.
   */
  function MetricDeltas(s: Summary): (d: Deltas)
    ensures d.DivisionByZero? <==> s.totalInvestedAmount == 0.0
    ensures d.Percentages? ==>
      && d.returnPercent * s.totalInvestedAmount == s.totalEstimatedReturns * 100.0
      && d.futurePercent * s.totalInvestedAmount == s.totalFutureValue * 100.0
  {
    if s.totalInvestedAmount == 0.0 then DivisionByZero
    else
      Percentages(s.totalEstimatedReturns / s.totalInvestedAmount * 100.0,
                  s.totalFutureValue / s.totalInvestedAmount * 100.0)
  }

  /** When the estimated return is the difference of the totals, the future value figure is 100 points above the return figure. */
  lemma FuturePercentIsReturnPercentPlusHundred(s: Summary)
    requires s.totalInvestedAmount != 0.0
    requires s.totalEstimatedReturns == s.totalFutureValue - s.totalInvestedAmount
    ensures MetricDeltas(s).futurePercent == MetricDeltas(s).returnPercent + 100.0
  {
    var d := MetricDeltas(s);
    var inv := s.totalInvestedAmount;
    assert (d.futurePercent - d.returnPercent - 100.0) * inv == 0.0;
    SipFormula.ProductZero(d.futurePercent - d.returnPercent - 100.0, inv);
  }

  lemma {:induction false} SumInvestedAppend(a: seq<Fund>, b: seq<Fund>)
    ensures SumInvested(a + b) == SumInvested(a) + SumInvested(b)
  {
    if b == [] {
      assert a + b == a;
    } else {
      SumInvestedAppend(a, b[..|b| - 1]);
      assert (a + b)[..|a + b| - 1] == a + b[..|b| - 1];
    }
  }

  /** The portfolio future value is the sum of the funds' independently computed values, however the list is split. */
  lemma {:induction false} SumFutureValueAppend(a: seq<Fund>, b: seq<Fund>)
    requires RatesNonZero(a) && RatesNonZero(b)
    ensures RatesNonZero(a + b)
    ensures SumFutureValue(a + b) == SumFutureValue(a) + SumFutureValue(b)
  {
    assert forall k :: 0 <= k < |a + b| ==> (a + b)[k] == if k < |a| then a[k] else b[k - |a|];
    if b == [] {
      assert a + b == a;
    } else {
      SumFutureValueAppend(a, b[..|b| - 1]);
      assert (a + b)[..|a + b| - 1] == a + b[..|b| - 1];
    }
  }

  /**
    The unrounded per-fund rows add up exactly to the summary: invested
    amounts to the total invested, future values to the total future value,
    and estimated returns to their difference.
   */
  lemma {:induction false} RowsAddUpToSummary(funds: seq<Fund>, rows: seq<Row>)
    requires RatesNonZero(funds)
    requires |rows| == |funds|
    requires forall k :: 0 <= k < |funds| ==> rows[k] == ReportRow(funds[k], k)
    ensures RowsInvested(rows) == SumInvested(funds)
    ensures RowsFutureValue(rows) == SumFutureValue(funds)
    ensures RowsReturns(rows) == SumFutureValue(funds) - SumInvested(funds)
  {
    if funds != [] {
      var n := |funds| - 1;
      RowsAddUpToSummary(funds[..n], rows[..n]);
    }
  }

  /** With admissible inputs the total invested is positive exactly when some fund has a positive contribution. */
  lemma {:induction false} InvestedPositiveIff(funds: seq<Fund>)
    requires forall k :: 0 <= k < |funds| ==> Admissible(funds[k])
    ensures SumInvested(funds) >= 0.0
    ensures SumInvested(funds) > 0.0 <==> exists k :: 0 <= k < |funds| && funds[k].monthlyInvestment > 0.0
  {
    if funds != [] {
      var n := |funds| - 1;
      var last := funds[n];
      InvestedPositiveIff(funds[..n]);
      assert forall k :: 0 <= k < n ==> funds[..n][k] == funds[k];
      var y := last.years as real;
      assert y >= 1.0;
      if last.monthlyInvestment > 0.0 {
        assert last.monthlyInvestment * y >= last.monthlyInvestment;
        assert FundInvested(last) > 0.0;
      } else {
        assert last.monthlyInvestment == 0.0;
        assert FundInvested(last) == 0.0;
      }
    }
  }

  /** With admissible inputs and no zero rate, the portfolio is worth at least what was paid in. */
  lemma {:induction false} PortfolioCoversInvested(funds: seq<Fund>)
    requires forall k :: 0 <= k < |funds| ==> Admissible(funds[k])
    requires RatesNonZero(funds)
    ensures SumFutureValue(funds) >= SumInvested(funds)
  {
    if funds != [] {
      var n := |funds| - 1;
      var last := funds[n];
      PortfolioCoversInvested(funds[..n]);
      SipFormula.FutureValueCoversInvested(last.monthlyInvestment, last.rateOfReturn, last.years);
    }
  }

  /** Popping fund i takes exactly that fund's amount out of the invested total. */
  lemma RemoveFundInvested(funds: seq<Fund>, i: nat)
    requires i < |funds|
    ensures SumInvested(funds[..i] + funds[i + 1..]) == SumInvested(funds) - FundInvested(funds[i])
  {
    var before, after := funds[..i], funds[i + 1..];
    assert funds == (before + [funds[i]]) + after;
    SumInvestedAppend(before + [funds[i]], after);
    SumInvestedAppend(before, after);
    assert (before + [funds[i]])[..|before|] == before;
  }

  /** Popping fund i takes exactly that fund's future value out of the future-value total. */
  lemma RemoveFundFutureValue(funds: seq<Fund>, i: nat)
    requires i < |funds| && RatesNonZero(funds)
    ensures RatesNonZero(funds[..i] + funds[i + 1..])
    ensures SumFutureValue(funds[..i] + funds[i + 1..]) == SumFutureValue(funds) - FundFutureValue(funds[i])
  {
    var before, after := funds[..i], funds[i + 1..];
    var upTo := before + [funds[i]];
    assert funds == upTo + after;
    assert RatesNonZero(before) && RatesNonZero(after) && RatesNonZero(upTo);
    SumFutureValueAppend(upTo, after);
    SumFutureValueAppend(before, after);
    assert upTo[..|before|] == before;
  }

  /** Adding the default fund adds 1000 a month for 120 months to the invested total, and more than that to the future value. */
  lemma AddDefaultFundTotals(funds: seq<Fund>)
    ensures SumInvested(funds + [DefaultFund()]) == SumInvested(funds) + 120000.0
    ensures RatesNonZero(funds) ==>
      && RatesNonZero(funds + [DefaultFund()])
      && SumFutureValue(funds + [DefaultFund()]) > SumFutureValue(funds) + 120000.0
  {
    var added := funds + [DefaultFund()];
    assert added[..|added| - 1] == funds;
    SipFormula.FutureValueExceedsInvested(1000.0, 7.0, 10);
  }
}
