/**
  The future value of a Systematic Investment Plan: a fixed contribution
  paid at the start of every month, compounding monthly at one twelfth of
  the annual rate. Money and rates are exact reals here, not floats.
 */
module SipFormula {

  /** x raised to the natural power n, by repeated multiplication. */
  function Pow(x: real, n: nat): real
  {
    if n == 0 then 1.0 else x * Pow(x, n - 1)
  }

  /** Number of monthly contributions made over the given number of years. */
  function Months(years: nat): nat
  {
    years * 12
  }

  /** Monthly rate as a fraction, from an annual rate given in percent. */
  function MonthlyRate(rateOfReturn: real): real
  {
    rateOfReturn / 100.0 / 12.0
  }

  /**
    The annuity-due sum q^1 + q^2 + ... + q^n: with q = 1 + monthly rate,
    the contribution made at the start of month n - k + 1 has grown by a
    factor q^k at the end of month n.
   */
  function AnnuityDueSum(q: real, n: nat): real
  {
    if n == 0 then 0.0 else AnnuityDueSum(q, n - 1) + Pow(q, n)
  }

  /** The geometric-series identity (q - 1) * (q + ... + q^n) == (q^n - 1) * q. */
  lemma {:induction false} GeometricClosedForm(q: real, n: nat)
    ensures AnnuityDueSum(q, n) * (q - 1.0) == (Pow(q, n) - 1.0) * q
  {
    if n > 0 {
      GeometricClosedForm(q, n - 1);
      var s, p := AnnuityDueSum(q, n - 1), Pow(q, n - 1);
      assert Pow(q, n) == q * p;
      calc {
        AnnuityDueSum(q, n) * (q - 1.0);
        (s + q * p) * (q - 1.0);
        s * (q - 1.0) + q * p * (q - 1.0);
        (p - 1.0) * q + q * p * (q - 1.0);
        (q * p - 1.0) * q;
      }
    }
  }

  /**
    The closed form the calculator evaluates, ((1 + r)^n - 1) / r * (1 + r),
    is the annuity-due sum whenever r is non-zero.
   */
  lemma ClosedFormIsAnnuityDue(r: real, n: nat)
    requires r != 0.0
    ensures ((Pow(1.0 + r, n) - 1.0) / r) * (1.0 + r) == AnnuityDueSum(1.0 + r, n)
  {
    var q := 1.0 + r;
    GeometricClosedForm(q, n);
    var s := AnnuityDueSum(q, n);
    var a := Pow(q, n) - 1.0;
    assert q - 1.0 == r;
    assert s * r == a * q;
    var t := a / r;
    assert t * r == a;
    ProductZero(s - t * q, r);
  }

  lemma ProductZero(x: real, r: real)
    requires r != 0.0 && x * r == 0.0
    ensures x == 0.0
  {
  }

  /**
    Future value of a monthly investment after the given years at the given
    annual rate (percent). The closed form divides by the monthly rate, so a
    zero rate is outside its domain. The result is the contribution times the
    annuity-due sum over all months.
   */
  function FutureValue(monthlyInvestment: real, rateOfReturn: real, years: nat): (fv: real)
    requires rateOfReturn != 0.0
    ensures fv == monthlyInvestment * AnnuityDueSum(1.0 + MonthlyRate(rateOfReturn), Months(years))
  {
    var months := Months(years);
    var monthlyRate := MonthlyRate(rateOfReturn);
    ClosedFormIsAnnuityDue(monthlyRate, months);
    monthlyInvestment * ((Pow(1.0 + monthlyRate, months) - 1.0) / monthlyRate) * (1.0 + monthlyRate)
  }

  /** With no growth (q = 1) each of the n terms is 1, so the sum is the count. */
  lemma {:induction false} AnnuityDueSumWithoutGrowth(n: nat)
    ensures AnnuityDueSum(1.0, n) == n as real
  {
    if n > 0 {
      AnnuityDueSumWithoutGrowth(n - 1);
      PowOfOne(n);
    }
  }

  lemma {:induction false} PowOfOne(k: nat)
    ensures Pow(1.0, k) == 1.0
  {
    if k > 0 {
      PowOfOne(k - 1);
    }
  }

  /**
    Total paid in: one contribution per month. It is the annuity-due sum
    with no growth, the same contributions the future value compounds.
   */
  function InvestedAmount(monthlyInvestment: real, years: nat): (invested: real)
    ensures invested == monthlyInvestment * (Months(years) as real)
    ensures invested == monthlyInvestment * AnnuityDueSum(1.0, Months(years))
  {
    AnnuityDueSumWithoutGrowth(Months(years));
    monthlyInvestment * (years as real) * 12.0
  }

  lemma {:induction false} PowPositive(q: real, k: nat)
    requires q > 0.0
    ensures Pow(q, k) > 0.0
  {
    if k > 0 {
      PowPositive(q, k - 1);
    }
  }

  lemma {:induction false} PowAboveOne(q: real, k: nat)
    requires q > 1.0 && k >= 1
    ensures Pow(q, k) > 1.0
  {
    if k > 1 {
      PowAboveOne(q, k - 1);
      assert q * Pow(q, k - 1) > Pow(q, k - 1);
    }
  }

  /** With growth (q > 1) each of the n terms exceeds 1, so the sum exceeds n. */
  lemma {:induction false} AnnuityDueSumAboveCount(q: real, n: nat)
    requires q > 1.0 && n >= 1
    ensures AnnuityDueSum(q, n) > n as real
  {
    PowAboveOne(q, n);
    if n > 1 {
      AnnuityDueSumAboveCount(q, n - 1);
    }
  }

  /** With a positive factor every term is positive, so the sum grows with n. */
  lemma {:induction false} AnnuityDueSumIncreasing(q: real, m: nat, n: nat)
    requires q > 0.0 && m < n
    ensures AnnuityDueSum(q, m) < AnnuityDueSum(q, n)
  {
    PowPositive(q, n);
    if m < n - 1 {
      AnnuityDueSumIncreasing(q, m, n - 1);
    }
  }

  /** A positive rate on a positive contribution always beats the principal. */
  lemma FutureValueExceedsInvested(monthlyInvestment: real, rateOfReturn: real, years: nat)
    requires monthlyInvestment > 0.0 && rateOfReturn > 0.0 && years >= 1
    ensures FutureValue(monthlyInvestment, rateOfReturn, years) > InvestedAmount(monthlyInvestment, years)
  {
    var q, n := 1.0 + MonthlyRate(rateOfReturn), Months(years);
    AnnuityDueSumAboveCount(q, n);
    assert n as real == (years as real) * 12.0;
    MultiplyPositiveIncreases(monthlyInvestment, n as real, AnnuityDueSum(q, n));
  }

  /** At a non-negative rate a non-negative contribution never loses money. */
  lemma FutureValueCoversInvested(monthlyInvestment: real, rateOfReturn: real, years: nat)
    requires monthlyInvestment >= 0.0 && rateOfReturn > 0.0
    ensures FutureValue(monthlyInvestment, rateOfReturn, years) >= InvestedAmount(monthlyInvestment, years)
  {
    if monthlyInvestment > 0.0 && years >= 1 {
      FutureValueExceedsInvested(monthlyInvestment, rateOfReturn, years);
    } else if years == 0 {
      assert Months(years) == 0;
    }
  }

  /** Staying invested longer strictly increases the future value. */
  lemma FutureValueIncreasesWithYears(monthlyInvestment: real, rateOfReturn: real, years: nat, moreYears: nat)
    requires monthlyInvestment > 0.0 && rateOfReturn > 0.0 && years < moreYears
    ensures FutureValue(monthlyInvestment, rateOfReturn, years) < FutureValue(monthlyInvestment, rateOfReturn, moreYears)
  {
    var q := 1.0 + MonthlyRate(rateOfReturn);
    AnnuityDueSumIncreasing(q, Months(years), Months(moreYears));
    MultiplyPositiveIncreases(monthlyInvestment, AnnuityDueSum(q, Months(years)), AnnuityDueSum(q, Months(moreYears)));
  }

  lemma MultiplyPositiveIncreases(c: real, a: real, b: real)
    requires c > 0.0 && a < b
    ensures c * a < c * b
  {
  }

  /** 1000 a month for one year at 12% (1% a month) grows to 12,809.33 after rounding to cents. */
  lemma OneYearAtTwelvePercent()
    ensures 12809.328 < FutureValue(1000.0, 12.0, 1) < 12809.329
  {
  }
}
