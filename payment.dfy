/** The payment arithmetic of `calculate`: the monthly rate and month count
    derived from the parsed fields, the annuity payment and the two totals. */
module Payment {
  import opened Options
  import opened Powers

  /** The figures `calculate` shows, with the rate and month count it hands
      on to the chart. */
  datatype LoanResult = LoanResult(
    loanAmount: int,
    monthlyInterest: real,
    repaymentPeriodInMonths: int,
    monthlyPayment: real,
    totalPayment: real,
    totalInterest: real)

  /** The monthly rate: the annual percentage spread over 100 * 12. */
  function MonthlyInterest(annualInt: int): (r: real)
    ensures r * 1200.0 == annualInt as real
  {
    annualInt as real / (100.0 * 12.0)
  }

  /** The number of monthly payments in a period of whole years. */
  function MonthsCount(repaymentPeriod: int): (n: int)
    ensures n % 12 == 0 && n / 12 == repaymentPeriod
  {
    repaymentPeriod * 12
  }

  /** x = (1 + r)^n, None where `Math.pow` overflows to Infinity. */
  function Growth(monthlyInterest: real, months: int): Option<real>
  {
    IntPow(1.0 + monthlyInterest, months)
  }

  /** The annuity formula L * x * r / (x - 1): the payment p that solves
      p * (x - 1) == L * x * r. */
  function AnnuityPayment(loanAmount: real, x: real, monthlyInterest: real): (p: real)
    requires x != 1.0
    ensures p * (x - 1.0) == loanAmount * x * monthlyInterest
  {
    var p := (loanAmount * x * monthlyInterest) / (x - 1.0);
    QuotientTimesDivisor(loanAmount * x * monthlyInterest, x - 1.0);
    p
  }

  /** The annuity payment is finite exactly when x exists and differs from 1. */
  predicate Finite(annualInt: int, repaymentPeriod: int)
  {
    var x := Growth(MonthlyInterest(annualInt), MonthsCount(repaymentPeriod));
    x.Some? && x.value != 1.0
  }

  /** The result's payment solves the annuity equation p * (x - 1) == L * x * r
      for its own rate r and month count n, with x = (1 + r)^n defined and
      different from 1. */
  predicate SolvesAnnuity(c: LoanResult)
  {
    var x := Growth(c.monthlyInterest, c.repaymentPeriodInMonths);
    x.Some? && x.value != 1.0 &&
    c.monthlyPayment * (x.value - 1.0) == c.loanAmount as real * x.value * c.monthlyInterest
  }

  /** `calculate` on the three parsed fields (None for NaN). None is the
      branch where `isFinite(monthlyPayment)` fails and every output is
      cleared. */
  function Compute(loanAmount: Option<int>, annualInt: Option<int>, repaymentPeriod: Option<int>)
    : (res: Option<LoanResult>)
    ensures res.Some? <==>
      loanAmount.Some? && annualInt.Some? && repaymentPeriod.Some? &&
      Finite(annualInt.value, repaymentPeriod.value)
    ensures res.Some? ==>
      && res.value.loanAmount == loanAmount.value
      && res.value.monthlyInterest * 1200.0 == annualInt.value as real
      && res.value.repaymentPeriodInMonths == 12 * repaymentPeriod.value
      && res.value.totalPayment == res.value.monthlyPayment * res.value.repaymentPeriodInMonths as real
      && res.value.totalPayment - res.value.totalInterest == res.value.loanAmount as real
    ensures res.Some? ==> SolvesAnnuity(res.value)
  {
    if loanAmount.None? || annualInt.None? || repaymentPeriod.None? then None
    else
      var monthlyInterest := MonthlyInterest(annualInt.value);
      var months := MonthsCount(repaymentPeriod.value);
      var x := Growth(monthlyInterest, months);
      if x.None? || x.value == 1.0 then None
      else
        var monthlyPayment := AnnuityPayment(loanAmount.value as real, x.value, monthlyInterest);
        var totalPayment := monthlyPayment * months as real;
        Some(LoanResult(loanAmount.value, monthlyInterest, months, monthlyPayment,
                        totalPayment, totalPayment - loanAmount.value as real))
  }

  /** Which parsed inputs produce a result: every field parsed, a nonzero
      period, a rate other than 0% (base 1) and -2400% (base -1, raised to an
      even power), and not -1200% (base 0) under a negative period. A zero
      rate is not special-cased: it yields no result. */
  lemma ValidityCharacterization(loanAmount: Option<int>, annualInt: Option<int>, repaymentPeriod: Option<int>)
    ensures Compute(loanAmount, annualInt, repaymentPeriod).Some? <==>
      loanAmount.Some? && annualInt.Some? && repaymentPeriod.Some? &&
      annualInt.value != 0 && annualInt.value != -2400 && repaymentPeriod.value != 0 &&
      !(annualInt.value == -1200 && repaymentPeriod.value < 0)
  {
    if annualInt.Some? && repaymentPeriod.Some? {
      var rate, years := annualInt.value, repaymentPeriod.value;
      var base := 1.0 + MonthlyInterest(rate);
      var months := MonthsCount(years);
      IntPowEvenIsOne(base, months, 6 * years);
      assert base == 1.0 <==> rate == 0;
      assert base == -1.0 <==> rate == -2400;
      assert base == 0.0 <==> rate == -1200;
    }
  }

  /** With a positive rate and period and a non-negative amount there is a
      result, and its payment covers at least the first month's interest. */
  lemma PaymentCoversInterest(loanAmount: int, annualInt: int, repaymentPeriod: int)
    requires loanAmount >= 0 && annualInt > 0 && repaymentPeriod > 0
    ensures var res := Compute(Some(loanAmount), Some(annualInt), Some(repaymentPeriod));
      res.Some? && res.value.monthlyInterest > 0.0 &&
      res.value.monthlyPayment >= loanAmount as real * res.value.monthlyInterest
  {
    var r := MonthlyInterest(annualInt);
    var n := MonthsCount(repaymentPeriod);
    PowAboveOne(1.0 + r, n);
    var res := Compute(Some(loanAmount), Some(annualInt), Some(repaymentPeriod));
    var x := Pow(1.0 + r, n);
    var p := res.value.monthlyPayment;
    var l := loanAmount as real;
    assert (p - l * r) * (x - 1.0) == l * r;
    NonNegativeFactor(p - l * r, x - 1.0, l, r);
  }

  lemma QuotientTimesDivisor(a: real, b: real)
    requires b != 0.0
    ensures (a / b) * b == a
  {
  }

  /** With a positive rate and period and a non-negative amount, the total
      paid is at least the amount borrowed: total interest is never negative. */
  lemma InterestNonNegative(loanAmount: int, annualInt: int, repaymentPeriod: int)
    requires loanAmount >= 0 && annualInt > 0 && repaymentPeriod > 0
    ensures var res := Compute(Some(loanAmount), Some(annualInt), Some(repaymentPeriod));
      res.Some? && res.value.totalInterest >= 0.0
  {
    var r := MonthlyInterest(annualInt);
    var n := MonthsCount(repaymentPeriod);
    PowAboveOne(1.0 + r, n);
    GrowthBound(r, n);
    var res := Compute(Some(loanAmount), Some(annualInt), Some(repaymentPeriod));
    TotalCoversAmount(res.value.monthlyPayment, Pow(1.0 + r, n), r, loanAmount as real, n as real);
  }

  /** The arithmetic behind InterestNonNegative, on plain reals. */
  lemma TotalCoversAmount(p: real, x: real, r: real, l: real, n: real)
    requires x > 1.0 && l >= 0.0 && p * (x - 1.0) == l * x * r
    requires x - 1.0 <= n * r * x
    ensures p * n >= l
  {
    var slack := n * r * x - (x - 1.0);
    assert (p * n - l) * (x - 1.0) == n * (p * (x - 1.0)) - l * (x - 1.0);
    assert (p * n - l) * (x - 1.0) == l * slack;
    NonNegativeFactor(p * n - l, x - 1.0, l, slack);
  }

  lemma NonNegativeFactor(a: real, b: real, l: real, r: real)
    requires b > 0.0 && l >= 0.0 && r >= 0.0 && a * b == l * r
    ensures a >= 0.0
  {
    assert l * r >= 0.0;
  }
}
