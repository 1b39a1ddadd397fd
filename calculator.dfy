/** `calculate` end to end: the figures it shows and the chart it draws or
    erases, both derived from one payment computation. */
module Calculator {
  import opened Options
  import opened Powers
  import opened Payment
  import opened Schedule

  /** The derived display state: the three figures (None when cleared) and
      the chart area. */
  datatype Screen = Screen(result: Option<LoanResult>, chart: ChartView)

  /** The chart request `calculate` issues for a computation: draw with the
      same amount, rate, payment and month count, or erase. */
  function ChartRequestFor(res: Option<LoanResult>): ChartRequest
  {
    match res
    case None => Erase
    case Some(c) => Draw(c.loanAmount as real, c.monthlyInterest, c.monthlyPayment, c.repaymentPeriodInMonths)
  }

  /** `calculate`: on a finite payment show the figures and draw the chart
      from the same rate and payment; otherwise clear the figures and erase
      the chart, whatever field caused it. */
  method Calculate(loanAmount: Option<int>, annualInt: Option<int>, repaymentPeriod: Option<int>)
    returns (screen: Screen)
    ensures screen.result == Compute(loanAmount, annualInt, repaymentPeriod)
    ensures screen.result.None? ==> screen == Screen(None, Blank)
    ensures screen.result.Some? ==>
      var c := screen.result.value;
      screen.chart == Drawn(ChartData(c.loanAmount as real, c.monthlyInterest,
                                      c.monthlyPayment, c.repaymentPeriodInMonths))
  {
    var res := Compute(loanAmount, annualInt, repaymentPeriod);
    var view := Chart(ChartRequestFor(res));
    screen := Screen(res, view);
  }

  /** For every result with a non-negative month count, the last row of the
      chart is month n, shows the total payment in its second column, full
      equity and a zero balance. */
  lemma FinalRowPaysOff(loanAmount: Option<int>, annualInt: Option<int>, repaymentPeriod: Option<int>)
    requires Compute(loanAmount, annualInt, repaymentPeriod).Some?
    requires repaymentPeriod.value >= 0
    ensures var c := Compute(loanAmount, annualInt, repaymentPeriod).value;
      var data := ChartData(c.loanAmount as real, c.monthlyInterest, c.monthlyPayment, c.repaymentPeriodInMonths);
      |data| == c.repaymentPeriodInMonths + 2 &&
      data[|data| - 1] == Point(c.repaymentPeriodInMonths, c.totalPayment, c.loanAmount as real, 0.0)
  {
    var c := Compute(loanAmount, annualInt, repaymentPeriod).value;
    var n := c.repaymentPeriodInMonths;
    var l, r, p := c.loanAmount as real, c.monthlyInterest, c.monthlyPayment;
    if r == 0.0 {
      PowOne(n);
      assert false;
    }
    PaidOff(l, r, p, n);
    ChartDataShape(l, r, p, n);
  }

  /** For a non-negative amount, a positive rate and a positive period, the
      balance column of the chart never rises from one month to the next and
      stays between zero and the amount borrowed. */
  lemma BalanceAmortizes(loanAmount: int, annualInt: int, repaymentPeriod: int, c: LoanResult)
    requires loanAmount >= 0 && annualInt > 0 && repaymentPeriod > 0
    requires Compute(Some(loanAmount), Some(annualInt), Some(repaymentPeriod)) == Some(c)
    ensures var data := ChartData(c.loanAmount as real, c.monthlyInterest, c.monthlyPayment, c.repaymentPeriodInMonths);
      && (forall k :: 1 <= k < |data| - 1 ==> data[k + 1].loanBalance <= data[k].loanBalance)
      && (forall k :: 1 <= k < |data| ==> 0.0 <= data[k].loanBalance <= loanAmount as real)
  {
    PaymentCoversInterest(loanAmount, annualInt, repaymentPeriod);
    var n := c.repaymentPeriodInMonths;
    var l, r, p := c.loanAmount as real, c.monthlyInterest, c.monthlyPayment;
    var data := ChartData(l, r, p, n);
    ChartDataShape(l, r, p, n);
    PaidOff(l, r, p, n);
    forall k | 1 <= k < |data| - 1
      ensures data[k + 1].loanBalance <= data[k].loanBalance
    {
      BalanceNonIncreasing(l, r, p, k - 1);
    }
    forall k | 1 <= k < |data|
      ensures 0.0 <= data[k].loanBalance <= l
    {
      BalanceNonIncreasing(l, r, p, k - 1);
      BalanceMonotone(l, r, p, k - 1, n);
    }
  }
}
