/** The data table behind the chart: a header row, then one row per month
    0 .. monthsCount holding the cumulative payments, the equity built up
    and the balance still owed. */
module Schedule {
  import opened Powers

  /** A row of the table: the header labels, or one month's point. The
      column labelled "Total Interest Payments" holds month * payment, the
      cumulative gross payment. */
  datatype ChartRow =
    | Labels(names: seq<string>)
    | Point(month: int, totalInterestPayments: real, totalEquity: real, loanBalance: real)

  /** The fixed first row of the table. */
  const Header: ChartRow := Labels(["Year", "Total Interest Payments", "Total Equity", "Loan Balance"])

  /** A call of `chart`: with no arguments it only erases; with four it draws. */
  datatype ChartRequest =
    | Erase
    | Draw(loanAmount: real, monthlyInterest: real, monthlyPayment: real, monthsCount: int)

  /** What the chart area holds afterwards. */
  datatype ChartView = Blank | Drawn(data: seq<ChartRow>)

  /** Equity after month i: each month adds the payment less the interest
      on the principal not yet covered by equity. */
  function EquityAt(loanAmount: real, monthlyInterest: real, monthlyPayment: real, i: nat): real
  {
    if i == 0 then 0.0
    else
      var equity := EquityAt(loanAmount, monthlyInterest, monthlyPayment, i - 1);
      equity + (monthlyPayment - (loanAmount - equity) * monthlyInterest)
  }

  /** Balance after month i: each month removes the payment less the
      interest on the balance. */
  function BalanceAt(loanAmount: real, monthlyInterest: real, monthlyPayment: real, i: nat): real
  {
    if i == 0 then loanAmount
    else
      var balance := BalanceAt(loanAmount, monthlyInterest, monthlyPayment, i - 1);
      balance - (monthlyPayment - balance * monthlyInterest)
  }

  function PointAt(loanAmount: real, monthlyInterest: real, monthlyPayment: real, i: nat): ChartRow
  {
    Point(i, i as real * monthlyPayment,
          EquityAt(loanAmount, monthlyInterest, monthlyPayment, i),
          BalanceAt(loanAmount, monthlyInterest, monthlyPayment, i))
  }

  /** The rows for months 0 .. k - 1. */
  function Points(loanAmount: real, monthlyInterest: real, monthlyPayment: real, k: nat): (rows: seq<ChartRow>)
    ensures |rows| == k
    ensures forall j :: 0 <= j < k ==> rows[j] == PointAt(loanAmount, monthlyInterest, monthlyPayment, j)
  {
    if k == 0 then []
    else Points(loanAmount, monthlyInterest, monthlyPayment, k - 1)
         + [PointAt(loanAmount, monthlyInterest, monthlyPayment, k - 1)]
  }

  /** One step of the equity recurrence, from the equity of month i - 1. */
  lemma EquityStep(loanAmount: real, monthlyInterest: real, monthlyPayment: real, i: nat, equity: real)
    requires i > 0 && equity == EquityAt(loanAmount, monthlyInterest, monthlyPayment, i - 1)
    ensures EquityAt(loanAmount, monthlyInterest, monthlyPayment, i)
         == equity + (monthlyPayment - (loanAmount - equity) * monthlyInterest)
  {
  }

  /** One step of the balance recurrence, from the balance of month i - 1. */
  lemma BalanceStep(loanAmount: real, monthlyInterest: real, monthlyPayment: real, i: nat, balance: real)
    requires i > 0 && balance == BalanceAt(loanAmount, monthlyInterest, monthlyPayment, i - 1)
    ensures BalanceAt(loanAmount, monthlyInterest, monthlyPayment, i)
         == balance - (monthlyPayment - balance * monthlyInterest)
  {
  }

  /** Appending month k's point to the rows for months 0 .. k - 1. */
  lemma AppendPoint(loanAmount: real, monthlyInterest: real, monthlyPayment: real, k: nat)
    ensures [Header] + Points(loanAmount, monthlyInterest, monthlyPayment, k + 1)
         == [Header] + Points(loanAmount, monthlyInterest, monthlyPayment, k)
            + [PointAt(loanAmount, monthlyInterest, monthlyPayment, k)]
  {
  }

  /** How many times the loop `for (i = 0; i <= monthsCount; i++)` runs. */
  function RowCount(monthsCount: int): nat
  {
    if monthsCount >= 0 then monthsCount + 1 else 0
  }

  /** The whole table `chart` builds before handing it to the renderer. */
  function ChartData(loanAmount: real, monthlyInterest: real, monthlyPayment: real, monthsCount: int)
    : (data: seq<ChartRow>)
    ensures |data| == 1 + RowCount(monthsCount) && data[0] == Header
  {
    [Header] + Points(loanAmount, monthlyInterest, monthlyPayment, RowCount(monthsCount))
  }

  /** `chart`: erase on a call without arguments; otherwise run the loop that
      updates equity and balance month by month and appends one row each. */
  method Chart(request: ChartRequest) returns (view: ChartView)
    ensures request.Erase? ==> view == Blank
    ensures request.Draw? ==>
      view == Drawn(ChartData(request.loanAmount, request.monthlyInterest,
                              request.monthlyPayment, request.monthsCount))
  {
    if request.Erase? {
      return Blank;
    }
    var loanAmount, monthlyInterest, monthlyPayment, monthsCount :=
      request.loanAmount, request.monthlyInterest, request.monthlyPayment, request.monthsCount;
    var data := [Header];
    var equity, loanBalance := 0.0, 0.0;
    var i := 0;
    while i <= monthsCount
      invariant 0 <= i <= RowCount(monthsCount)
      invariant data == [Header] + Points(loanAmount, monthlyInterest, monthlyPayment, i)
      invariant i > 0 ==> equity == EquityAt(loanAmount, monthlyInterest, monthlyPayment, i - 1)
      invariant i > 0 ==> loanBalance == BalanceAt(loanAmount, monthlyInterest, monthlyPayment, i - 1)
    {
      if i == 0 {
        equity := 0.0;
        loanBalance := loanAmount;
      } else {
        EquityStep(loanAmount, monthlyInterest, monthlyPayment, i, equity);
        BalanceStep(loanAmount, monthlyInterest, monthlyPayment, i, loanBalance);
        equity := equity + (monthlyPayment - (loanAmount - equity) * monthlyInterest);
        loanBalance := loanBalance - (monthlyPayment - loanBalance * monthlyInterest);
      }
      ghost var row := PointAt(loanAmount, monthlyInterest, monthlyPayment, i);
      assert row == Point(i, i as real * monthlyPayment, equity, loanBalance);
      data := data + [Point(i, i as real * monthlyPayment, equity, loanBalance)];
      AppendPoint(loanAmount, monthlyInterest, monthlyPayment, i);
      i := i + 1;
    }
    assert i == RowCount(monthsCount);
    view := Drawn(data);
  }

  /** The table is the header followed by one row per month 0 .. monthsCount
      in increasing order; the second column is the month times the payment,
      and month 0 starts with no equity and the whole amount owed. */
  lemma ChartDataShape(loanAmount: real, monthlyInterest: real, monthlyPayment: real, monthsCount: int)
    ensures var data := ChartData(loanAmount, monthlyInterest, monthlyPayment, monthsCount);
      && |data| == 1 + RowCount(monthsCount)
      && data[0] == Header
      && (forall k :: 1 <= k < |data| ==>
            data[k].Point? && data[k].month == k - 1 &&
            data[k].totalInterestPayments == (k - 1) as real * monthlyPayment)
      && (monthsCount >= 0 ==> data[1] == Point(0, 0.0, 0.0, loanAmount))
  {
  }

  /** Each step moves as much into equity as it takes off the balance, so
      equity and balance always add up to the amount borrowed. */
  lemma {:induction false} Conservation(loanAmount: real, monthlyInterest: real, monthlyPayment: real, i: nat)
    ensures EquityAt(loanAmount, monthlyInterest, monthlyPayment, i)
          + BalanceAt(loanAmount, monthlyInterest, monthlyPayment, i) == loanAmount
  {
    if i > 0 {
      Conservation(loanAmount, monthlyInterest, monthlyPayment, i - 1);
      var e := EquityAt(loanAmount, monthlyInterest, monthlyPayment, i - 1);
      var b := BalanceAt(loanAmount, monthlyInterest, monthlyPayment, i - 1);
      assert (loanAmount - e) * monthlyInterest == b * monthlyInterest;
    }
  }

  /** Every data row of the table splits the amount borrowed between equity
      and balance. */
  lemma ChartConservation(loanAmount: real, monthlyInterest: real, monthlyPayment: real, monthsCount: int)
    ensures var data := ChartData(loanAmount, monthlyInterest, monthlyPayment, monthsCount);
      forall k :: 1 <= k < |data| ==>
        data[k].Point? && data[k].totalEquity + data[k].loanBalance == loanAmount
  {
    var data := ChartData(loanAmount, monthlyInterest, monthlyPayment, monthsCount);
    forall k | 1 <= k < |data|
      ensures data[k].Point? && data[k].totalEquity + data[k].loanBalance == loanAmount
    {
      Conservation(loanAmount, monthlyInterest, monthlyPayment, k - 1);
    }
  }

  /** The balance recurrence in closed form, multiplied through by r:
      r * B(i) == r * L * g^i - p * (g^i - 1) with g = 1 + r. */
  lemma {:induction false} BalanceClosedForm(loanAmount: real, monthlyInterest: real, monthlyPayment: real, i: nat)
    ensures var g := Pow(1.0 + monthlyInterest, i);
      monthlyInterest * BalanceAt(loanAmount, monthlyInterest, monthlyPayment, i)
        == monthlyInterest * loanAmount * g - monthlyPayment * (g - 1.0)
  {
    if i == 0 {
      ClosedFormStart(monthlyInterest, loanAmount, monthlyPayment,
                      BalanceAt(loanAmount, monthlyInterest, monthlyPayment, 0),
                      Pow(1.0 + monthlyInterest, 0));
    } else {
      BalanceClosedForm(loanAmount, monthlyInterest, monthlyPayment, i - 1);
      var r, l, p := monthlyInterest, loanAmount, monthlyPayment;
      var b, g, next := BalanceAt(l, r, p, i - 1), Pow(1.0 + r, i - 1), Pow(1.0 + r, i);
      assert next == (1.0 + r) * g;
      ClosedFormStep(r, l, p, b, BalanceAt(l, r, p, i), g, next);
    }
  }

  /** Month 0 of BalanceClosedForm, on plain reals. */
  lemma ClosedFormStart(r: real, l: real, p: real, b: real, g: real)
    requires b == l && g == 1.0
    ensures r * b == r * l * g - p * (g - 1.0)
  {
  }

  /** One month of BalanceClosedForm, on plain reals: if r * b fits the
      closed form at g, then r times the next balance fits it at (1 + r) * g. */
  lemma ClosedFormStep(r: real, l: real, p: real, b: real, after: real, g: real, next: real)
    requires next == (1.0 + r) * g && after == b - (p - b * r)
    requires r * b == r * l * g - p * (g - 1.0)
    ensures r * after == r * l * next - p * (next - 1.0)
  {
    calc {
      r * after;
      (1.0 + r) * (r * b) - r * p;
      (1.0 + r) * (r * l * g - p * (g - 1.0)) - r * p;
      r * l * ((1.0 + r) * g) - p * ((1.0 + r) * g - 1.0);
    }
  }

  /** When the payment solves the annuity equation for n months at a nonzero
      rate, the balance after month n is exactly zero and equity has reached
      the amount borrowed: the loan is repaid. */
  lemma PaidOff(loanAmount: real, monthlyInterest: real, monthlyPayment: real, n: nat)
    requires monthlyInterest != 0.0
    requires var x := Pow(1.0 + monthlyInterest, n);
      monthlyPayment * (x - 1.0) == loanAmount * x * monthlyInterest
    ensures BalanceAt(loanAmount, monthlyInterest, monthlyPayment, n) == 0.0
    ensures EquityAt(loanAmount, monthlyInterest, monthlyPayment, n) == loanAmount
  {
    BalanceClosedForm(loanAmount, monthlyInterest, monthlyPayment, n);
    Conservation(loanAmount, monthlyInterest, monthlyPayment, n);
    var b := BalanceAt(loanAmount, monthlyInterest, monthlyPayment, n);
    assert monthlyInterest * b == 0.0;
  }

  /** With a non-negative rate and a payment at least the interest on the
      amount borrowed, the balance never grows and never exceeds that amount. */
  lemma {:induction false} BalanceNonIncreasing(loanAmount: real, monthlyInterest: real, monthlyPayment: real, i: nat)
    requires monthlyInterest >= 0.0 && monthlyPayment >= loanAmount * monthlyInterest
    ensures BalanceAt(loanAmount, monthlyInterest, monthlyPayment, i + 1)
         <= BalanceAt(loanAmount, monthlyInterest, monthlyPayment, i)
         <= loanAmount
  {
    var b := BalanceAt(loanAmount, monthlyInterest, monthlyPayment, i);
    if i > 0 {
      BalanceNonIncreasing(loanAmount, monthlyInterest, monthlyPayment, i - 1);
    }
    assert b * monthlyInterest <= loanAmount * monthlyInterest;
  }

  /** The balance of a later month is at most that of an earlier one. */
  lemma {:induction false} BalanceMonotone(loanAmount: real, monthlyInterest: real, monthlyPayment: real, i: nat, j: nat)
    requires monthlyInterest >= 0.0 && monthlyPayment >= loanAmount * monthlyInterest
    requires i <= j
    ensures BalanceAt(loanAmount, monthlyInterest, monthlyPayment, j)
         <= BalanceAt(loanAmount, monthlyInterest, monthlyPayment, i)
  {
    if i < j {
      BalanceMonotone(loanAmount, monthlyInterest, monthlyPayment, i, j - 1);
      BalanceNonIncreasing(loanAmount, monthlyInterest, monthlyPayment, j - 1);
    }
  }
}
