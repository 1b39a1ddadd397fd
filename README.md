# LoanCalculator amortization core in Dafny

This project models the arithmetic of the browser loan calculator in `app.js`.
The calculator reads three fields: amount, annual interest percent and period in years.
From them `calculate` derives:

- the monthly rate (percent / 1200);
- the month count (years × 12);
- the annuity payment `L·x·r/(x−1)` with `x = (1+r)^n`;
- the total payment (payment × months) and the total interest (total payment − amount).

It shows these figures only when the payment is finite. Otherwise it clears them and erases the chart.
On a finite payment, `chart` builds a data table: a fixed header row, then one row
`[i, i·payment, equity, balance]` for each month `i = 0 … n`.
Equity and balance start at 0 and the amount and follow two recurrences.

Modules, one per concern:

- `Options`: `Option`. `None` stands for NaN, which is what `parseInt` gives for an empty or non-numeric field, and for a non-finite payment.
- `Powers`: `Math.pow` over exact reals for integer exponents, with the facts about powers the proofs need.
- `Payment`: the pure payment computation `Compute`, and which inputs yield a result.
- `Schedule`: `chart` as a method. Its loop updates equity and balance and appends rows. It is proved equal to the table function `ChartData`, and lemmas about that function give the laws of the schedule.
- `Calculator`: `calculate` end to end. It shows figures and a chart drawn from the same rate and payment, or it clears both.

Modelling choices:

- Doubles are exact `real`s. `isFinite(monthlyPayment)` becomes "all three fields parsed, `x` exists and `x ≠ 1`". `x` fails to exist only for `Math.pow(0, negative)`, which is Infinity.
- Parsed integers may be negative or zero. The source does no range check on the parsed values (amount, rate and period may be zero or negative), and such values reach it through paste or stored values. The model keeps them. `Payment.ValidityCharacterization` therefore gives the complete answer. A result exists exactly when all fields parse, the period is nonzero, the rate is neither 0% nor −2400%, and the rate is not −1200% under a negative period. Zero rate is not special-cased: it yields no result.
- With a negative month count the loop body never runs, and the table is the header alone.
- The column labelled "Total Interest Payments" holds `i × payment`. That is the cumulative gross payment, not interest. The model reproduces this, and `Calculator.FinalRowPaysOff` shows that its last value is the total payment.
- The first header label is "Year", although the rows are months. This is reproduced as is.
- The full payoff holds for every result with a non-negative month count, not only for positive rates. The closed form `r·B(i) = r·L·g^i − p·(g^i − 1)` makes `B(n) = 0` whenever `p·(x−1) = L·x·r` and `r ≠ 0`.

## Model

| member | source | states |
|---|---|---|
| Powers.IntPow | app.js:59 | `Math.pow(b, n)` for integer n: None (Infinity) exactly when the base is 0 and the exponent negative; a negative exponent gives the reciprocal, whose product with b^(−n) is 1 |
| Powers.IntPowEvenIsOne | app.js:59-60 | for an even exponent, as every month count is, `x` equals 1 (the zero divisor of the payment formula) exactly when the exponent is 0 or the base is 1 or −1 |
| Payment.MonthlyInterest | app.js:55 | the monthly rate times 1200 is the parsed annual percent |
| Payment.MonthsCount | app.js:56 | the month count is a multiple of 12 whose quotient by 12 is the parsed period in years |
| Payment.AnnuityPayment | app.js:60 | the payment `L·x·r/(x−1)` is the solution p of `p·(x−1) = L·x·r` |
| Payment.Compute | app.js:54-72 | a result exists iff all three fields parsed and `x = (1+r)^n` exists and differs from 1; a result carries the amount, a rate with rate·1200 = percent, months = 12·years, total = payment·months, total payment − total interest = amount, and (`SolvesAnnuity`) a payment solving `p·(x−1) = L·x·r` at its own rate and month count |
| Payment.ValidityCharacterization | app.js:54-68 | in terms of the inputs alone: a result exists iff all fields parsed, period ≠ 0, rate ∉ {0, −2400}, and not (rate = −1200 and period < 0); in particular a zero rate or zero period gives no result |
| Payment.PaymentCoversInterest | app.js:59-60 | for amount ≥ 0, rate > 0 and period > 0 a result exists, its rate is positive and its payment is at least the first month's interest `L·r` |
| Payment.InterestNonNegative | app.js:71-72 | for amount ≥ 0, rate > 0 and period > 0 the total interest is ≥ 0, i.e. total payment ≥ amount |
| Powers.GrowthBound | app.js:59 | `(1+r)^k − 1 ≤ k·r·(1+r)^k` for r ≥ 0, the bound behind the non-negative total interest |
| Schedule.EquityAt | app.js:160-163 | equity after month i: 0 at month 0 (line 160), then each month adds the payment less the interest on `L − equity` (line 163); `Conservation` and `PaidOff` state what it reaches |
| Schedule.BalanceAt | app.js:161-164 | balance after month i: the amount at month 0 (line 161), then each month removes the payment less the interest on the balance (line 164); `BalanceClosedForm` gives it in closed form |
| Schedule.ChartData | app.js:155-167 | the table starts with the fixed header row (line 155) and has `1 + RowCount(n)` rows, i.e. one data row for each run of the loop `i = 0 … n` (none when n < 0); its data rows are `Points`, whose row k is month k's point |
| Schedule.Points | app.js:158-167 | the rows for months 0 … k−1 number k and row j is month j's point `[j, j·p, equity_j, balance_j]` |
| Schedule.Chart | app.js:145-168 | a call without arguments leaves the chart blank; a call with four arguments runs the month loop and yields exactly the table `ChartData` of those arguments |
| Schedule.ChartDataShape | app.js:155-167 | the table is the fixed header and then max(n+1, 0) rows whose first column runs 0, 1, …, n in order and whose second column is month × payment; row 0 has equity 0 and balance = amount |
| Schedule.Conservation | app.js:159-164 | after every month, equity + balance = amount borrowed |
| Schedule.ChartConservation | app.js:157-167 | every data row of the table has equity + balance = amount |
| Schedule.BalanceClosedForm | app.js:161-164 | the balance recurrence in closed form: `r·B(i) = r·L·g^i − p·(g^i − 1)` with g = 1 + r |
| Schedule.PaidOff | app.js:163-164 | if the payment solves `p·(x−1) = L·x·r` for n months at a nonzero rate, balance after month n is 0 and equity is the amount |
| Schedule.BalanceNonIncreasing | app.js:164 | with rate ≥ 0 and payment ≥ L·r, each month's balance is at most the previous one and at most the amount |
| Schedule.BalanceMonotone | app.js:164 | under the same conditions a later month's balance never exceeds an earlier one's |
| Calculator.Calculate | app.js:46-97 | the shown figures are `Compute`'s result; without a result the screen is the one cleared state (no figures, blank chart) whichever field caused it; with one the chart is `ChartData` of the same amount, rate, payment and month count |
| Calculator.FinalRowPaysOff | app.js:60-86 | for every result with period ≥ 0 the table has months + 2 rows and its last row is `[n, total payment, amount, 0]`: the loan is fully repaid at month n |
| Calculator.BalanceAmortizes | app.js:59-86 | for the result of an amount ≥ 0, rate > 0 and period > 0 (which exists, by `PaymentCoversInterest`), the chart's balance column never rises from one month to the next and stays within [0, amount] |

## Left out

- DOM reads and writes are left out: element lookups, `textContent`, the `sponsors` list and the chart container. So is `chart`'s early return when `chart_div` is missing. The model returns the display state instead.
- `window.onload` prefill and the localStorage save and restore are left out. They are persistence I/O.
- The `acceptOnlyNumber` keypress filter is left out. It is UI event handling. Inputs are taken as already-parsed integers.
- `parseInt` string parsing (whitespace, signs, trailing characters) is not modelled. Each field is an `Option<int>`, with None for NaN.
- `getRequest` and `getLenders` are left out: an asynchronous XHR, `JSON.parse` and HTML building.
- The Google Charts calls are left out: `arrayToDataTable`, the chart options and `ComboChart.draw`. The model stops at the data table handed to them.
- `toFixed(2)` formatting is left out.
- IEEE double behaviour is not captured, because the model uses exact reals. This covers rounding, `Math.pow` overflowing to Infinity for huge periods (a result in the model, none in the browser), underflow and signed zero.
- The figure of about 599.55 for 100000 at 6% over 30 years is not proved. It depends on rounding to two decimals, and `1.005^360` as an exact rational is far too large to evaluate in a proof.
