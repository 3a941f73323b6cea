# Loan Calculator — a Dafny model of the zero-interest repayment calculator

The program is a console loan calculator. Its one piece of logic is the class
`LoanCalc`. It stores a loan principal and answers two questions. There is no
interest, and every quotient is rounded up to a whole monetary unit:

- `months_of_repayment(monthly_payment)`: how many months a fixed payment needs
  to repay the principal. The answer is `ceil(principal / payment)`.
- `monthly_payment(months_to_repay)`: the regular payment
  `ceil(principal / months)`. It also returns the final instalment
  `principal - (months - 1) * regular`, which absorbs the remainder.

The console front end shows the final instalment only when it differs from
the regular payment.

This model has two modules:

- `Ceiling` (`ceiling.dfy`) defines `CeilDiv`, exact integer ceiling division.
  It proves that `CeilDiv` is the least multiplier that covers the dividend.
  It also proves that `CeilDiv` equals the mathematical ceiling of the exact
  real quotient, in both directions.
- `CreditCalc` (`creditcalc.dfy`) models the class as an immutable datatype
  `LoanCalc(loanPrincipal)`. The two queries are member functions that return
  values. `Repayment(regular, last)` is the pair that `monthly_payment`
  returns. `ShowsLastPayment` is the front end's "show the final instalment?"
  condition.

Two further definitions give the results their meaning:

- `MonthsUntilRepaid` is an independent reference: it pays the balance off
  month by month and counts the months.
- `Schedule` spells out the payments the pair stands for (`months - 1`
  regular payments followed by the final instalment), and `Sum` totals them.

The principal is set once, when the object is built, and it is never
reassigned. A Dafny datatype value cannot be changed, and both queries are
functions. So determinism and "the principal is unchanged" hold by
construction.

The preconditions `loanPrincipal > 0` and argument `> 0` are the guarantee
the program gives its callers. Every number it passes in comes from a loop
that accepts only positive integers.

## Model

| member | source | states |
|---|---|---|
| `Ceiling.CeilDiv` | creditcalc.py:10 | the rounded-up quotient `q` of `a` by a positive `b` satisfies `(q-1)*b < a <= q*b` |
| `Ceiling.CeilDivUnique` | creditcalc.py:10 | any `q` with `(q-1)*b < a <= q*b` is exactly `CeilDiv(a, b)`, so those bounds characterise the result |
| `Ceiling.CeilDivLeast` | creditcalc.py:10 | any `k` with `a <= k*b` is at least `CeilDiv(a, b)`: the result is the least covering multiplier |
| `Ceiling.CeilDivPositive` | creditcalc.py:10 | a positive dividend gives a quotient of at least 1 |
| `Ceiling.CeilDivExact` | creditcalc.py:14 | `CeilDiv(a, b) * b == a` exactly when `b` divides `a`, and then `CeilDiv(a, b) == a / b` |
| `Ceiling.CeilDivIsRealCeiling` | creditcalc.py:10 | `CeilDiv(a, b)` is the ceiling of the exact real quotient `a / b`, which is what `ceil(a / b)` means |
| `Ceiling.RealCeilingIsCeilDiv` | creditcalc.py:14 | conversely, any integer that is the ceiling of the real quotient `a / b` equals `CeilDiv(a, b)` |
| `CreditCalc.LoanCalc.MonthsOfRepayment` | creditcalc.py:8-10 | for a positive principal and payment, the month count `n` is at least 1, and `(n-1)*payment < principal <= n*payment` |
| `CreditCalc.MonthsIsLeast` | creditcalc.py:10 | no smaller month count suffices: if `k` payments cover the principal, then `k >= n` |
| `CreditCalc.SingleMonthIff` | creditcalc.py:10 | the month count is 1 exactly when the payment is at least the principal |
| `CreditCalc.MonthsIsRealCeiling` | creditcalc.py:10 | the month count is the ceiling of the real quotient of principal by payment |
| `CreditCalc.CountdownIsCeilDiv` | creditcalc.py:10 | paying a non-negative balance off month by month takes exactly `CeilDiv(balance, payment)` months |
| `CreditCalc.MonthsMatchesCountdown` | creditcalc.py:8-10 | `MonthsOfRepayment` equals the month-by-month repayment count `MonthsUntilRepaid` |
| `CreditCalc.LoanCalc.MonthlyPayment` | creditcalc.py:12-16 | the regular payment `r` is at least 1 and `(r-1)*months < principal <= r*months`; `(months-1)*r + last == principal`; `r - months < last <= r` |
| `CreditCalc.RegularIsLeast` | creditcalc.py:14 | no smaller regular payment covers the principal in that many months |
| `CreditCalc.RegularIsRealCeiling` | creditcalc.py:14 | the regular payment is the ceiling of the real quotient of principal by months |
| `CreditCalc.LoanCalc.Schedule` | creditcalc.py:14-16 | the schedule has one payment per month to repay |
| `CreditCalc.ScheduleRepaysPrincipal` | creditcalc.py:15 | the schedule's payments total exactly the principal |
| `CreditCalc.ScheduleShape` | creditcalc.py:14-15 | every payment of the schedule but the last is the regular payment, the last is the final instalment, and none exceeds the regular payment |
| `CreditCalc.LoanCalc.ShowsLastPayment` | creditcalc.py:45-48 | the front end's test "final instalment differs from the regular payment" holds exactly when the months do not divide the principal |
| `CreditCalc.EvenSplitIff` | creditcalc.py:14-15 | the regular payment and the final instalment are equal exactly when the months divide the principal, and then both equal `principal / months` |
| `CreditCalc.SingleMonthPayment` | creditcalc.py:14-15 | over one month the pair is `(principal, principal)`, and the final instalment is not shown |
| `CreditCalc.LastPaymentMayBeNegative` | creditcalc.py:14-15 | the final instalment is not always positive: principal 5 over 4 months gives `(2, -1)`, and it is shown |
| `CreditCalc.UnevenSplitExample` | creditcalc.py:14-15 | principal 100 over 3 months gives `(34, 32)`, and the final instalment is shown |
| `CreditCalc.RegularRepaysWithinMonths` | creditcalc.py:10-15 | paying the quoted regular payment repays the loan in at most the requested months; it takes all of them exactly when the final instalment is positive |

## Left out

- `get_positive_int` (creditcalc.py:18-27) reads from the console and retries until it gets a positive integer. It is I/O. Only its guarantee is modelled, as the precondition that every argument is a positive integer.
- `main` (creditcalc.py:29-51) is the menu loop, the prompts and the message formatting. It is I/O and presentation. Only the line-47 condition is modelled, as `ShowsLastPayment`.
- The constructor `__init__` (creditcalc.py:5-6) is the datatype constructor `LoanCalc(loanPrincipal)`. It has no contract of its own.
- Python evaluates `principal / payment` as a floating-point division before `ceil`. For very large integers that division can round to the wrong side, and once the quotient exceeds the float range (a principal of 10**400, say) it raises `OverflowError`. The model uses exact integer ceiling division instead, and this idealisation is intended.
- The final instalment can be zero or negative (see `LastPaymentMayBeNegative`). The model keeps that behaviour as written and assumes nothing about its sign.
- Interest-bearing calculations are not modelled because the source does not contain them. That covers annuity and differential payments, logarithms and powers, and overpayment. The program computes only the zero-interest schedule. The model follows the code.
