# Loan calculator: amortization arithmetic in Dafny

A model of `LoanCalculator`, a PHP class with two static operations:

- `calculateLoanDetails(loanAmount, annualInterestRate, years, months)`
  returns the monthly installment (EMI) and the total cost and total interest.
  It uses the annuity formula `EMI = P * r * F / (F - 1)`, where
  `r = annual / 12 / 100` and `F = (1 + r)^n` with `n = 12 * years + months`.
  Each of the three figures is rounded to cents. Both totals come from the
  unrounded EMI.
- `generatePaymentSchedule(...)` takes the rounded EMI from the summary and
  loops once per payment. Each pass splits the EMI into interest on the
  remaining balance and principal, reduces the balance, and appends a row of
  rounded figures. The reported balance is clamped at zero.

The files:

- `rounding.dfy` (module `Rounding`) models PHP's `round($x, 2)` on exact
  reals: to the nearest cent, with a tie going away from zero.
- `power.dfy` (module `Power`) models `pow` with an integer exponent of
  either sign.
- `loan_calculator.dfy` (module `LoanCalculator`) holds the summary as pure
  functions and the schedule as a method with a loop. The loop is proved
  against the recursive specification functions `Carried`, `Row` and
  `Schedule`.

PHP 8 failure behaviour is modelled as a `Result`:

- `F == 1` means division by zero, and PHP raises `DivisionByZeroError`.
  This happens, for example, for a zero rate or a zero term. It also happens
  at -2400% a year (`1 + r == -1`) with an even term. It becomes
  `Failure(DivisionByZero)`, and the schedule propagates it.
- `1 + r == 0` with `n < 0` makes `pow` return INF, and `INF / INF` is NAN.
  Nothing is raised. This becomes `Failure(NotANumber)` for the summary. The
  schedule then has zero rows because `n < 0`, so it returns an empty
  schedule.

## Model

| member | source | states |
|---|---|---|
| LoanCalculator.CalculateLoanDetails | src/LoanCalculator.php:18-34 | Fails with NotANumber exactly when `1 + r == 0` and `n < 0`. Fails with DivisionByZero exactly when `(1+r)^n == 1`. Otherwise the three fields are `round(raw, 2)`, `round(raw·n, 2)` and `round(raw·n − P, 2)` for the unrounded EMI `raw`, with a tie going away from zero. Each is a whole number of cents within half a cent of its unrounded value. |
| LoanCalculator.PaymentCount | src/LoanCalculator.php:20 | The number of payments `12·years + months`. Taking the extra months off leaves a whole number of years, namely `years`. |
| LoanCalculator.MonthlyRate | src/LoanCalculator.php:21 | The monthly fraction `annual / 12 / 100`. Times 12 × 100 it gives back the annual rate, and it is positive exactly when the annual rate is. |
| LoanCalculator.GrowthFactor | src/LoanCalculator.php:23 | The factor `(1 + r)^n`. For a rate above −1200% a year it is positive, and it is one exactly when the rate or the term is zero. |
| LoanCalculator.AnnuityPayment | src/LoanCalculator.php:23-24 | The unrounded installment satisfies `emi·(F − 1) == P·r·F`. |
| LoanCalculator.Totals | src/LoanCalculator.php:26-33 | The reported figures are `round(emi, 2)`, `round(emi·n, 2)` and `round(emi·n − P, 2)`. Each is a whole number of cents within half a cent of the unrounded EMI, total cost or total interest. |
| LoanCalculator.TotalsNearInstallment | src/LoanCalculator.php:26-32 | TotalCost is within 0.005·\|n\| + 0.005 of the reported EMI times n. TotalInterest is within a cent of TotalCost minus the principal. |
| LoanCalculator.ZeroRateOrTermDividesByZero | src/LoanCalculator.php:20-24 | A zero rate or a zero term always gives DivisionByZero, because the code has no zero-rate fallback. |
| LoanCalculator.FailsExactlyOnZeroRateOrTerm | src/LoanCalculator.php:20-24 | For a rate above −1200% a year, the summary fails if and only if the rate is zero or the term is empty, and it never yields NAN. |
| LoanCalculator.TotalCostIsNotRoundedEmiTimesCount | src/LoanCalculator.php:24-32 | 100000 at 6% over 12 months gives EMI 8606.64, TotalCost 103279.72 and TotalInterest 3279.72, and 12 × 8606.64 ≠ 103279.72. |
| LoanCalculator.CarriedStep | src/LoanCalculator.php:52-59 | The carried `$remainingPrincipal` (`Carried`) starts at the loan amount. Each pass multiplies it by `1 + r` and takes off the EMI: `B_{k+1} == B_k·(1+r) − emi`. |
| LoanCalculator.CarriedAtZeroRate | src/LoanCalculator.php:52-59 | At a zero rate the carried balance after k passes is `P − k·emi`. |
| LoanCalculator.Max0 | src/LoanCalculator.php:66 | `max($x, 0)` is non-negative, at least x, and equal to x or to zero. |
| LoanCalculator.Row | src/LoanCalculator.php:57-66 | The row appended in pass k carries period index k and a balance that is never negative. |
| LoanCalculator.PeriodSplit | src/LoanCalculator.php:57-66 | It restates the recurrence in standard form: interest is `round(B·r)`, principal is `round(emi − B·r)`, and the balance is the rounded, zero-clamped new balance. It derives that the reported balance is never negative and that interest plus principal is within 1.5 cents of the payment. |
| LoanCalculator.CarriedClosedForm | src/LoanCalculator.php:52-59 | After k periods, `B_k·r == P·r·(1+r)^k − emi·((1+r)^k − 1)`. |
| LoanCalculator.AnnuityPaymentAmortizes | src/LoanCalculator.php:23-24 | Paying the unrounded annuity installment for n periods leaves exactly zero owed. |
| LoanCalculator.ResidualBalance | src/LoanCalculator.php:50-59 | Paying a given (e.g. rounded) installment leaves `B_n·r == (raw − emi)·(F − 1)`, which is the installment's rounding error compounded over the term. |
| LoanCalculator.Schedule | src/LoanCalculator.php:56-67 | The schedule specification of `count` rows has exactly `count` rows. |
| LoanCalculator.ScheduleRow | src/LoanCalculator.php:56-67 | Row k of any schedule longer than k is the row the loop appends in pass k. |
| LoanCalculator.ScheduleRowFacts | src/LoanCalculator.php:61-66 | For an installment in whole cents, every row carries its period index, a TotalPayment equal to the installment, and a non-negative balance. |
| LoanCalculator.GeneratePaymentSchedule | src/LoanCalculator.php:45-73 | Fails if and only if the summary divides by zero. Otherwise it has max(n, 0) rows equal to the specification `Schedule` built from the summary's rounded EMI. Every row has its index as period, the summary's EMI as TotalPayment, and a non-negative balance. |
| Rounding.Round2 | src/LoanCalculator.php:30-32 | `round(x, 2)` is a whole number of cents within half a cent of x, with the same sign as x. |
| Rounding.Round2OfCents | src/LoanCalculator.php:65 | Rounding a whole number of cents returns it unchanged, so `round($emi, 2)` of the already rounded EMI is the EMI. |
| Rounding.Round2Idempotent | src/LoanCalculator.php:65 | Rounding twice is the same as rounding once. |
| Rounding.Round2HalfAwayFromZero | src/LoanCalculator.php:30-32 | A value exactly half-way between two cents goes to the cent farther from zero. |
| Rounding.Round2Nearest | src/LoanCalculator.php:30-32 | No whole number of cents is strictly closer to x than `round(x, 2)`. |
| Power.Pow | src/LoanCalculator.php:23 | A positive base gives a positive power, and a non-zero base gives a non-zero power. |
| Power.PowInt | src/LoanCalculator.php:23 | `pow` with an integer exponent of either sign is positive for a positive base. |
| Power.PowIntIsOneIff | src/LoanCalculator.php:23-24 | For a positive base, `pow(base, n) == 1` if and only if the base is one or n is zero. This is the division-by-zero condition. |

## Left out

- Floating point: all arithmetic is over exact reals. IEEE-754 rounding of intermediate values, overflow to INF and PHP's pre-rounding inside `round()` are not modelled. The reported figures can therefore differ from PHP's in the last cent.
- `MonthYear` labels: the `DateTime` created from the current clock, its `format('M-Y')` and `modify('+1 month')` are replaced by the period index 0, 1, 2, ….
- Default argument: `$loanTermMonths = 0` on both operations. Callers of the model always pass `months` explicitly, and 0 gives the default's behaviour.
- PHP's loose typing: the inputs are taken as reals (amount, rate) and integers (years, months). String or float terms are not modelled. Arithmetic on integer terms is unbounded, with no overflow to float.
- NAN as a value: the NAN summary is an error value (`NotANumber`), not a number that spreads through later arithmetic. For the schedule this changes nothing, because that case has no rows.
- Input validation and a zero-rate fallback are not in this code, so the model has neither. A zero rate or term divides by zero (`ZeroRateOrTermDividesByZero`), and negative amounts or rates are accepted.
- LoanCalculator.GeneratePaymentSchedule: no claim that the last reported balance is zero. `ResidualBalance` gives the exact leftover in terms of the installment's rounding error.
- Interest and principal are not shown to move monotonically from period to period (interest falling, principal rising). The code asserts nothing about this either.
- `src/LoanCalculatorService.php` and `src/Facades/LoanCalculatorFacade.php` only register the class as a Laravel singleton and expose it through a facade. They hold no arithmetic and are not part of this model.
