/**
 * The amortization arithmetic of `LoanCalculator`: the loan summary (EMI,
 * total cost, total interest) and the month-by-month repayment schedule.
 *
 * All arithmetic is over exact reals. The schedule's calendar label is
 * replaced by the period index 0, 1, 2, ...
 */
module LoanCalculator {
  import opened Rounding
  import opened Power

  /** The two ways the summary can fail in PHP 8. */
  datatype CalcError =
    | DivisionByZero  // `$F / ($F - 1)` with `$F == 1` raises DivisionByZeroError
    | NotANumber      // `pow(0, -k)` is INF and `INF / INF` is NAN; nothing is raised

  datatype Result<+T> = Success(value: T) | Failure(error: CalcError)

  /** The array returned by `calculateLoanDetails`. */
  datatype LoanDetails = LoanDetails(emi: real, totalCost: real, totalInterest: real)

  /** One row of the array returned by `generatePaymentSchedule`. */
  datatype ScheduleEntry = ScheduleEntry(
    period: nat,
    principalPayment: real,
    interestPayment: real,
    totalPayment: real,
    balance: real)

  /**
   * Number of monthly payments: whole years plus the extra months. Taking
   * the extra months back off leaves a whole number of years.
   */
  function PaymentCount(years: int, months: int): (c: int)
    ensures (c - months) % 12 == 0 && (c - months) / 12 == years
  {
    years * 12 + months
  }

  /**
   * Monthly interest rate as a fraction, from an annual rate in percent:
   * twelve months of it, in percent, give back the annual rate.
   */
  function MonthlyRate(annualRate: real): (r: real)
    ensures r * 12.0 * 100.0 == annualRate
    ensures r > 0.0 <==> annualRate > 0.0
  {
    annualRate / 12.0 / 100.0
  }

  /** `pow(1 + $monthlyInterestRate, $numberOfPayments)` yields a finite value. */
  predicate GrowthDefined(annualRate: real, n: int) {
    PowIntDefined(1.0 + MonthlyRate(annualRate), n)
  }

  /**
   * The annuity growth factor `(1 + r)^n`. For a rate above -1200% a year
   * it is positive, and it is one exactly when the rate or the term is zero.
   */
  function GrowthFactor(annualRate: real, n: int): (f: real)
    requires GrowthDefined(annualRate, n)
    ensures annualRate > -1200.0 ==> f > 0.0 && (f == 1.0 <==> annualRate == 0.0 || n == 0)
  {
    if annualRate > -1200.0 then
      PowIntIsOneIff(1.0 + MonthlyRate(annualRate), n);
      PowInt(1.0 + MonthlyRate(annualRate), n)
    else
      PowInt(1.0 + MonthlyRate(annualRate), n)
  }

  /**
   * The unrounded installment `P * r * (F / (F - 1))`. Its defining
   * property: the installment paid over the term repays the loan grown by
   * the factor F.
   */
  function AnnuityPayment(loanAmount: real, rate: real, factor: real): (emi: real)
    requires factor != 1.0
    ensures emi * (factor - 1.0) == loanAmount * rate * factor
  {
    var q := factor / (factor - 1.0);
    assert q * (factor - 1.0) == factor;
    loanAmount * rate * q
  }

  lemma AbsOfProduct(a: real, b: real)
    ensures Abs(a * b) == Abs(a) * Abs(b)
  {
    if a < 0.0 && b < 0.0 {
      assert a * b == (-a) * (-b);
    } else if a < 0.0 {
      assert -(a * b) == (-a) * b;
    } else if b < 0.0 {
      assert -(a * b) == a * (-b);
    }
  }

  /** `max($x, 0)`: the larger of `x` and zero. */
  function Max0(x: real): (m: real)
    ensures m >= 0.0 && m >= x
    ensures m == x || m == 0.0
  {
    if x >= 0.0 then x else 0.0
  }

  /**
   * The returned figures from the unrounded installment: the total cost is
   * `n` installments, the interest is that less the principal, and each of
   * the three is reported to the nearest cent.
   */
  function Totals(loanAmount: real, emi: real, n: int): (d: LoanDetails)
    ensures IsCents(d.emi) && IsCents(d.totalCost) && IsCents(d.totalInterest)
    ensures Abs(d.emi - emi) <= 0.005
    ensures Abs(d.totalCost - emi * n as real) <= 0.005
    ensures Abs(d.totalInterest - (emi * n as real - loanAmount)) <= 0.005
    ensures d.emi == Round2(emi)
    ensures d.totalCost == Round2(emi * n as real)
    ensures d.totalInterest == Round2(emi * n as real - loanAmount)
  {
    var totalCost := emi * n as real;
    var totalInterest := totalCost - loanAmount;
    LoanDetails(Round2(emi), Round2(totalCost), Round2(totalInterest))
  }

  /**
   * The reported totals agree with the reported EMI only up to rounding:
   * TotalCost is within half a cent per payment (plus half a cent) of
   * EMI * n, and TotalInterest within a cent of TotalCost - principal.
   */
  lemma TotalsNearInstallment(loanAmount: real, emi: real, n: int, d: LoanDetails)
    requires d == Totals(loanAmount, emi, n)
    ensures Abs(d.totalCost - d.emi * n as real) <= 0.005 * Abs(n as real) + 0.005
    ensures Abs(d.totalInterest - (d.totalCost - loanAmount)) <= 0.01
  {
    ScaledErrorBound(d.totalCost, d.emi, emi, n as real);
  }

  /**
   * `calculateLoanDetails`: the installment and the two totals, each
   * rounded to cents; both totals are computed from the UNROUNDED
   * installment.
   */
  function CalculateLoanDetails(loanAmount: real, annualRate: real, years: int, months: int)
    : (d: Result<LoanDetails>)
    ensures d == Failure(NotANumber) <==>
              1.0 + MonthlyRate(annualRate) == 0.0 && PaymentCount(years, months) < 0
    ensures d == Failure(DivisionByZero) <==>
              GrowthDefined(annualRate, PaymentCount(years, months)) &&
              GrowthFactor(annualRate, PaymentCount(years, months)) == 1.0
    ensures d.Success? ==>
              var n := PaymentCount(years, months);
              var raw := AnnuityPayment(loanAmount, MonthlyRate(annualRate), GrowthFactor(annualRate, n));
              && IsCents(d.value.emi) && IsCents(d.value.totalCost) && IsCents(d.value.totalInterest)
              && Abs(d.value.emi - raw) <= 0.005
              && Abs(d.value.totalCost - raw * n as real) <= 0.005
              && Abs(d.value.totalInterest - (raw * n as real - loanAmount)) <= 0.005
              && d.value.emi == Round2(raw)
              && d.value.totalCost == Round2(raw * n as real)
              && d.value.totalInterest == Round2(raw * n as real - loanAmount)
  {
    var n := PaymentCount(years, months);
    var rate := MonthlyRate(annualRate);
    if !GrowthDefined(annualRate, n) then
      Failure(NotANumber)
    else
      var factor := GrowthFactor(annualRate, n);
      if factor == 1.0 then
        Failure(DivisionByZero)
      else
        Success(Totals(loanAmount, AnnuityPayment(loanAmount, rate, factor), n))
  }

  /**
   * A zero interest rate or an empty term makes the growth factor one, so
   * the summary divides by zero: no zero-rate fallback exists.
   */
  lemma ZeroRateOrTermDividesByZero(loanAmount: real, annualRate: real, years: int, months: int)
    requires annualRate == 0.0 || PaymentCount(years, months) == 0
    ensures CalculateLoanDetails(loanAmount, annualRate, years, months) == Failure(DivisionByZero)
  {
    var n := PaymentCount(years, months);
    if annualRate == 0.0 {
      PowOfOne(if n >= 0 then n else -n);
    }
  }

  /**
   * For any rate above -1200% a year (so `1 + r > 0`), the summary fails
   * exactly when the rate is zero or the term is empty, and then only by
   * division by zero.
   */
  lemma FailsExactlyOnZeroRateOrTerm(loanAmount: real, annualRate: real, years: int, months: int)
    requires annualRate > -1200.0
    ensures CalculateLoanDetails(loanAmount, annualRate, years, months).Failure? <==>
              annualRate == 0.0 || PaymentCount(years, months) == 0
    ensures CalculateLoanDetails(loanAmount, annualRate, years, months) != Failure(NotANumber)
  {
    PowIntIsOneIff(1.0 + MonthlyRate(annualRate), PaymentCount(years, months));
  }

  /** `c` is near `raw * m` and `e` near `raw`, so `c` is near `e * m`. */
  lemma ScaledErrorBound(c: real, e: real, raw: real, m: real)
    requires Abs(c - raw * m) <= 0.005 && Abs(e - raw) <= 0.005
    ensures Abs(c - e * m) <= 0.005 * Abs(m) + 0.005
  {
    var err := e - raw;
    var t := err * m;
    assert c - e * m == (c - raw * m) - t;
    AbsOfProduct(err, m);
    assert Abs(t) <= 0.005 * Abs(m);
    assert Abs(c - e * m) <= Abs(c - raw * m) + Abs(t);
  }

  /**
   * A 100000 loan at 6% a year over 12 months: the EMI field is 8606.64
   * but TotalCost is 103279.72, not 12 * 8606.64 = 103279.68, because the
   * total is taken from the unrounded installment.
   */
  lemma TotalCostIsNotRoundedEmiTimesCount()
    ensures CalculateLoanDetails(100000.0, 6.0, 1, 0)
            == Success(LoanDetails(8606.64, 103279.72, 3279.72))
    ensures 8606.64 * 12.0 != 103279.72
  {
    var factor := GrowthFactor(6.0, 12);
    assert factor == Pow(1.005, 12);
    var raw := AnnuityPayment(100000.0, 0.005, factor);
    assert 8606.642 < raw < 8606.643;
    assert Round2(raw) == 8606.64;
    assert 103279.715 < raw * 12.0 < 103279.716;
    assert Round2(raw * 12.0) == 103279.72;
    assert Round2(raw * 12.0 - 100000.0) == 3279.72;
  }

  /** A period's interest: the balance at the monthly rate. */
  function Interest(balance: real, rate: real): real {
    balance * rate
  }

  /**
   * `$remainingPrincipal` after `k` passes of the loop, starting from the
   * loan amount: each pass subtracts the installment less the interest on
   * the balance. It is never clamped and may go negative.
   */
  function Carried(loanAmount: real, rate: real, emi: real, k: nat): real {
    if k == 0 then
      loanAmount
    else
      var before := Carried(loanAmount, rate, emi, k - 1);
      before - (emi - Interest(before, rate))
  }

  /** At a zero rate the carried balance falls by exactly one installment per pass. */
  lemma {:induction false} CarriedAtZeroRate(loanAmount: real, emi: real, k: nat)
    ensures Carried(loanAmount, 0.0, emi, k) == loanAmount - emi * k as real
  {
    if k > 0 {
      CarriedAtZeroRate(loanAmount, emi, k - 1);
      assert emi * k as real == emi * (k - 1) as real + emi;
    }
  }

  /**
   * The row the loop appends in pass `k` (counting from 0): it carries its
   * period index and a balance that is never negative.
   */
  function Row(loanAmount: real, rate: real, emi: real, k: nat): (e: ScheduleEntry)
    ensures e.period == k && e.balance >= 0.0
  {
    var before := Carried(loanAmount, rate, emi, k);
    var interest := Interest(before, rate);
    var principal := emi - interest;
    ScheduleEntry(k, Round2(principal), Round2(interest), Round2(emi), Round2(Max0(before - principal)))
  }

  /** The carried balance grows by the rate and drops by the installment. */
  lemma CarriedStep(loanAmount: real, rate: real, emi: real, k: nat)
    ensures Carried(loanAmount, rate, emi, k + 1)
            == Carried(loanAmount, rate, emi, k) * (1.0 + rate) - emi
  {
    var before := Carried(loanAmount, rate, emi, k);
    assert before * (1.0 + rate) == before + Interest(before, rate);
  }

  /**
   * One period. The first four conjuncts are the definitions of `Carried`
   * and `Row` written in the standard recurrence form: the balance grows by
   * the rate and drops by the installment, the interest is the balance
   * times the rate, the principal is the rest of the installment, and the
   * balance is clamped at zero. The last two are derived: the reported
   * balance is never negative, and the rounded interest and principal add
   * up to the reported payment within a cent and a half.
   */
  lemma PeriodSplit(loanAmount: real, rate: real, emi: real, k: nat)
    ensures Carried(loanAmount, rate, emi, k + 1)
            == Carried(loanAmount, rate, emi, k) * (1.0 + rate) - emi
    ensures Row(loanAmount, rate, emi, k).interestPayment
            == Round2(Carried(loanAmount, rate, emi, k) * rate)
    ensures Row(loanAmount, rate, emi, k).principalPayment
            == Round2(emi - Carried(loanAmount, rate, emi, k) * rate)
    ensures Row(loanAmount, rate, emi, k).balance
            == Round2(Max0(Carried(loanAmount, rate, emi, k + 1)))
    ensures Row(loanAmount, rate, emi, k).balance >= 0.0
    ensures var e := Row(loanAmount, rate, emi, k);
            Abs(e.interestPayment + e.principalPayment - e.totalPayment) <= 0.015
  {
    CarriedStep(loanAmount, rate, emi, k);
    var before := Carried(loanAmount, rate, emi, k);
    var interest := Interest(before, rate);
    var principal := emi - interest;
    var e := Row(loanAmount, rate, emi, k);
    assert e == ScheduleEntry(k, Round2(principal), Round2(interest), Round2(emi), Round2(Max0(before - principal)));
  }

  /**
   * Closed form of the carried balance after `k` periods:
   * `B_k * r == P * r * (1+r)^k - emi * ((1+r)^k - 1)`.
   */
  lemma {:induction false} CarriedClosedForm(loanAmount: real, rate: real, emi: real, k: nat)
    ensures Carried(loanAmount, rate, emi, k) * rate
            == loanAmount * rate * Pow(1.0 + rate, k) - emi * (Pow(1.0 + rate, k) - 1.0)
  {
    if k > 0 {
      CarriedClosedForm(loanAmount, rate, emi, k - 1);
      CarriedStep(loanAmount, rate, emi, k - 1);
      var b := Carried(loanAmount, rate, emi, k - 1);
      var g := Pow(1.0 + rate, k - 1);
      assert Pow(1.0 + rate, k) == (1.0 + rate) * g;
      ClosedFormStep(loanAmount, rate, emi, b, g);
    }
  }

  /** One period of the closed form, as algebra on the balance `b` and the factor `g`. */
  lemma ClosedFormStep(loanAmount: real, rate: real, emi: real, b: real, g: real)
    requires b * rate == loanAmount * rate * g - emi * (g - 1.0)
    ensures (b * (1.0 + rate) - emi) * rate
            == loanAmount * rate * ((1.0 + rate) * g) - emi * ((1.0 + rate) * g - 1.0)
  {
    calc {
      (b * (1.0 + rate) - emi) * rate;
      (b * rate) * (1.0 + rate) - emi * rate;
      (loanAmount * rate * g - emi * (g - 1.0)) * (1.0 + rate) - emi * rate;
      loanAmount * rate * ((1.0 + rate) * g) - emi * ((1.0 + rate) * g - 1.0);
    }
  }

  /**
   * Paying the UNROUNDED installment for the whole term leaves exactly
   * nothing owed: the annuity formula amortizes the loan.
   */
  lemma AnnuityPaymentAmortizes(loanAmount: real, rate: real, n: nat)
    requires Pow(1.0 + rate, n) != 1.0
    ensures Carried(loanAmount, rate, AnnuityPayment(loanAmount, rate, Pow(1.0 + rate, n)), n) == 0.0
  {
    var factor := Pow(1.0 + rate, n);
    var raw := AnnuityPayment(loanAmount, rate, factor);
    if rate == 0.0 {
      PowOfOne(n);
      assert false;
    }
    CarriedClosedForm(loanAmount, rate, raw, n);
    var owed := Carried(loanAmount, rate, raw, n);
    assert owed * rate == 0.0;
  }

  /**
   * The schedule pays a ROUNDED installment `emi`, so the balance carried
   * out of the last period is the rounding error of the installment
   * compounded over the term, `B_n * r == (raw - emi) * (F - 1)`, and is
   * not zero in general.
   */
  lemma ResidualBalance(loanAmount: real, rate: real, n: nat, emi: real)
    requires Pow(1.0 + rate, n) != 1.0
    ensures var factor := Pow(1.0 + rate, n);
            Carried(loanAmount, rate, emi, n) * rate
              == (AnnuityPayment(loanAmount, rate, factor) - emi) * (factor - 1.0)
  {
    CarriedClosedForm(loanAmount, rate, emi, n);
  }

  /**
   * The first `count` rows of the schedule, in period order, as the loop
   * appends them.
   */
  function Schedule(loanAmount: real, rate: real, emi: real, count: nat): (s: seq<ScheduleEntry>)
    ensures |s| == count
  {
    if count == 0 then [] else Schedule(loanAmount, rate, emi, count - 1) + [Row(loanAmount, rate, emi, count - 1)]
  }

  /** Row `k` of the schedule is the row of pass `k`, whatever the length. */
  lemma {:induction false} ScheduleRow(loanAmount: real, rate: real, emi: real, count: nat, k: nat)
    requires k < count
    ensures Schedule(loanAmount, rate, emi, count)[k] == Row(loanAmount, rate, emi, k)
  {
    if k < count - 1 {
      ScheduleRow(loanAmount, rate, emi, count - 1, k);
    }
  }

  /**
   * Every row carries its period index, the installment as given when that
   * is a whole number of cents (re-rounding it changes nothing), and a
   * balance that is never negative.
   */
  lemma ScheduleRowFacts(loanAmount: real, rate: real, emi: real, count: nat, k: nat)
    requires IsCents(emi) && k < count
    ensures var e := Schedule(loanAmount, rate, emi, count)[k];
            && e.period == k
            && e.totalPayment == emi
            && e.balance >= 0.0
  {
    ScheduleRow(loanAmount, rate, emi, count, k);
    Round2OfCents(emi);
  }

  /**
   * `generatePaymentSchedule`: takes the rounded EMI from the summary, then
   * loops once per payment, splitting the EMI into interest on the
   * remaining balance and principal, and appends one row per period.
   * A failure of the summary propagates.
   */
  method GeneratePaymentSchedule(loanAmount: real, annualRate: real, years: int, months: int)
    returns (res: Result<seq<ScheduleEntry>>)
    ensures res.Failure? <==>
              CalculateLoanDetails(loanAmount, annualRate, years, months) == Failure(DivisionByZero)
    ensures res.Failure? ==> res.error == DivisionByZero
    ensures res.Success? ==>
              |res.value| == if PaymentCount(years, months) > 0 then PaymentCount(years, months) else 0
    ensures res.Success? && res.value != [] ==>
              var d := CalculateLoanDetails(loanAmount, annualRate, years, months);
              && d.Success?
              && res.value == Schedule(loanAmount, MonthlyRate(annualRate), d.value.emi, |res.value|)
    ensures res.Success? ==>
              forall k | 0 <= k < |res.value| ::
                && res.value[k].period == k
                && res.value[k].balance >= 0.0
                && CalculateLoanDetails(loanAmount, annualRate, years, months).Success?
                && res.value[k].totalPayment == CalculateLoanDetails(loanAmount, annualRate, years, months).value.emi
  {
    var numberOfPayments := years * 12 + months;
    var monthlyInterestRate := annualRate / 12.0 / 100.0;
    var details := CalculateLoanDetails(loanAmount, annualRate, years, months);
    if details.Failure? {
      if details.error == DivisionByZero {
        return Failure(DivisionByZero);
      }
      // The EMI is NAN, which happens only for a negative payment count:
      // the loop below would run zero times and the schedule is empty.
      return Success([]);
    }
    var emi := details.value.emi;

    var remainingPrincipal := loanAmount;
    var schedule: seq<ScheduleEntry> := [];
    var i := 0;
    while i < numberOfPayments
      invariant 0 <= i && (i <= numberOfPayments || i == 0)
      invariant remainingPrincipal == Carried(loanAmount, monthlyInterestRate, emi, i)
      invariant schedule == Schedule(loanAmount, monthlyInterestRate, emi, i)
    {
      var interestPayment := Interest(remainingPrincipal, monthlyInterestRate);
      var principalPayment := emi - interestPayment;
      remainingPrincipal := remainingPrincipal - principalPayment;
      schedule := schedule + [ScheduleEntry(
        i,
        Round2(principalPayment),
        Round2(interestPayment),
        Round2(emi),
        Round2(Max0(remainingPrincipal)))];
      i := i + 1;
    }
    forall k | 0 <= k < |schedule|
      ensures schedule[k].period == k && schedule[k].balance >= 0.0 && schedule[k].totalPayment == emi
    {
      ScheduleRowFacts(loanAmount, monthlyInterestRate, emi, |schedule|, k);
    }
    res := Success(schedule);
  }
}
