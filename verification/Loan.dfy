/** Amortisation of a loan (rust/loan/src/lib.rs), over the reals: a closed-form payment, and a schedule whose
    interest and payment are rounded to cents.
 */
module Loan {
  import opened Options

  function Pow(x: real, n: nat): real {
    if n == 0 then 1.0 else x * Pow(x, n - 1)
  }

  /** f64::round: to the nearest integer, halves away from zero. */
  function Round(x: real): int {
    if x >= 0.0 then (x + 0.5).Floor else -((-x + 0.5).Floor)
  }

  function ToCents(x: real): real { Round(x * 100.0) as real / 100.0 }

  lemma RoundError(x: real)
    ensures -0.5 <= x - Round(x) as real <= 0.5
  {
  }

  lemma CentError(x: real)
    ensures -0.005 <= x - ToCents(x) <= 0.005
  {
    RoundError(x * 100.0);
    var r := Round(x * 100.0) as real;
    assert x - ToCents(x) == (x * 100.0 - r) / 100.0;
  }

  lemma CentsMonotone(x: real, y: real)
    requires x <= y
    ensures ToCents(x) <= ToCents(y)
    ensures 0.0 <= x ==> 0.0 <= ToCents(x)
  {
    assert x * 100.0 <= y * 100.0;
    assert Round(x * 100.0) <= Round(y * 100.0);
  }

  // ----- the exact annuity -----

  /** An amount with one period's interest. */
  function WithInterest(a: real, i: real): real { a * (1.0 + i) }

  /** What is owed after `k` payments of `p` at rate `i`, nothing rounded. */
  function Exact(a: real, i: real, p: real, k: nat): real {
    if k == 0 then a else WithInterest(Exact(a, i, p, k - 1), i) - p
  }

  lemma {:induction false} ClosedForm(a: real, i: real, p: real, k: nat)
    ensures i * Exact(a, i, p, k) == i * a * Pow(1.0 + i, k) - p * (Pow(1.0 + i, k) - 1.0)
  {
    if k > 0 {
      ClosedForm(a, i, p, k - 1);
      var e, w := Exact(a, i, p, k - 1), Pow(1.0 + i, k - 1);
      assert i * (e * (1.0 + i) - p) == (i * e) * (1.0 + i) - i * p;
      assert (i * a * w - p * (w - 1.0)) * (1.0 + i) - i * p == i * a * ((1.0 + i) * w) - p * ((1.0 + i) * w - 1.0);
    }
  }

  lemma {:induction false} PowAboveOne(i: real, n: nat)
    requires i >= 0.0
    ensures Pow(1.0 + i, n) >= 1.0
    ensures i > 0.0 && n > 0 ==> Pow(1.0 + i, n) > 1.0
  {
    if n > 0 {
      PowAboveOne(i, n - 1);
      var w := Pow(1.0 + i, n - 1);
      assert (1.0 + i) * w == w + i * w;
      assert i * w >= 0.0 && (i > 0.0 ==> i * w > 0.0);
    }
  }

  /** Loan::discount; None where the program divides by zero. */
  function Discount(apr: real, periods: nat): Option<real> {
    var i := apr / 12.0;
    var daily := Pow(i + 1.0, periods);
    if i * daily == 0.0 then None else Some((daily - 1.0) / (i * daily))
  }

  lemma DiscountPositive(apr: real, n: nat)
    requires apr > 0.0 && n > 0
    ensures Discount(apr, n).Some? && Discount(apr, n).value > 0.0
  {
    var i := apr / 12.0;
    PowAboveOne(i, n);
    assert i + 1.0 == 1.0 + i;
    var w := Pow(i + 1.0, n);
    assert i * w > 0.0;
    assert (w - 1.0) / (i * w) > 0.0;
  }

  /** The unrounded payment amount/discount clears the loan exactly in the given number of payments. */
  lemma AnnuityClears(a: real, apr: real, n: nat)
    requires apr > 0.0 && n > 0
    ensures Discount(apr, n).Some? && Discount(apr, n).value > 0.0
    ensures Exact(a, apr / 12.0, a / Discount(apr, n).value, n) == 0.0
  {
    DiscountPositive(apr, n);
    var i, d := apr / 12.0, Discount(apr, n).value;
    var p, w := a / d, Pow(1.0 + i, n);
    assert i + 1.0 == 1.0 + i;
    PowAboveOne(i, n);
    ClosedForm(a, i, p, n);
    Clears(a, i, w, d, p, Exact(a, i, p, n));
  }

  lemma Clears(a: real, i: real, w: real, d: real, p: real, e: real)
    requires i > 0.0 && w > 1.0 && i * w > 0.0 && d == (w - 1.0) / (i * w) && d > 0.0 && p == a / d
    requires i * e == i * a * w - p * (w - 1.0)
    ensures e == 0.0
  {
    assert d * (i * w) == w - 1.0;
    assert p * d == a;
    assert p * (w - 1.0) == p * (d * (i * w)) == (p * d) * (i * w) == a * (i * w);
    assert a * (i * w) == i * a * w;
    assert i * e == 0.0;
  }

  /** Along the annuity nothing is ever overpaid. */
  lemma {:induction false} OwedBackwards(a: real, i: real, p: real, k: nat, n: nat)
    requires i >= 0.0 && p >= 0.0 && k <= n && Exact(a, i, p, n) >= 0.0
    ensures Exact(a, i, p, k) >= 0.0
    decreases n - k
  {
    if k < n {
      OwedBackwards(a, i, p, k + 1, n);
      NegativeGrows(Exact(a, i, p, k), i);
    }
  }

  lemma NegativeGrows(e: real, i: real)
    requires i >= 0.0
    ensures e < 0.0 ==> e * (1.0 + i) < 0.0
  {
    assert e * (1.0 + i) == e + e * i;
    if e < 0.0 {
      assert e * i <= 0.0;
    }
  }

  lemma ExactStep(a: real, i: real, p: real, k: nat)
    ensures Exact(a, i, p, k) == if k == 0 then a else WithInterest(Exact(a, i, p, k - 1), i) - p
  {
  }

  /** At a lower rate the same payments leave less. */
  lemma {:induction false} LowerRateOwesLess(a: real, low: real, i: real, p: real, k: nat, n: nat)
    requires 0.0 <= low < i && a > 0.0 && p >= 0.0 && k <= n && Exact(a, i, p, n) >= 0.0
    ensures Exact(a, low, p, k) <= Exact(a, i, p, k)
    ensures k > 0 ==> Exact(a, low, p, k) < Exact(a, i, p, k)
    decreases k
  {
    ExactStep(a, low, p, k);
    ExactStep(a, i, p, k);
    hide Exact;
    if k > 0 {
      LowerRateOwesLess(a, low, i, p, k - 1, n);
      OwedBackwards(a, i, p, k - 1, n);
      ExactStep(a, i, p, k - 1);
      LessInterest(Exact(a, low, p, k - 1), Exact(a, i, p, k - 1), low, i);
    }
  }

  lemma LessInterest(e: real, f: real, low: real, i: real)
    requires e <= f && f >= 0.0 && 0.0 <= low < i
    ensures e * (1.0 + low) <= f * (1.0 + i)
    ensures e < f || f > 0.0 ==> e * (1.0 + low) < f * (1.0 + i)
  {
    assert e * (1.0 + low) == e + e * low && f * (1.0 + i) == f + f * i;
    assert e * low <= f * low;
    assert f * low <= f * i;
    if f > 0.0 {
      assert f * low < f * i;
    } else if e < 0.0 {
      assert e * low <= 0.0 && f == 0.0;
    }
  }

  // ----- the schedule, rounded to cents -----

  datatype Payment = Payment(amount: real, interest: real, principal: real, balance: real)

  function Interest(amount: real, i: real): real { ToCents(amount * i) }

  /** The payment due on an amount still owed. */
  function Due(amount: real, i: real, p: real): Payment {
    var interest := Interest(amount, i);
    var paid := if amount > p then p else amount + interest;
    Payment(paid, interest, paid - interest, amount - paid + interest)
  }

  function After(amount: real, i: real, p: real): real { amount - Due(amount, i, p).principal }

  /** What is owed after `k` payments, the schedule running on past its end. */
  function Owed(a: real, i: real, p: real, k: nat): real {
    if k == 0 then a else After(Owed(a, i, p, k - 1), i, p)
  }

  /** How far rounding can carry the schedule from the annuity in `k` payments. */
  function Drift(i: real, k: nat): real {
    if k == 0 then 0.0 else WithInterest(Drift(i, k - 1), i) + 0.01
  }

  lemma {:induction false} DriftForm(i: real, k: nat)
    ensures i * Drift(i, k) == 0.01 * (Pow(1.0 + i, k) - 1.0)
  {
    if k > 0 {
      DriftForm(i, k - 1);
      var d, w := Drift(i, k - 1), Pow(1.0 + i, k - 1);
      assert i * (d * (1.0 + i) + 0.01) == (i * d) * (1.0 + i) + 0.01 * i;
      assert 0.01 * (w - 1.0) * (1.0 + i) + 0.01 * i == 0.01 * ((1.0 + i) * w - 1.0);
    }
  }

  /** Until the final payment, the rounded balance stays within the drift of the exact one; `p` is the unrounded
      payment and the schedule pays it rounded to cents. */
  lemma {:induction false} ScheduleTracksAnnuity(a: real, i: real, p: real, k: nat)
    requires i >= 0.0
    requires forall j :: 0 <= j < k ==> Owed(a, i, ToCents(p), j) > ToCents(p)
    ensures -Drift(i, k) <= Owed(a, i, ToCents(p), k) - Exact(a, i, p, k) <= Drift(i, k)
  {
    if k > 0 {
      ScheduleTracksAnnuity(a, i, p, k - 1);
      OwedStep(a, i, ToCents(p), k - 1);
      ExactStep(a, i, p, k);
      DriftStep(i, k);
      CentError(p);
      hide *;
      ErrorStep(Owed(a, i, ToCents(p), k - 1), Exact(a, i, p, k - 1), Drift(i, k - 1), i, p);
    }
  }

  lemma DriftStep(i: real, k: nat)
    ensures Drift(i, k) == if k == 0 then 0.0 else WithInterest(Drift(i, k - 1), i) + 0.01
  {
  }

  lemma ErrorStep(o: real, e: real, d: real, i: real, p: real)
    requires -d <= o - e <= d && i >= 0.0 && o > ToCents(p)
    ensures var bound := WithInterest(d, i) + 0.01;
      -bound <= After(o, i, ToCents(p)) - (WithInterest(e, i) - p) <= bound
  {
    hide *;
    AfterStep(o, i, ToCents(p));
    CentError(p);
    InterestError(o, i);
    MultiplyBounds(o, e, d, i);
    InterestAdded(d, i);
    InterestAdded(e, i);
    ErrorsAdd(o, e, d, Times(o, i), Times(e, i), Times(d, i), Interest(o, i), p, ToCents(p));
  }

  /** The errors of the balance, its interest and the payment add up. */
  lemma ErrorsAdd(o: real, e: real, d: real, oi: real, ei: real, di: real, interest: real, p: real, paid: real)
    requires -d <= o - e <= d && -di <= oi - ei <= di
    requires -0.005 <= oi - interest <= 0.005 && -0.005 <= p - paid <= 0.005
    ensures -(d + di + 0.01) <= o - paid + interest - (e + ei - p) <= d + di + 0.01
  {
  }

  /** Products are kept apart from the sums they occur in. */
  function Times(x: real, y: real): real { x * y }

  lemma InterestAdded(a: real, i: real)
    ensures WithInterest(a, i) == a + Times(a, i)
  {
  }

  lemma InterestError(a: real, i: real)
    ensures -0.005 <= Times(a, i) - Interest(a, i) <= 0.005
  {
    CentError(a * i);
  }

  lemma AfterStep(a: real, i: real, p: real)
    ensures After(a, i, p) == Due(a, i, p).balance
    ensures After(a, i, p) == if a > p then a - p + Interest(a, i) else 0.0
  {
    hide Interest;
  }

  lemma MultiplyBounds(o: real, e: real, d: real, i: real)
    requires -d <= o - e <= d && i >= 0.0
    ensures -Times(d, i) <= Times(o, i) - Times(e, i) <= Times(d, i)
  {
    var x := o - e;
    assert (d - x) * i >= 0.0 && (d + x) * i >= 0.0;
    assert (d - x) * i == d * i - x * i && (d + x) * i == d * i + x * i;
    assert x * i == o * i - e * i;
  }

  lemma DriftClosed(i: real, k: nat)
    requires i > 0.0
    ensures Drift(i, k) == 0.01 * (Pow(1.0 + i, k) - 1.0) / i
  {
    DriftForm(i, k);
    DivideBack(i, Drift(i, k), 0.01 * (Pow(1.0 + i, k) - 1.0));
  }

  lemma DivideBack(i: real, d: real, w: real)
    requires i > 0.0 && i * d == w
    ensures d == w / i
  {
  }

  /** The yearly rate the schedule runs at. */
  function FixedRate(rate: real): real { if rate >= 0.2 then rate / 100.0 else rate }

  /** A payment: an amount; infinite or not a number, so that no amount compares as greater; or minus infinity. */
  datatype Quota = Fixed(value: real) | NoLimit | MinusInfinity

  /** The payment Loan::new computes. A discount factor of zero has the sign of the rate, and one that is infinite makes
      the payment zero. */
  function NewPayment(amount: real, rate: real, periods: nat): Quota {
    match Discount(rate, periods)
    case Some(d) =>
      if d != 0.0 then Fixed(ToCents(amount / d))
      else if amount * rate < 0.0 then MinusInfinity
      else NoLimit
    case None => if rate == 0.0 then NoLimit else Fixed(0.0)
  }

  /** What `n` payments of 1 amount to with their interest. */
  function Accrued(i: real, n: nat): real
    requires i > 0.0
  {
    (Pow(1.0 + i, n) - 1.0) / i
  }

  /** How much the rounding of a payment to cents can leave after `n` periods. */
  function CentsLeft(i: real, n: nat): real
    requires i > 0.0
  {
    Times(0.005, Accrued(i, n))
  }

  ghost predicate ClearsExactly(a: real, i: real, p: real, n: nat) { Exact(a, i, p, n) == 0.0 }

  ghost predicate OnlyClears(a: real, i: real, p: real, n: nat) { forall q :: ClearsExactly(a, i, q, n) ==> q == p }

  /** Paying `q` instead of `p` leaves that much more, or less. */
  lemma PaymentShift(a: real, i: real, p: real, q: real, n: nat)
    requires i > 0.0
    ensures Exact(a, i, q, n) - Exact(a, i, p, n) == Times(p - q, Accrued(i, n))
  {
    ClosedForm(a, i, p, n);
    ClosedForm(a, i, q, n);
    hide Exact, Pow;
    ShiftSolved(i, Exact(a, i, q, n), Exact(a, i, p, n), i * a * Pow(1.0 + i, n), p, q, Pow(1.0 + i, n) - 1.0);
  }

  lemma ShiftSolved(i: real, e: real, f: real, c: real, p: real, q: real, w: real)
    requires i > 0.0 && i * e == c - q * w && i * f == c - p * w
    ensures e - f == (p - q) * (w / i)
  {
    var v := w / i;
    assert v * i == w;
    Distribute(i, e, f);
    Distribute(w, p, q);
    assert i * (e - f) == (p - q) * w;
    Associate(p - q, v, i);
    SameFactor(i, e - f, (p - q) * v);
  }

  lemma Distribute(x: real, y: real, z: real)
    ensures x * (y - z) == x * y - x * z
  {
  }

  lemma Associate(x: real, y: real, z: real)
    ensures x * (y * z) == z * (x * y)
  {
  }

  lemma SameFactor(i: real, x: real, y: real)
    requires i > 0.0 && i * x == i * y
    ensures x == y
  {
    DivideBack(i, x, i * x);
    DivideBack(i, y, i * x);
  }

  lemma AccruedPositive(i: real, n: nat)
    requires i > 0.0 && n > 0
    ensures Accrued(i, n) > 0.0
  {
    PowAboveOne(i, n);
  }

  /** Only one payment clears a loan exactly. */
  lemma ClearingPaymentUnique(a: real, i: real, p: real, n: nat)
    requires i > 0.0 && n > 0 && ClearsExactly(a, i, p, n)
    ensures OnlyClears(a, i, p, n)
  {
    AccruedPositive(i, n);
    hide Exact, Accrued, Times;
    forall q | ClearsExactly(a, i, q, n) ensures q == p {
      PaymentShift(a, i, p, q, n);
      ZeroTimes(p - q, Accrued(i, n));
    }
  }

  lemma ZeroTimes(d: real, c: real)
    requires c > 0.0
    ensures Times(d, c) == 0.0 <==> d == 0.0
  {
  }

  /** The payment a loan from Loan::new holds is the one that clears it exactly in its periods, rounded to cents, at
      the rate that was given: the schedule runs at that rate if and only if it is below 0.2. So what `n` periods
      leave at the given rate is a matter of cents. */
  lemma NewPaymentClears(a: real, rate: real, n: nat) returns (p: real)
    requires a > 0.0 && rate > 0.0 && n > 0
    ensures ClearsExactly(a, rate / 12.0, p, n) && NewPayment(a, rate, n) == Fixed(ToCents(p)) && p > 0.0
    ensures OnlyClears(a, rate / 12.0, p, n)
    ensures ClearsExactly(a, FixedRate(rate) / 12.0, p, n) <==> rate < 0.2
    ensures -CentsLeft(rate / 12.0, n) <= Exact(a, rate / 12.0, ToCents(p), n) <= CentsLeft(rate / 12.0, n)
  {
    AnnuityClears(a, rate, n);
    p := a / Discount(rate, n).value;
    assert p > 0.0;
    if rate >= 0.2 {
      LowerRateOwesLess(a, FixedRate(rate) / 12.0, rate / 12.0, p, n, n);
    }
    ClearingPaymentUnique(a, rate / 12.0, p, n);
    CentsOff(a, rate / 12.0, p, n);
  }

  lemma CentsOff(a: real, i: real, p: real, n: nat)
    requires i > 0.0 && n > 0 && ClearsExactly(a, i, p, n)
    ensures -CentsLeft(i, n) <= Exact(a, i, ToCents(p), n) <= CentsLeft(i, n)
  {
    PaymentShift(a, i, p, ToCents(p), n);
    AccruedPositive(i, n);
    CentError(p);
    hide Exact, Accrued, ToCents, Times;
    ScaleBounds(p - ToCents(p), 0.005, Accrued(i, n));
  }

  lemma ScaleBounds(d: real, b: real, c: real)
    requires -b <= d <= b && c > 0.0
    ensures -Times(b, c) <= Times(d, c) <= Times(b, c)
  {
    assert (b - d) * c >= 0.0 && (d + b) * c >= 0.0;
  }

  /** Entered as main takes it, which also divides rates of 0.2 or more by 100: the payment is made for the rate of the
      schedule if and only if what was entered is below 20. */
  lemma EnteredPaymentClears(a: real, entered: real, n: nat) returns (p: real)
    requires a > 0.0 && entered > 0.0 && n > 0
    ensures NewPayment(a, FixedRate(entered), n) == Fixed(ToCents(p))
    ensures ClearsExactly(a, FixedRate(entered) / 12.0, p, n)
    ensures ClearsExactly(a, FixedRate(FixedRate(entered)) / 12.0, p, n) <==> entered < 20.0
  {
    p := NewPaymentClears(a, FixedRate(entered), n);
  }

  /** A loan from Loan::new at a rate below 0.2, paid as its iterator does: until its final payment the balance differs
      from the exact annuity, which is at zero after all periods, by at most 0.01 * ((1+i)^k - 1) / i. */
  lemma NewLoanTracksAnnuity(a: real, rate: real, n: nat, k: nat) returns (p: real)
    requires a > 0.0 && 0.0 < rate < 0.2 && n > 0
    requires NewPayment(a, rate, n).Fixed?
    requires var i, paid := FixedRate(rate) / 12.0, NewPayment(a, rate, n).value;
      forall j :: 0 <= j < k ==> Owed(a, i, paid, j) > paid
    ensures var i, paid := FixedRate(rate) / 12.0, NewPayment(a, rate, n).value;
      var bound := 0.01 * (Pow(1.0 + i, k) - 1.0) / i;
      && -bound <= Owed(a, i, paid, k) - Exact(a, i, p, k) <= bound
      && ClearsExactly(a, i, p, n)
  {
    var i := FixedRate(rate) / 12.0;
    p := NewPaymentClears(a, rate, n);
    ScheduleTracksAnnuity(a, i, p, k);
    DriftClosed(i, k);
  }

  /** The rates at which the discount factor has no value: nothing divided by nothing, and a division by zero. */
  lemma PaymentWithoutFactor(a: real, n: nat)
    ensures NewPayment(a, 0.0, n) == NoLimit
    ensures n > 0 ==> NewPayment(a, -12.0, n) == Fixed(0.0)
  {
    assert Pow(0.0, n) == if n == 0 then 1.0 else 0.0;
  }

  /** Without periods there is nothing to divide by: a payment without limit for a rate not below zero, and one
      below every number otherwise. */
  lemma PaymentWithoutPeriods(a: real, rate: real)
    requires a > 0.0
    ensures NewPayment(a, rate, 0) == if rate < 0.0 then MinusInfinity else NoLimit
  {
    if rate != 0.0 {
      assert rate / 12.0 * 1.0 != 0.0;
      assert rate < 0.0 ==> a * rate < 0.0;
      assert rate > 0.0 ==> a * rate > 0.0;
      assert Discount(rate, 0) == Some(0.0);
    }
  }

  // ----- how the schedule ends -----

  /** The iterator is exhausted after at most `n` payments. */
  ghost predicate Ends(a: real, i: real, p: real, n: nat)
    decreases n
  {
    a <= 0.0 || (n > 0 && Ends(After(a, i, p), i, p, n - 1))
  }

  /** One payment, when it covers the interest: the balance falls but not below zero, by at least what the payment
      exceeded the first interest by, and the interest does not rise. */
  lemma OnePayment(a: real, i: real, p: real)
    requires a > 0.0 && i >= 0.0 && (a <= p || p > Interest(a, i))
    ensures var b := After(a, i, p);
      && 0.0 <= b < a && Interest(b, i) <= Interest(a, i)
      && (a <= p ==> b == 0.0)
      && (a > p ==> b == a - (p - Interest(a, i)) && (b <= p || p > Interest(b, i)))
  {
    hide Interest;
    InterestMonotone(0.0, a, i);
    InterestMonotone(After(a, i, p), a, i);
  }

  lemma InterestMonotone(b: real, a: real, i: real)
    requires i >= 0.0
    ensures b <= a ==> Interest(b, i) <= Interest(a, i)
    ensures a >= 0.0 ==> Interest(a, i) >= 0.0
  {
    if b <= a {
      assert b * i <= a * i;
      CentsMonotone(b * i, a * i);
    }
    if a >= 0.0 {
      assert a * i >= 0.0;
      CentsMonotone(a * i, a * i);
    }
  }

  /** A payment that does not cover the interest clears nothing, ever. */
  lemma {:induction false} NeverEnds(a: real, i: real, p: real, n: nat)
    requires a > 0.0 && i >= 0.0 && a > p && p <= Interest(a, i)
    ensures !Ends(a, i, p, n)
    decreases n
  {
    if n > 0 {
      var b := After(a, i, p);
      InterestMonotone(a, b, i);
      NeverEnds(b, i, p, n - 1);
    }
  }

  /** With `n` payments of at least `d` off the principal enough to cover the amount, the schedule ends in `n`. */
  lemma {:induction false} EndsWithin(a: real, i: real, p: real, d: real, n: nat)
    requires i >= 0.0 && d > 0.0 && a <= n as real * d
    requires a > 0.0 ==> p - Interest(a, i) >= d
    ensures Ends(a, i, p, n)
    decreases n
  {
    if a > 0.0 && n > 0 {
      OnePayment(a, i, p);
      assert (n - 1) as real * d == n as real * d - d;
      var b := After(a, i, p);
      if b > 0.0 {
        EndsWithin(b, i, p, d, n - 1);
      }
    }
  }

  lemma EndsInOne(a: real, i: real, p: real)
    requires After(a, i, p) <= 0.0
    ensures Ends(a, i, p, 1)
  {
    assert Ends(After(a, i, p), i, p, 0);
  }

  /** At a rate below zero any payment at all ends it, within amount/payment payments, rounded up. */
  lemma {:induction false} EndsBelowZero(a: real, i: real, p: real, n: nat)
    requires i <= 0.0 && p > 0.0 && a <= n as real * p
    ensures Ends(a, i, p, n)
    decreases n
  {
    if a > 0.0 {
      hide After;
      LessByPayment(a, i, p);
      OneLess(n, p);
      EndsBelowZero(After(a, i, p), i, p, n - 1);
    }
  }

  lemma LessByPayment(a: real, i: real, p: real)
    requires a > 0.0 && i <= 0.0 && p > 0.0
    ensures After(a, i, p) <= a - p || After(a, i, p) == 0.0
  {
    AfterStep(a, i, p);
    InterestBelowZero(a, i);
    hide Interest, After;
  }

  lemma InterestBelowZero(a: real, i: real)
    requires a > 0.0 && i <= 0.0
    ensures Interest(a, i) <= 0.0
  {
    assert a * i <= 0.0;
    CentsMonotone(a * i, 0.0);
  }

  lemma OneLess(n: nat, p: real)
    requires p > 0.0
    ensures n == 0 ==> n as real * p == 0.0
    ensures n > 0 ==> n as real * p == (n - 1) as real * p + p && (n - 1) as real * p >= 0.0
  {
  }

  lemma EndsSometime(a: real, i: real, p: real, n: nat)
    requires Ends(a, i, p, n)
    ensures exists m: nat :: Ends(a, i, p, m)
  {
  }

  /** The amount over what a payment takes off it at first, rounded up. */
  function PaymentsAtMost(a: real, i: real, p: real): int
    requires p > Interest(a, i)
  {
    -((-(a / (p - Interest(a, i)))).Floor)
  }

  /** The iteration ends exactly if one payment covers the amount owed, or exceeds the first interest; in the latter
      case within amount/(payment - interest) payments, rounded up. */
  lemma EndsIff(a: real, i: real, p: real)
    requires a > 0.0 && i >= 0.0
    ensures (exists n: nat :: Ends(a, i, p, n)) <==> a <= p || p > Interest(a, i)
    ensures p > Interest(a, i) ==>
      PaymentsAtMost(a, i, p) >= 0 && Ends(a, i, p, PaymentsAtMost(a, i, p))
  {
    if p > Interest(a, i) {
      var d := p - Interest(a, i);
      var n := PaymentsAtMost(a, i, p);
      assert a / d > 0.0;
      assert a / d <= n as real;
      assert a == (a / d) * d <= n as real * d;
      EndsWithin(a, i, p, d, n);
      EndsSometime(a, i, p, n);
    } else if a <= p {
      OnePayment(a, i, p);
      EndsInOne(a, i, p);
      EndsSometime(a, i, p, 1);
    } else {
      forall n: nat ensures !Ends(a, i, p, n) {
        NeverEnds(a, i, p, n);
      }
    }
  }

  // ----- the program -----

  function SumInterest(ps: seq<Payment>): real {
    if ps == [] then 0.0 else SumInterest(ps[..|ps| - 1]) + ps[|ps| - 1].interest
  }

  function SumPrincipal(ps: seq<Payment>): real {
    if ps == [] then 0.0 else SumPrincipal(ps[..|ps| - 1]) + ps[|ps| - 1].principal
  }

  /** The payments of a schedule: each is due on what the ones before it left. */
  ghost predicate Schedule(a: real, i: real, p: real, ps: seq<Payment>) {
    forall k :: 0 <= k < |ps| ==> Owed(a, i, p, k) > 0.0 && ps[k] == Due(Owed(a, i, p, k), i, p)
  }

  /** Balances fall strictly and stay non-negative; interest does not rise. */
  ghost predicate Falling(a: real, i: real, p: real, ps: seq<Payment>) {
    && (forall k :: 0 <= k < |ps| ==> 0.0 <= ps[k].balance < Owed(a, i, p, k))
    && (forall k :: 0 < k < |ps| ==> ps[k].interest <= ps[k - 1].interest)
  }

  /** One payment is enough, or it is more than the interest. */
  predicate Covers(a: real, i: real, p: real) { a <= p || p > Interest(a, i) }

  /** How far a schedule has got: the payments so far, and what they leave. */
  ghost predicate Drawn(a: real, i: real, p: real, ps: seq<Payment>) {
    Schedule(a, i, p, ps) && Owed(a, i, p, |ps|) == a - SumPrincipal(ps)
  }

  lemma DrawnNone(a: real, i: real, p: real)
    ensures Drawn(a, i, p, []) && Owed(a, i, p, 0) == a && SumInterest([]) == SumPrincipal([]) == 0.0
  {
  }

  lemma DrawnOn(a: real, i: real, p: real, ps: seq<Payment>)
    requires Drawn(a, i, p, ps) && Owed(a, i, p, |ps|) > 0.0
    ensures var b := Owed(a, i, p, |ps|);
      var qs := ps + [Due(b, i, p)];
      && Drawn(a, i, p, qs) && Owed(a, i, p, |qs|) == After(b, i, p)
      && SumPrincipal(qs) == SumPrincipal(ps) + Due(b, i, p).principal
      && SumInterest(qs) == SumInterest(ps) + Due(b, i, p).interest
  {
    var b := Owed(a, i, p, |ps|);
    hide Interest, Owed, SumPrincipal, SumInterest, Due, Schedule;
    OwedStep(a, i, p, |ps|);
    SumStep(ps, Due(b, i, p));
    ScheduleOn(a, i, p, ps);
  }

  lemma EndsStep(a: real, i: real, p: real, n: nat)
    requires a > 0.0
    ensures Ends(a, i, p, n) <==> n > 0 && Ends(After(a, i, p), i, p, n - 1)
  {
    hide After;
  }

  function SumAmount(ps: seq<Payment>): real {
    if ps == [] then 0.0 else SumAmount(ps[..|ps| - 1]) + ps[|ps| - 1].amount
  }

  /** What is paid is principal and interest; and every payment but the last is `p`, and that too, unless it clears the
      rest, which is then not above `p`. */
  lemma {:induction false} AmountsPaid(a: real, i: real, p: real, ps: seq<Payment>)
    requires Schedule(a, i, p, ps)
    ensures SumAmount(ps) == SumInterest(ps) + SumPrincipal(ps)
    ensures forall k :: 0 <= k < |ps| - 1 ==> ps[k].amount == p
    ensures ps != [] ==>
      var last := ps[|ps| - 1]; last.amount == p || (last.balance == 0.0 && last.principal <= p)
    decreases |ps|
  {
    hide Interest, After, Owed;
    if ps != [] {
      var n := |ps| - 1;
      AmountsPaid(a, i, p, ps[..n]);
      AfterStep(Owed(a, i, p, n), i, p);
      DueFacts(Owed(a, i, p, n), i, p);
      forall k | 0 <= k < n ensures ps[k].amount == p {
        OwedStep(a, i, p, k);
        AfterStep(Owed(a, i, p, k), i, p);
        assert Owed(a, i, p, k + 1) > 0.0;
      }
    }
  }

  lemma {:induction false} EndsLater(a: real, i: real, p: real, n: nat, m: nat)
    requires Ends(a, i, p, n) && n <= m
    ensures Ends(a, i, p, m)
    decreases n
  {
    hide After;
    if a > 0.0 {
      EndsLater(After(a, i, p), i, p, n - 1, m - 1);
    }
  }

  /** While a covered loan runs, its balance falls, stays covered and does not go below zero. */
  lemma {:induction false} StaysCovered(a: real, i: real, p: real, k: nat)
    requires a > 0.0 && i >= 0.0 && Covers(a, i, p)
    requires forall j :: 0 <= j < k ==> Owed(a, i, p, j) > 0.0
    ensures Owed(a, i, p, k) >= 0.0 && (Owed(a, i, p, k) > 0.0 ==> Covers(Owed(a, i, p, k), i, p))
    ensures k > 0 ==>
      Owed(a, i, p, k) < Owed(a, i, p, k - 1) && Interest(Owed(a, i, p, k), i) <= Interest(Owed(a, i, p, k - 1), i)
  {
    hide Interest, After, Owed;
    if k > 0 {
      StaysCovered(a, i, p, k - 1);
      OwedStep(a, i, p, k - 1);
      OnePayment(Owed(a, i, p, k - 1), i, p);
    } else {
      OwedNone(a, i, p);
    }
  }

  lemma DrawnDown(a: real, i: real, p: real, ps: seq<Payment>)
    requires Drawn(a, i, p, ps) && Owed(a, i, p, |ps|) <= 0.0 && a > 0.0 && i >= 0.0 && Covers(a, i, p)
    ensures Owed(a, i, p, |ps|) == 0.0 && SumPrincipal(ps) == a && |ps| > 0
    ensures Falling(a, i, p, ps)
  {
    hide Covers, SumPrincipal;
    StaysCovered(a, i, p, |ps|);
    OwedNone(a, i, p);
    forall k | 0 <= k < |ps|
      ensures 0.0 <= ps[k].balance < Owed(a, i, p, k) && (k > 0 ==> ps[k].interest <= ps[k - 1].interest)
    {
      StaysCovered(a, i, p, k + 1);
      StaysCovered(a, i, p, k);
      OwedStep(a, i, p, k);
      hide Owed, Interest;
      DueFacts(Owed(a, i, p, k), i, p);
    }
  }

  lemma OwedNone(a: real, i: real, p: real)
    ensures Owed(a, i, p, 0) == a
  {
  }

  lemma DueFacts(a: real, i: real, p: real)
    ensures var due := Due(a, i, p);
      && due.principal == a - After(a, i, p) && due.balance == After(a, i, p) && due.interest == Interest(a, i)
  {
    hide Interest;
  }

  lemma OwedStep(a: real, i: real, p: real, k: nat)
    ensures Owed(a, i, p, k + 1) == After(Owed(a, i, p, k), i, p)
  {
    hide After;
  }

  lemma SumStep(ps: seq<Payment>, q: Payment)
    ensures SumPrincipal(ps + [q]) == SumPrincipal(ps) + q.principal
    ensures SumInterest(ps + [q]) == SumInterest(ps) + q.interest
  {
    assert (ps + [q])[..|ps|] == ps;
  }

  lemma ScheduleOn(a: real, i: real, p: real, ps: seq<Payment>)
    requires Schedule(a, i, p, ps) && Owed(a, i, p, |ps|) > 0.0
    ensures Schedule(a, i, p, ps + [Due(Owed(a, i, p, |ps|), i, p)])
  {
  }

  /** What is paid while `amount` is owed: without a limit all of it. */
  function Effective(amount: real, payment: Quota): real {
    if payment.Fixed? then payment.value else amount
  }

  /** What the iterator yields: nothing more, a payment, or sums that are infinite or not a number from then on. */
  datatype Item = Finished | Paid(payment: Payment) | OffScale

  class Loan {
    var amount: real
    var periods: nat
    var periodRate: real
    var payment: Quota
    var fixedRate: real

    /** Loan::new. A rate of 0.2 or more is taken as a percentage for the schedule, but not for the payment. */
    constructor (amount: real, rate: real, periods: nat)
      ensures this.amount == amount && this.periods == periods
      ensures fixedRate == FixedRate(rate) && periodRate == fixedRate / 12.0
      ensures payment == NewPayment(amount, rate, periods)
      ensures amount > 0.0 && rate > 0.0 && periods > 0 ==>
        && payment.Fixed?
        && var left := Exact(amount, rate / 12.0, payment.value, periods);
           -CentsLeft(rate / 12.0, periods) <= left <= CentsLeft(rate / 12.0, periods)
    {
      if amount > 0.0 && rate > 0.0 && periods > 0 {
        var _ := NewPaymentClears(amount, rate, periods);
      }
      this.amount := amount;
      this.periods := periods;
      this.fixedRate := if rate >= 0.2 then rate / 100.0 else rate;
      this.periodRate := FixedRate(rate) / 12.0;
      this.payment := NewPayment(amount, rate, periods);
    }

    method SetPayment(payment: real)
      modifies this`payment
      ensures this.payment == Fixed(payment)
    {
      this.payment := Fixed(payment);
    }

    /** Iterator::next. */
    method Next() returns (item: Item)
      modifies this`amount
      ensures old(amount) <= 0.0 ==> item == Finished && amount == old(amount)
      ensures old(amount) > 0.0 && payment == MinusInfinity ==> item == OffScale && amount == old(amount)
      ensures old(amount) > 0.0 && payment != MinusInfinity ==>
        var paid := Effective(old(amount), payment);
        && item == Paid(Due(old(amount), periodRate, paid))
        && amount == item.payment.balance == After(old(amount), periodRate, paid)
    {
      if amount <= 0.0 {
        return Finished;
      }
      if payment == MinusInfinity {
        return OffScale;
      }
      AfterStep(amount, periodRate, Effective(amount, payment));
      hide Interest, After;
      var interest := Interest(amount, periodRate);
      var paid := if payment.Fixed? && amount > payment.value then payment.value else amount + interest;
      var due := Payment(paid, interest, paid - interest, amount - paid + interest);
      amount := amount - due.principal;
      item := Paid(due);
    }

    /** The loop of print_totals, which the program repeats until it ends, and here at most `limit` times. When it ends,
        at a rate not below zero, the principals add up to the loan, which is at exactly zero. */
    method Totals(limit: nat) returns (ended: bool, interest: real, principal: real, ghost ps: seq<Payment>)
      modifies this`amount
      ensures old(amount) > 0.0 && payment == MinusInfinity ==> !ended && ps == []
      ensures old(amount) <= 0.0 || payment != MinusInfinity ==>
        var a, p := old(amount), Effective(old(amount), payment);
        && (ended <==> Ends(a, periodRate, p, limit))
        && Schedule(a, periodRate, p, ps) && (!ended ==> |ps| == limit)
        && interest == SumInterest(ps) && principal == SumPrincipal(ps)
        && amount == Owed(a, periodRate, p, |ps|) == a - principal
        && (ended && a > 0.0 && periodRate >= 0.0 ==>
             principal == a && amount == 0.0 && |ps| > 0 && Falling(a, periodRate, p, ps))
    {
      ghost var a, i, p := amount, periodRate, Effective(amount, payment);
      hide *;
      DrawnNone(a, i, p);
      interest, principal, ps := 0.0, 0.0, [];
      if amount > 0.0 && payment == MinusInfinity {
        return false, interest, principal, ps;
      }
      var left: nat := limit;
      while true
        invariant amount == Owed(a, i, p, |ps|) && Drawn(a, i, p, ps) && left + |ps| == limit
        invariant interest == SumInterest(ps) && principal == SumPrincipal(ps)
        invariant amount > 0.0 ==> payment != MinusInfinity && Effective(amount, payment) == p
        invariant Ends(amount, i, p, left) <==> Ends(a, i, p, limit)
        decreases left
      {
        DrawnIs(a, i, p, ps);
        EndsNow(amount, i, p, left);
        if left == 0 && amount > 0.0 {
          return false, interest, principal, ps;
        }
        var item := Next();
        if item == Finished {
          ended := true;
          Ended(a, i, p, ps, limit);
          return;
        }
        DrawnOn(a, i, p, ps);
        EndsStep(Owed(a, i, p, |ps|), i, p, left);
        OnceUnlimited(Owed(a, i, p, |ps|), i, p, payment);
        interest := interest + item.payment.interest;
        principal := principal + item.payment.principal;
        ps := ps + [item.payment];
        left := left - 1;
      }
    }
  }

  lemma DrawnIs(a: real, i: real, p: real, ps: seq<Payment>)
    requires Drawn(a, i, p, ps)
    ensures Schedule(a, i, p, ps) && Owed(a, i, p, |ps|) == a - SumPrincipal(ps)
  {
  }

  lemma EndsNow(a: real, i: real, p: real, n: nat)
    ensures a <= 0.0 ==> Ends(a, i, p, n)
    ensures Ends(a, i, p, 0) ==> a <= 0.0
  {
  }

  lemma OnceUnlimited(b: real, i: real, p: real, payment: Quota)
    requires p == Effective(b, payment)
    ensures After(b, i, p) > 0.0 ==> Effective(After(b, i, p), payment) == p
  {
    AfterStep(b, i, p);
    hide Interest, After;
  }

  lemma Ended(a: real, i: real, p: real, ps: seq<Payment>, n: nat)
    requires Drawn(a, i, p, ps) && Owed(a, i, p, |ps|) <= 0.0 && Ends(a, i, p, n)
    ensures a > 0.0 && i >= 0.0 ==>
      Owed(a, i, p, |ps|) == 0.0 && SumPrincipal(ps) == a && |ps| > 0 && Falling(a, i, p, ps)
  {
    hide Interest, Owed, SumPrincipal, Falling, Drawn, Ends;
    if a > 0.0 && i >= 0.0 {
      EndsSometime(a, i, p, n);
      EndsIff(a, i, p);
      DrawnDown(a, i, p, ps);
    }
  }

  /** How many payments are enough, when one covers the amount or the interest. */
  function Enough(a: real, i: real, p: real): int {
    if a <= p then 1 else if p > Interest(a, i) then PaymentsAtMost(a, i, p) else 0
  }

  lemma EnoughEnds(a: real, i: real, p: real, limit: nat)
    requires a > 0.0 && i >= 0.0
    ensures Covers(a, i, p) && limit >= Enough(a, i, p) ==> Ends(a, i, p, limit)
    ensures !Covers(a, i, p) ==> !Ends(a, i, p, limit)
  {
    hide After;
    if a <= p {
      OnePayment(a, i, p);
      EndsInOne(a, i, p);
      if limit >= 1 {
        EndsLater(a, i, p, 1, limit);
      }
    } else if p > Interest(a, i) {
      EndsIff(a, i, p);
      if limit >= PaymentsAtMost(a, i, p) {
        EndsLater(a, i, p, PaymentsAtMost(a, i, p), limit);
      }
    } else {
      NeverEnds(a, i, p, limit);
    }
  }

  /** What main makes of its arguments: the rate of a period, and the payment, which may be the user's own. */
  function MainRate(entered: real): real { FixedRate(FixedRate(entered)) / 12.0 }

  function MainPayment(amount: real, entered: real, periods: nat, own: Option<real>): Quota {
    if own.Some? then Fixed(own.value) else NewPayment(amount, FixedRate(entered), periods)
  }

  /** What main does for the totals of a loan. Entered at a rate not below zero, it ends exactly if a payment covers the
      amount or exceeds the first interest. */
  method Repay(amount: real, entered: real, periods: nat, own: Option<real>, limit: nat)
    returns (ended: bool, interest: real, principal: real, ghost ps: seq<Payment>)
    ensures amount > 0.0 && MainPayment(amount, entered, periods, own) == MinusInfinity ==> !ended && ps == []
    ensures amount <= 0.0 || MainPayment(amount, entered, periods, own) != MinusInfinity ==>
      var i, p := MainRate(entered), Effective(amount, MainPayment(amount, entered, periods, own));
      && (ended <==> Ends(amount, i, p, limit))
      && Schedule(amount, i, p, ps) && interest == SumInterest(ps) && principal == SumPrincipal(ps)
    ensures amount > 0.0 && entered >= 0.0 ==>
      var i, p := MainRate(entered), Effective(amount, MainPayment(amount, entered, periods, own));
      && (ended ==> Covers(amount, i, p) && principal == amount)
      && (Covers(amount, i, p) && limit >= Enough(amount, i, p) ==> ended)
  {
    hide Covers, Schedule, Falling, SumInterest, SumPrincipal, Discount, Interest, Enough, Ends, Owed, ToCents;
    var rate := if entered >= 0.2 then entered / 100.0 else entered;
    var loan := new Loan(amount, rate, periods);
    if own.Some? {
      loan.SetPayment(own.value);
    }
    assert loan.payment == MainPayment(amount, entered, periods, own) && loan.periodRate == MainRate(entered);
    if amount > 0.0 && entered >= 0.0 {
      NotBelowZero(amount, entered);
      EnoughEnds(amount, loan.periodRate, Effective(amount, loan.payment), limit);
    }
    ended, interest, principal, ps := loan.Totals(limit);
  }

  lemma NotBelowZero(amount: real, entered: real)
    requires amount > 0.0 && entered >= 0.0
    ensures MainRate(entered) >= 0.0 && amount * FixedRate(entered) >= 0.0
  {
  }
}
