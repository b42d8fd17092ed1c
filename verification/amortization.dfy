/**
 * The fixed monthly installment (EMI) of a loan: the reducing-balance
 * annuity formula, with a straight-line split when the rate is zero.
 */
module Amortization {
  import opened Wrappers

  /** `x` to a natural power. */
  function Pow(x: real, n: nat): (p: real)
    ensures x != 0.0 ==> p != 0.0
    ensures x > 0.0 ==> p > 0.0
    ensures x >= 1.0 ==> p >= 1.0
    ensures x > 1.0 && n > 0 ==> p > 1.0
  {
    if n == 0 then 1.0 else x * Pow(x, n - 1)
  }

  /** Python's `float ** int`: a negative exponent divides by the positive power. */
  function PowInt(x: real, n: int): (p: real)
    requires n >= 0 || x != 0.0
    ensures n < 0 ==> p * Pow(x, -n) == 1.0
    ensures x != 0.0 ==> p != 0.0
    ensures x > 0.0 ==> p > 0.0
  {
    if n >= 0 then Pow(x, n) else 1.0 / Pow(x, -n)
  }

  /** The monthly fractional rate of an annual percentage rate. */
  function MonthlyRate(annualRate: real): (r: real)
    ensures r * 1200.0 == annualRate
    ensures r > 0.0 <==> annualRate > 0.0
  {
    annualRate / 1200.0
  }

  /** The annuity payment for monthly rate `r` when the principal grows by `growth` over the term. */
  function Annuity(principal: real, r: real, growth: real): (a: real)
    requires growth != 1.0
    ensures a == 0.0 <==> principal == 0.0 || r == 0.0 || growth == 0.0
    ensures principal > 0.0 && r > 0.0 && growth > 1.0 ==> a > principal * r
  {
    AnnuityQuotient(principal * r, growth);
    principal * r * growth / (growth - 1.0)
  }

  /**
   * The installment for `principal` at `annualRate` percent over `tenure`
   * months; `None` where Python raises ZeroDivisionError: a zero tenure, a
   * growth factor of exactly one, or a zero base raised to a negative power.
   */
  function Installment(principal: real, annualRate: real, tenure: int): (emi: Option<real>)
    ensures tenure == 0 ==> emi.None?
    ensures tenure >= 1 && annualRate >= 0.0 ==> emi.Some?
    ensures annualRate == 0.0 && tenure != 0 ==> emi == Some(principal / tenure as real)
  {
    var r := MonthlyRate(annualRate);
    if r == 0.0 then
      if tenure == 0 then None else Some(principal / tenure as real)
    else if 1.0 + r == 0.0 && tenure < 0 then None
    else
      var growth := PowInt(1.0 + r, tenure);
      if growth == 1.0 then None else Some(Annuity(principal, r, growth))
  }

  /**
   * The balance still owed after `k` months when each month the balance
   * first accrues interest at rate `r` and then `payment` is paid.
   */
  function Balance(principal: real, r: real, payment: real, k: nat): real {
    if k == 0 then principal else Balance(principal, r, payment, k - 1) * (1.0 + r) - payment
  }

  /** What `k` payments of one unit, each accruing interest at `r`, are worth after month `k`. */
  function PaidValue(r: real, k: nat): real {
    if k == 0 then 0.0 else PaidValue(r, k - 1) * (1.0 + r) + 1.0
  }

  /** The balance is the grown principal less the grown payments. */
  lemma {:induction false} BalanceClosedForm(principal: real, r: real, payment: real, k: nat)
    ensures Balance(principal, r, payment, k) == principal * Pow(1.0 + r, k) - payment * PaidValue(r, k)
  {
    if k > 0 {
      BalanceClosedForm(principal, r, payment, k - 1);
      RegroupBalanceStep(principal, Pow(1.0 + r, k - 1), payment, PaidValue(r, k - 1), 1.0 + r);
    }
  }

  /** The geometric sum: `r` times the worth of unit payments is the growth less one. */
  lemma {:induction false} PaidValueGeometric(r: real, k: nat)
    ensures PaidValue(r, k) * r == Pow(1.0 + r, k) - 1.0
  {
    if k > 0 {
      PaidValueGeometric(r, k - 1);
      RegroupGeometricStep(PaidValue(r, k - 1), Pow(1.0 + r, k - 1), r);
    }
  }

  /** At a zero rate, `k` unit payments are worth exactly `k`. */
  lemma {:induction false} PaidValueAtZeroRate(k: nat)
    ensures PaidValue(0.0, k) == k as real
  {
    if k > 0 {
      PaidValueAtZeroRate(k - 1);
    }
  }

  /** One to any power is one. */
  lemma {:induction false} PowOfOne(k: nat)
    ensures Pow(1.0, k) == 1.0
  {
    if k > 0 {
      PowOfOne(k - 1);
    }
  }

  /** Bernoulli's inequality: compounding grows at least as fast as simple interest. */
  lemma {:induction false} Bernoulli(r: real, n: nat)
    requires r >= 0.0
    ensures Pow(1.0 + r, n) >= 1.0 + n as real * r
  {
    if n > 0 {
      Bernoulli(r, n - 1);
      BernoulliStep(Pow(1.0 + r, n - 1), r, (n - 1) as real);
    }
  }

  /** For a positive tenure the installment is the annuity formula on a natural power. */
  lemma InstallmentForPositiveTenure(principal: real, annualRate: real, tenure: nat)
    requires tenure >= 1 && MonthlyRate(annualRate) != 0.0
    ensures Installment(principal, annualRate, tenure)
            == var r, p := MonthlyRate(annualRate), Pow(1.0 + MonthlyRate(annualRate), tenure);
               if p == 1.0 then None else Some(Annuity(principal, r, p))
  {
  }

  /** The installment, grown as the payments grow, matches the grown principal. */
  lemma InstallmentBalancesPrincipal(principal: real, annualRate: real, tenure: int, emi: real)
    requires tenure >= 1
    requires Installment(principal, annualRate, tenure) == Some(emi)
    ensures PaidValue(MonthlyRate(annualRate), tenure) != 0.0
    ensures emi * PaidValue(MonthlyRate(annualRate), tenure) == principal * Pow(1.0 + MonthlyRate(annualRate), tenure)
  {
    if annualRate == 0.0 {
      StraightLineBalancesPrincipal(principal, tenure);
    } else {
      AnnuityInstallmentBalancesPrincipal(principal, annualRate, tenure, emi);
    }
  }

  /** At a nonzero rate the installment is the annuity payment, which balances the grown principal. */
  lemma AnnuityInstallmentBalancesPrincipal(principal: real, annualRate: real, tenure: nat, emi: real)
    requires tenure >= 1 && annualRate != 0.0
    requires Installment(principal, annualRate, tenure) == Some(emi)
    ensures PaidValue(MonthlyRate(annualRate), tenure) != 0.0
    ensures emi * PaidValue(MonthlyRate(annualRate), tenure) == principal * Pow(1.0 + MonthlyRate(annualRate), tenure)
  {
    var r := MonthlyRate(annualRate);
    InstallmentForPositiveTenure(principal, annualRate, tenure);
    assert Pow(1.0 + r, tenure) != 1.0 && emi == Annuity(principal, r, Pow(1.0 + r, tenure));
    AnnuityBalancesPrincipal(principal, r, tenure);
  }

  /** At rate zero the straight-line share, paid `tenure` times, is the principal. */
  lemma StraightLineBalancesPrincipal(principal: real, tenure: nat)
    requires tenure >= 1
    ensures PaidValue(0.0, tenure) != 0.0
    ensures principal / tenure as real * PaidValue(0.0, tenure) == principal * Pow(1.0 + 0.0, tenure)
  {
    PowOfOne(tenure);
    PaidValueAtZeroRate(tenure);
    StraightLineTimesTenure(principal, tenure as real, principal / tenure as real);
  }

  /** At a nonzero rate the annuity payment, grown as the payments grow, matches the grown principal. */
  lemma AnnuityBalancesPrincipal(principal: real, r: real, tenure: nat)
    requires r != 0.0 && Pow(1.0 + r, tenure) != 1.0
    ensures PaidValue(r, tenure) != 0.0
    ensures Annuity(principal, r, Pow(1.0 + r, tenure)) * PaidValue(r, tenure) == principal * Pow(1.0 + r, tenure)
  {
    PaidValueGeometric(r, tenure);
    AnnuityTimesPaidValue(principal, r, Pow(1.0 + r, tenure), PaidValue(r, tenure));
  }

  /** After `tenure` payments of `emi` the balance is zero exactly when `emi` balances the grown principal. */
  lemma ZeroBalanceExactlyAt(principal: real, r: real, emi: real, tenure: nat)
    requires PaidValue(r, tenure) != 0.0
    requires emi * PaidValue(r, tenure) == principal * Pow(1.0 + r, tenure)
    ensures forall payment :: Balance(principal, r, payment, tenure) == 0.0 <==> payment == emi
  {
    forall payment
      ensures Balance(principal, r, payment, tenure) == 0.0 <==> payment == emi
    {
      BalanceClosedForm(principal, r, payment, tenure);
      ZeroOnlyAtInstallment(principal, Pow(1.0 + r, tenure), payment, emi, PaidValue(r, tenure),
                            Balance(principal, r, payment, tenure));
    }
  }

  /**
   * The installment pays the loan off exactly: after `tenure` payments the
   * balance is zero, and it is the only payment that does so.
   */
  lemma InstallmentAmortizes(principal: real, annualRate: real, tenure: int)
    requires tenure >= 1 && annualRate >= 0.0
    ensures Installment(principal, annualRate, tenure).Some?
    ensures forall payment :: Balance(principal, MonthlyRate(annualRate), payment, tenure) == 0.0
                              <==> payment == Installment(principal, annualRate, tenure).value
  {
    PaysOffWhenDefined(principal, annualRate, tenure, Installment(principal, annualRate, tenure).value);
  }

  /** Wherever the installment is defined, at any rate, it is the one payment that pays the loan off. */
  lemma PaysOffWhenDefined(principal: real, annualRate: real, tenure: int, emi: real)
    requires tenure >= 1
    requires Installment(principal, annualRate, tenure) == Some(emi)
    ensures forall payment :: Balance(principal, MonthlyRate(annualRate), payment, tenure) == 0.0 <==> payment == emi
  {
    InstallmentBalancesPrincipal(principal, annualRate, tenure, emi);
    ZeroBalanceExactlyAt(principal, MonthlyRate(annualRate), emi, tenure);
  }

  /**
   * At a positive rate the installment exceeds the first month's interest and
   * is at most that interest plus a straight-line share of the principal.
   */
  lemma InstallmentBounds(principal: real, annualRate: real, tenure: int)
    requires principal > 0.0 && annualRate > 0.0 && tenure >= 1
    ensures Installment(principal, annualRate, tenure).Some?
    ensures principal * MonthlyRate(annualRate) < Installment(principal, annualRate, tenure).value
    ensures Installment(principal, annualRate, tenure).value
            <= principal * MonthlyRate(annualRate) + principal / tenure as real
  {
    var r := MonthlyRate(annualRate);
    var p := Pow(1.0 + r, tenure);
    Bernoulli(r, tenure);
    InstallmentForPositiveTenure(principal, annualRate, tenure);
    SplitAnnuity(principal, r, p);
    ShrinkByLargerDivisor(principal * r, tenure as real * r, p - 1.0);
    DivideOutRate(principal, r, tenure as real);
    assert principal * r / (p - 1.0) > 0.0;
  }

  /**
   * Over a positive tenure a defined installment is zero exactly for a zero
   * principal or at rate -1200 percent, where the growth factor is zero.
   */
  lemma InstallmentZeroExactly(principal: real, annualRate: real, tenure: int)
    requires tenure >= 1
    ensures Installment(principal, annualRate, tenure).Some? ==>
              (Installment(principal, annualRate, tenure).value == 0.0 <==> principal == 0.0 || annualRate == -1200.0)
  {
    var r := MonthlyRate(annualRate);
    if r != 0.0 {
      InstallmentForPositiveTenure(principal, annualRate, tenure);
      if 1.0 + r == 0.0 {
        assert Pow(1.0 + r, tenure) == 0.0;
      }
    }
  }

  /**
   * At a positive rate the installment is defined for every nonzero tenure,
   * negative ones included (a base above one never has power one).
   */
  lemma InstallmentDefinedAtPositiveRate(principal: real, annualRate: real, tenure: int)
    requires annualRate > 0.0 && tenure != 0
    ensures Installment(principal, annualRate, tenure).Some?
  {
    var r := MonthlyRate(annualRate);
    if tenure < 0 {
      var q := Pow(1.0 + r, -tenure);
      assert q > 1.0;
      assert PowInt(1.0 + r, tenure) == 1.0 / q < 1.0;
    }
  }

  // Small facts of real arithmetic that the proofs above rely on.

  lemma RegroupBalanceStep(a: real, p: real, e: real, g: real, x: real)
    ensures (a * p - e * g) * x - e == a * (x * p) - e * (g * x + 1.0)
  {
  }

  lemma RegroupGeometricStep(g: real, p: real, r: real)
    requires g * r == p - 1.0
    ensures (g * (1.0 + r) + 1.0) * r == (1.0 + r) * p - 1.0
  {
    calc {
      (g * (1.0 + r) + 1.0) * r;
      (g * r) * (1.0 + r) + r;
      (p - 1.0) * (1.0 + r) + r;
    }
  }

  lemma BernoulliStep(p: real, r: real, m: real)
    requires r >= 0.0 && m >= 0.0 && p >= 1.0 + m * r
    ensures (1.0 + r) * p >= 1.0 + (m + 1.0) * r
  {
    MulNonNegative(1.0 + r, p - (1.0 + m * r));
    MulNonNegative(m, r);
    MulNonNegative(m * r, r);
    assert (1.0 + r) * p == (1.0 + r) * (p - (1.0 + m * r)) + (1.0 + r) * (1.0 + m * r);
    assert (1.0 + r) * (1.0 + m * r) == 1.0 + (m + 1.0) * r + m * r * r;
  }

  lemma MulNonNegative(x: real, y: real)
    requires x >= 0.0 && y >= 0.0
    ensures x * y >= 0.0
  {
  }

  lemma AnnuityTimesPaidValue(a: real, r: real, p: real, g: real)
    requires r != 0.0 && p != 1.0 && g * r == p - 1.0
    ensures Annuity(a, r, p) * g == a * p
  {
    assert g == (p - 1.0) / r;
  }

  lemma StraightLineTimesTenure(a: real, n: real, e: real)
    requires n != 0.0 && e == a / n
    ensures n != 0.0 && e * n == a * 1.0
  {
  }

  lemma ZeroOnlyAtInstallment(a: real, p: real, x: real, e: real, g: real, b: real)
    requires g != 0.0 && e * g == a * p
    requires b == a * p - x * g
    ensures b == 0.0 <==> x == e
  {
    if b == 0.0 {
      assert (x - e) * g == 0.0;
    }
  }

  lemma SplitAnnuity(a: real, r: real, p: real)
    requires p != 1.0
    ensures Annuity(a, r, p) == a * r + a * r / (p - 1.0)
  {
    var d, b := p - 1.0, a * r;
    calc {
      Annuity(a, r, p);
      b * p / d;
      { assert b * p == b * d + b; }
      (b * d + b) / d;
      b * d / d + b / d;
      { assert b * d / d == b; }
      b + b / d;
    }
  }

  lemma DivideOutRate(a: real, r: real, n: real)
    requires r != 0.0 && n != 0.0
    ensures a * r / (n * r) == a / n
  {
  }

  lemma AnnuityQuotient(b: real, g: real)
    requires g != 1.0
    ensures b * g / (g - 1.0) == 0.0 <==> b == 0.0 || g == 0.0
    ensures b > 0.0 && g > 1.0 ==> b * g / (g - 1.0) > b
  {
    var q := b * g / (g - 1.0);
    assert q * (g - 1.0) == b * g;
    if b == 0.0 || g == 0.0 {
      assert b * g == 0.0;
    } else {
      assert b * g != 0.0;
      assert q != 0.0;
    }
    if b > 0.0 && g > 1.0 {
      assert b * g > b * (g - 1.0);
    }
  }

  lemma ShrinkByLargerDivisor(a: real, d1: real, d2: real)
    requires a > 0.0 && 0.0 < d1 <= d2
    ensures a / d2 <= a / d1
  {
    assert a / d2 * d2 == a == a / d1 * d1;
  }
}
