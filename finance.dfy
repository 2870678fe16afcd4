/**
 Daily compounding (cambio.py, `montante_por_dias`): the amount after `dias`
 days at the daily effective rate `i_dia` is `vp * (1 + i_dia) ** dias`.
 Floats are modelled as `real`; the day count is a natural number, as it is
 whenever the program reaches this call.
 */
module Finance {

  /** `b ** n` for a natural exponent. */
  function Pow(b: real, n: nat): (r: real)
    ensures n == 0 ==> r == 1.0
    ensures b == 1.0 ==> r == 1.0
    ensures b > 0.0 ==> r > 0.0
  {
    if n == 0 then 1.0 else Pow(b, n - 1) * b
  }

  /** A power of a base no smaller than 1 is at least 1. */
  lemma {:induction false} PowAtLeastOne(b: real, n: nat)
    requires b >= 1.0
    ensures Pow(b, n) >= 1.0
  {
    if n > 0 {
      PowAtLeastOne(b, n - 1);
      var p := Pow(b, n - 1);
      assert p * b - p == p * (b - 1.0);
      assert p * (b - 1.0) >= 0.0;
    }
  }

  /** Powers of a base no smaller than 1 grow with the exponent. */
  lemma {:induction false} PowMonotone(b: real, m: nat, n: nat)
    requires b >= 1.0
    requires m <= n
    ensures Pow(b, m) <= Pow(b, n)
  {
    if m < n {
      PowMonotone(b, m, n - 1);
      PowAtLeastOne(b, n - 1);
      var p := Pow(b, n - 1);
      assert Pow(b, n) == p * b;
      assert p * b - p == p * (b - 1.0);
      assert p * (b - 1.0) >= 0.0;
    }
  }

  /** Exponents add: `b ** (m + n) == b ** m * b ** n`. */
  lemma {:induction false} PowAdd(b: real, m: nat, n: nat)
    ensures Pow(b, m + n) == Pow(b, m) * Pow(b, n)
  {
    if n > 0 {
      PowAdd(b, m, n - 1);
      var p := Pow(b, m);
      var q := Pow(b, n - 1);
      assert Pow(b, m + n) == Pow(b, m + n - 1) * b;
      assert Pow(b, n) == q * b;
      assert p * q * b == p * (q * b);
    }
  }

  /** `montante_por_dias(vp, i_dia, dias)`: the principal compounded daily. */
  function AmountAfterDays(principal: real, dailyRate: real, days: nat): (r: real)
    ensures days == 0 ==> r == principal
    ensures dailyRate == 0.0 ==> r == principal
  {
    principal * Pow(1.0 + dailyRate, days)
  }

  /** No days, no interest: the amount is exactly the principal. */
  lemma AmountAfterNoDays(principal: real, dailyRate: real)
    ensures AmountAfterDays(principal, dailyRate, 0) == principal
  {
  }

  /** One more day multiplies the amount by `1 + i_dia`. */
  lemma AmountNextDay(principal: real, dailyRate: real, days: nat)
    ensures AmountAfterDays(principal, dailyRate, days + 1)
         == AmountAfterDays(principal, dailyRate, days) * (1.0 + dailyRate)
  {
  }

  /** Compounding `m` days and then `n` more is compounding `m + n` days. */
  lemma AmountSplit(principal: real, dailyRate: real, m: nat, n: nat)
    ensures AmountAfterDays(AmountAfterDays(principal, dailyRate, m), dailyRate, n)
         == AmountAfterDays(principal, dailyRate, m + n)
  {
    var b := 1.0 + dailyRate;
    PowAdd(b, m, n);
    assert principal * Pow(b, m) * Pow(b, n) == principal * (Pow(b, m) * Pow(b, n));
  }

  /** With a non-negative principal and rate the amount never shrinks as days pass. */
  lemma AmountMonotoneInDays(principal: real, dailyRate: real, m: nat, n: nat)
    requires principal >= 0.0 && dailyRate >= 0.0
    requires m <= n
    ensures AmountAfterDays(principal, dailyRate, m) <= AmountAfterDays(principal, dailyRate, n)
  {
    var b := 1.0 + dailyRate;
    PowMonotone(b, m, n);
    assert principal * Pow(b, n) - principal * Pow(b, m) == principal * (Pow(b, n) - Pow(b, m));
    assert principal * (Pow(b, n) - Pow(b, m)) >= 0.0;
  }

  /** With a non-negative principal and rate the amount is at least the principal. */
  lemma AmountAtLeastPrincipal(principal: real, dailyRate: real, days: nat)
    requires principal >= 0.0 && dailyRate >= 0.0
    ensures AmountAfterDays(principal, dailyRate, days) >= principal
  {
    AmountMonotoneInDays(principal, dailyRate, 0, days);
  }

  /** A positive principal stays positive for any daily rate above -1. */
  lemma AmountPositive(principal: real, dailyRate: real, days: nat)
    requires principal > 0.0 && dailyRate > -1.0
    ensures AmountAfterDays(principal, dailyRate, days) > 0.0
  {
  }
}
