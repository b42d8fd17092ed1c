/** The credit limit a customer is given at registration. */
module Registration {
  import opened Rounding

  /**
   * 36 months of income, rounded to the nearest multiple of 100000; a tie
   * goes to the multiple whose count of 100000s is even.
   */
  function ApprovedLimit(monthlyIncome: int): (limit: int)
    ensures limit % 100000 == 0
    ensures 36 * monthlyIncome - 50000 <= limit <= 36 * monthlyIncome + 50000
    ensures (limit - 36 * monthlyIncome == 50000 || 36 * monthlyIncome - limit == 50000) ==> (limit / 100000) % 2 == 0
  {
    RoundHalfEven((36 * monthlyIncome) as real / 100000.0) * 100000
  }

  /** No other multiple of 100000 meets the rule: the limit is the nearest one, ties to even. */
  lemma ApprovedLimitUnique(monthlyIncome: int, limit: int)
    requires limit % 100000 == 0
    requires 36 * monthlyIncome - 50000 <= limit <= 36 * monthlyIncome + 50000
    requires (limit - 36 * monthlyIncome == 50000 || 36 * monthlyIncome - limit == 50000) ==> (limit / 100000) % 2 == 0
    ensures limit == ApprovedLimit(monthlyIncome)
  {
    var y := (36 * monthlyIncome) as real / 100000.0;
    var k := limit / 100000;
    assert limit == k * 100000;
    assert IsHalfEvenRounding(y, k);
    RoundHalfEvenUnique(y, k);
  }

  /** A higher income never gets a lower limit. */
  lemma ApprovedLimitMonotone(lower: int, higher: int)
    requires lower <= higher
    ensures ApprovedLimit(lower) <= ApprovedLimit(higher)
  {
    RoundHalfEvenMonotone((36 * lower) as real / 100000.0, (36 * higher) as real / 100000.0);
  }

  /** A non-negative income gets a non-negative limit. */
  lemma ApprovedLimitNonNegative(monthlyIncome: int)
    requires monthlyIncome >= 0
    ensures ApprovedLimit(monthlyIncome) >= 0
  {
    ApprovedLimitMonotone(0, monthlyIncome);
  }
}
