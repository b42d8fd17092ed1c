/**
 * The credit score: four additive sub-scores over the borrower's loan
 * history, capped at 100 and rounded to hundredths.
 */
module Scoring {
  import opened Records
  import opened Rounding

  /**
   * 20 points times the share of scheduled installments paid on time
   * over all loans; a flat 5 for a borrower with no loans at all. A history
   * whose tenures add up to zero has share zero.
   */
  function RepaymentPoints(loans: seq<Loan>): (p: real)
    ensures loans == [] ==> p == 5.0
    ensures loans != [] && TotalTenure(loans) != 0.0 ==> p * TotalTenure(loans) == 20.0 * TotalPaidOnTime(loans)
    ensures loans != [] && TotalTenure(loans) == 0.0 ==> p == 0.0
  {
    if |loans| > 0 then
      var expected, paid := TotalTenure(loans), TotalPaidOnTime(loans);
      (if expected != 0.0 then paid / expected else 0.0) * 20.0
    else
      5.0
  }

  /** Points for how many loans the borrower has ever had: none 5, one or two 10, up to five 7, more 3. */
  function CountPoints(count: nat): (p: real)
    ensures 3.0 <= p <= 10.0
  {
    if count == 0 then 5.0
    else if count <= 2 then 10.0
    else if count <= 5 then 7.0
    else 3.0
  }

  /** Points for loans started this calendar year: none 10, up to three 5, more 2. */
  function RecentPoints(startedThisYear: nat): (p: real)
    ensures 2.0 <= p <= 10.0
  {
    if startedThisYear == 0 then 10.0
    else if startedThisYear <= 3 then 5.0
    else 2.0
  }

  /** Existing principal as a share of the approved limit; a zero limit counts as fully used. */
  function ExposureRatio(totalPrincipal: real, approvedLimit: real): (ratio: real)
    ensures approvedLimit != 0.0 ==> ratio * approvedLimit == totalPrincipal
    ensures approvedLimit == 0.0 ==> ratio == 1.0
  {
    if approvedLimit != 0.0 then totalPrincipal / approvedLimit else 1.0
  }

  /** Points for the exposure ratio: below 0.3 10, below 0.6 5, below 0.9 1, otherwise none. */
  function ExposurePoints(totalPrincipal: real, approvedLimit: real): (p: real)
    ensures 0.0 <= p <= 10.0
    ensures approvedLimit == 0.0 ==> p == 0.0
  {
    var ratio := ExposureRatio(totalPrincipal, approvedLimit);
    if ratio < 0.3 then 10.0
    else if ratio < 0.6 then 5.0
    else if ratio < 0.9 then 1.0
    else 0.0
  }

  /** The sum of the four sub-scores, before the cap. */
  function RawScore(customer: Customer, loans: seq<Loan>, currentYear: int): (raw: real)
    ensures RepaymentPoints(loans) + 5.0 <= raw <= RepaymentPoints(loans) + 30.0
  {
    RepaymentPoints(loans)
    + CountPoints(|loans|)
    + RecentPoints(CountStartedIn(loans, currentYear))
    + ExposurePoints(TotalPrincipal(loans), customer.approvedLimit)
  }

  /** The credit score: the raw score capped at 100, then rounded to hundredths. */
  function CreditScore(customer: Customer, loans: seq<Loan>, currentYear: int): (score: real)
    ensures score <= 100.0
  {
    var capped := Min(RawScore(customer, loans, currentYear), 100.0);
    RoundCentsMonotone(capped, 100.0);
    RoundCentsWhole(100);
    RoundCents(capped)
  }

  function Min(x: real, y: real): real {
    if x <= y then x else y
  }

  /** On a consistent history the repayment sub-score lies between 0 and 20. */
  lemma RepaymentPointsWithinTwenty(loans: seq<Loan>)
    requires PaidWithinTenure(loans)
    ensures 0.0 <= RepaymentPoints(loans) <= 20.0
  {
    if |loans| > 0 {
      PaidOnTimeWithinTenure(loans);
      var expected, paid := TotalTenure(loans), TotalPaidOnTime(loans);
      if expected != 0.0 {
        ShareWithinOne(paid, expected);
      }
    }
  }

  /** With no negative counts the repayment sub-score is not negative. */
  lemma RepaymentPointsNonNegative(loans: seq<Loan>)
    requires NonNegativeCounts(loans)
    ensures 0.0 <= RepaymentPoints(loans)
  {
    if |loans| > 0 {
      CountTotalsNonNegative(loans);
      var expected, paid := TotalTenure(loans), TotalPaidOnTime(loans);
      if expected != 0.0 {
        assert 0.0 <= paid / expected;
      }
    }
  }

  /** More loans started this year never earn more points. */
  lemma RecentPointsAntitone(fewer: nat, more: nat)
    requires fewer <= more
    ensures RecentPoints(more) <= RecentPoints(fewer)
  {
  }

  /** Against a positive limit, more existing principal never earns more points. */
  lemma ExposurePointsAntitone(smaller: real, larger: real, approvedLimit: real)
    requires approvedLimit > 0.0 && smaller <= larger
    ensures ExposurePoints(larger, approvedLimit) <= ExposurePoints(smaller, approvedLimit)
  {
    assert smaller / approvedLimit <= larger / approvedLimit;
  }

  /** With no negative counts the score lies between 5 and 100. */
  lemma CreditScoreRange(customer: Customer, loans: seq<Loan>, currentYear: int)
    requires NonNegativeCounts(loans)
    ensures 5.0 <= CreditScore(customer, loans, currentYear) <= 100.0
  {
    RepaymentPointsNonNegative(loans);
    var capped := Min(RawScore(customer, loans, currentYear), 100.0);
    RoundCentsBetween(capped, 5, 100);
  }

  /**
   * On a consistent history (on-time payments within each tenure) the four
   * sub-scores are at most 20, 10, 10 and 10, so the score is at most 50.
   */
  lemma CreditScoreAtMostFifty(customer: Customer, loans: seq<Loan>, currentYear: int)
    requires PaidWithinTenure(loans)
    ensures 5.0 <= CreditScore(customer, loans, currentYear) <= 50.0
  {
    RepaymentPointsWithinTwenty(loans);
    var capped := Min(RawScore(customer, loans, currentYear), 100.0);
    RoundCentsBetween(capped, 5, 50);
  }

  /**
   * A borrower with no loans scores 5 + 5 + 10 + 10 = 30, or 20 when the
   * approved limit is zero (then the exposure ratio counts as one).
   */
  lemma EmptyHistoryScore(customer: Customer, currentYear: int)
    ensures CreditScore(customer, [], currentYear) == if customer.approvedLimit == 0.0 then 20.0 else 30.0
  {
    RoundCentsWhole(20);
    RoundCentsWhole(30);
  }

  /** The score reads a history only through its length, three of its totals and its count by start year. */
  lemma ScoreReadsAggregates(customer: Customer, a: seq<Loan>, b: seq<Loan>, currentYear: int)
    requires |a| == |b| && TotalPrincipal(a) == TotalPrincipal(b)
    requires TotalTenure(a) == TotalTenure(b) && TotalPaidOnTime(a) == TotalPaidOnTime(b)
    requires CountStartedIn(a, currentYear) == CountStartedIn(b, currentYear)
    ensures CreditScore(customer, a, currentYear) == CreditScore(customer, b, currentYear)
  {
    assert RepaymentPoints(a) == RepaymentPoints(b);
    assert RawScore(customer, a, currentYear) == RawScore(customer, b, currentYear);
  }

  /** A share of a positive whole that is no larger than the whole lies between 0 and 1. */
  lemma ShareWithinOne(part: real, whole: real)
    requires 0.0 <= part <= whole && whole != 0.0
    ensures 0.0 <= part / whole <= 1.0
  {
    assert part / whole * whole == part;
  }
}
