/**
 * The loan-eligibility evaluator: the installment at the requested rate,
 * the two affordability gates, the credit score, the decision policy and
 * the installment at the corrected rate, in that order.
 */
module Eligibility {
  import opened Wrappers
  import opened Rounding
  import opened Amortization
  import opened Records
  import opened Scoring
  import opened Policy

  /** What an evaluation produces. */
  datatype Decision =
    | CustomerNotFound
      /** The installment formula divided by zero; the evaluator raises ZeroDivisionError. */
    | ZeroDivision
    | EmiExceedsHalfSalary
    | ApprovedLimitExceeded
    | Scored(approved: bool, correctedRate: real, monthlyInstallment: Option<real>, score: real)
  {
    /** The result's approval flag. */
    function Approval(): bool {
      Scored? && approved
    }

    /** The score the result reports: 0 for an unknown customer, none after a gate rejects. */
    function ReportedScore(): (s: Option<real>)
      ensures s.None? <==> (ZeroDivision? || EmiExceedsHalfSalary? || ApprovedLimitExceeded?)
      ensures s.Some? && s.value != 0.0 ==> Scored?
    {
      match this
      case CustomerNotFound => Some(0.0)
      case Scored(_, _, _, score) => Some(score)
      case _ => None
    }

    /** The result's message; a division by zero raises instead of returning one. */
    function Message(): (m: string)
      requires !ZeroDivision?
      ensures m == "Loan approved" <==> Approval()
      ensures m == "Loan rejected due to credit score" <==> (Scored? && !approved)
    {
      match this
      case CustomerNotFound => "Customer not found"
      case EmiExceedsHalfSalary => "EMI exceeds 50% of salary"
      case ApprovedLimitExceeded => "Approved limit exceeded"
      case Scored(approved, _, _, _) => if approved then "Loan approved" else "Loan rejected due to credit score"
    }
  }

  /** The installment as reported: rounded to hundredths, and absent when it is zero. */
  function ReportedInstallment(emi: real): (shown: Option<real>)
    ensures shown.None? <==> emi == 0.0
    ensures shown.Some? ==> (shown.value * 100.0).Floor as real == shown.value * 100.0
    ensures shown.Some? ==> IsHalfEvenRounding(emi * 100.0, (shown.value * 100.0).Floor)
    ensures shown.Some? ==> emi - 0.005 <= shown.value <= emi + 0.005
  {
    if emi == 0.0 then None else Some(RoundCents(emi))
  }

  /**
   * Evaluates a request for `loanAmount` at `requestedRate` percent over
   * `tenure` months, for `customer` (None when the id matches no customer)
   * with loan history `loans`, in calendar year `currentYear`.
   */
  function Evaluate(customer: Option<Customer>, loans: seq<Loan>, requestedRate: real,
                    loanAmount: real, tenure: int, currentYear: int): (d: Decision)
    ensures d.CustomerNotFound? <==> customer.None?
    ensures d.Scored? ==> customer.Some? && d.score == CreditScore(customer.value, loans, currentYear)
    ensures d.Scored? ==> (d.approved <==> d.score > 10.0)
    ensures d.Scored? ==> d.correctedRate >= requestedRate && d.score <= 100.0
    ensures d.Scored? && !d.approved ==> d.monthlyInstallment.None? && d.correctedRate == requestedRate
  {
    match customer
    case None => CustomerNotFound
    case Some(c) =>
      match Installment(loanAmount, requestedRate, tenure)
      case None => ZeroDivision
      case Some(newEmi) =>
        if TotalRepayment(loans) + newEmi > c.monthlySalary * 0.5 then EmiExceedsHalfSalary
        else if TotalPrincipal(loans) + loanAmount > c.approvedLimit then ApprovedLimitExceeded
        else
          var score := CreditScore(c, loans, currentYear);
          var terms := Decide(score, requestedRate);
          if !terms.approved then Scored(false, terms.correctedRate, None, score)
          else
            match Installment(loanAmount, terms.correctedRate, tenure)
            case None => ZeroDivision
            case Some(emi) => Scored(true, terms.correctedRate, ReportedInstallment(emi), score)
  }

  /**
   * Once the installment at the requested rate is defined, so is the one at
   * any corrected rate the policy approves.
   */
  lemma CorrectedInstallmentDefined(loanAmount: real, requestedRate: real, tenure: int, score: real)
    requires Decide(score, requestedRate).approved
    ensures Installment(loanAmount, requestedRate, tenure).Some?
            ==> Installment(loanAmount, Decide(score, requestedRate).correctedRate, tenure).Some?
  {
    var corrected := Decide(score, requestedRate).correctedRate;
    if corrected != requestedRate && Installment(loanAmount, requestedRate, tenure).Some? {
      InstallmentDefinedAtPositiveRate(loanAmount, corrected, tenure);
    }
  }

  /** The evaluator raises ZeroDivisionError exactly when the installment at the requested rate divides by zero. */
  lemma ZeroDivisionOnlyAtRequestedRate(customer: Customer, loans: seq<Loan>, requestedRate: real,
                                        loanAmount: real, tenure: int, currentYear: int)
    ensures Evaluate(Some(customer), loans, requestedRate, loanAmount, tenure, currentYear).ZeroDivision?
            <==> Installment(loanAmount, requestedRate, tenure).None?
  {
    var d := Evaluate(Some(customer), loans, requestedRate, loanAmount, tenure, currentYear);
    if Installment(loanAmount, requestedRate, tenure).Some? {
      var score := CreditScore(customer, loans, currentYear);
      var terms := Decide(score, requestedRate);
      if terms.approved {
        CorrectedInstallmentDefined(loanAmount, requestedRate, tenure, score);
        assert Installment(loanAmount, terms.correctedRate, tenure).Some?;
      }
      assert !d.ZeroDivision?;
    }
  }

  /**
   * The salary gate comes first: the result is "EMI exceeds 50% of salary"
   * exactly when existing plus new installments exceed half the salary,
   * whether or not the limit is exceeded too.
   */
  lemma EmiGateFirst(customer: Customer, loans: seq<Loan>, requestedRate: real,
                     loanAmount: real, tenure: int, currentYear: int)
    ensures Evaluate(Some(customer), loans, requestedRate, loanAmount, tenure, currentYear).EmiExceedsHalfSalary?
            <==> && Installment(loanAmount, requestedRate, tenure).Some?
                 && TotalRepayment(loans) + Installment(loanAmount, requestedRate, tenure).value
                    > customer.monthlySalary * 0.5
  {
  }

  /**
   * The limit gate comes second: past the salary gate, the result is
   * "Approved limit exceeded" exactly when existing plus requested principal
   * exceed the approved limit, whatever the score would have been.
   */
  lemma LimitGateSecond(customer: Customer, loans: seq<Loan>, requestedRate: real,
                        loanAmount: real, tenure: int, currentYear: int)
    ensures Evaluate(Some(customer), loans, requestedRate, loanAmount, tenure, currentYear).ApprovedLimitExceeded?
            <==> && Installment(loanAmount, requestedRate, tenure).Some?
                 && TotalRepayment(loans) + Installment(loanAmount, requestedRate, tenure).value
                    <= customer.monthlySalary * 0.5
                 && TotalPrincipal(loans) + loanAmount > customer.approvedLimit
  {
  }

  /** A request is scored exactly when the installment is defined and both gates pass. */
  lemma ScoredExactlyWhenGatesPass(customer: Customer, loans: seq<Loan>, requestedRate: real,
                                   loanAmount: real, tenure: int, currentYear: int)
    ensures Evaluate(Some(customer), loans, requestedRate, loanAmount, tenure, currentYear).Scored?
            <==> && Installment(loanAmount, requestedRate, tenure).Some?
                 && TotalRepayment(loans) + Installment(loanAmount, requestedRate, tenure).value
                    <= customer.monthlySalary * 0.5
                 && TotalPrincipal(loans) + loanAmount <= customer.approvedLimit
  {
    ZeroDivisionOnlyAtRequestedRate(customer, loans, requestedRate, loanAmount, tenure, currentYear);
  }

  /**
   * An approval reports the credit score, the policy's corrected rate, and
   * the installment at the corrected rate (not the requested one), at any
   * tenure the evaluator accepts, negative ones included; over a positive
   * tenure that installment pays the loan off exactly.
   */
  lemma ApprovalTerms(customer: Customer, loans: seq<Loan>, requestedRate: real,
                      loanAmount: real, tenure: int, currentYear: int)
    requires Evaluate(Some(customer), loans, requestedRate, loanAmount, tenure, currentYear).Approval()
    ensures var d := Evaluate(Some(customer), loans, requestedRate, loanAmount, tenure, currentYear);
            && d.score == CreditScore(customer, loans, currentYear)
            && d.correctedRate == Decide(d.score, requestedRate).correctedRate
            && Installment(loanAmount, d.correctedRate, tenure).Some?
            && d.monthlyInstallment == ReportedInstallment(Installment(loanAmount, d.correctedRate, tenure).value)
            && (tenure >= 1 ==> Balance(loanAmount, MonthlyRate(d.correctedRate),
                                        Installment(loanAmount, d.correctedRate, tenure).value, tenure) == 0.0)
  {
    var d := Evaluate(Some(customer), loans, requestedRate, loanAmount, tenure, currentYear);
    var emi := Installment(loanAmount, d.correctedRate, tenure).value;
    if tenure >= 1 {
      PaysOffWhenDefined(loanAmount, d.correctedRate, tenure, emi);
    }
  }

  /** A negative tenure passes the evaluator: 100000 at 15% over -12 months is approved at rate 16. */
  lemma ScenarioNegativeTenureApproved(currentYear: int)
    ensures var d := Evaluate(Some(TestCustomer()), [], 15.0, 100000.0, -12, currentYear);
            d.Approval() && d.correctedRate == 16.0 && d.monthlyInstallment.Some?
  {
    InstallmentDefinedAtPositiveRate(100000.0, 15.0, -12);
    NewBorrowerApproved(TestCustomer(), 15.0, 100000.0, -12, currentYear);
    ApprovalTerms(TestCustomer(), [], 15.0, 100000.0, -12, currentYear);
    InstallmentDefinedAtPositiveRate(100000.0, 16.0, -12);
  }

  /**
   * A borrower with no loans and a nonzero limit who passes both gates
   * scores 30 and is approved with the rate raised to at least 16.
   */
  lemma NewBorrowerApproved(customer: Customer, requestedRate: real, loanAmount: real,
                            tenure: int, currentYear: int)
    requires customer.approvedLimit != 0.0 && loanAmount <= customer.approvedLimit
    ensures var rate := Max(requestedRate, 16.0);
            && Installment(loanAmount, requestedRate, tenure).Some?
            && Installment(loanAmount, requestedRate, tenure).value <= customer.monthlySalary * 0.5
            ==> && Installment(loanAmount, rate, tenure).Some?
                && Evaluate(Some(customer), [], requestedRate, loanAmount, tenure, currentYear)
                   == Scored(true, rate, ReportedInstallment(Installment(loanAmount, rate, tenure).value), 30.0)
  {
    EmptyHistoryScore(customer, currentYear);
    CorrectedInstallmentDefined(loanAmount, requestedRate, tenure, 30.0);
  }

  /** The order in which the loan history is listed does not change the outcome: any permutation gives the same result. */
  lemma HistoryOrderIrrelevant(customer: Option<Customer>, a: seq<Loan>, b: seq<Loan>, requestedRate: real,
                               loanAmount: real, tenure: int, currentYear: int)
    requires multiset(a) == multiset(b)
    ensures Evaluate(customer, a, requestedRate, loanAmount, tenure, currentYear)
         == Evaluate(customer, b, requestedRate, loanAmount, tenure, currentYear)
  {
    AggregatesIgnoreOrder(a, b, currentYear);
    SameAggregatesSameResult(customer, a, b, requestedRate, loanAmount, tenure, currentYear);
  }

  /** Whether loans are still open or already closed does not change the outcome. */
  lemma EndDatesIrrelevant(customer: Option<Customer>, a: seq<Loan>, b: seq<Loan>, requestedRate: real,
                           loanAmount: real, tenure: int, currentYear: int)
    requires SameButEndDates(a, b)
    ensures Evaluate(customer, a, requestedRate, loanAmount, tenure, currentYear)
         == Evaluate(customer, b, requestedRate, loanAmount, tenure, currentYear)
  {
    AggregatesIgnoreEndDates(a, b, currentYear);
    SameAggregatesSameResult(customer, a, b, requestedRate, loanAmount, tenure, currentYear);
  }

  /** The evaluator reads a history only through its length, its four totals and its count by start year. */
  lemma SameAggregatesSameResult(customer: Option<Customer>, a: seq<Loan>, b: seq<Loan>, requestedRate: real,
                                 loanAmount: real, tenure: int, currentYear: int)
    requires |a| == |b|
    requires TotalPrincipal(a) == TotalPrincipal(b) && TotalRepayment(a) == TotalRepayment(b)
    requires TotalTenure(a) == TotalTenure(b) && TotalPaidOnTime(a) == TotalPaidOnTime(b)
    requires CountStartedIn(a, currentYear) == CountStartedIn(b, currentYear)
    ensures Evaluate(customer, a, requestedRate, loanAmount, tenure, currentYear)
         == Evaluate(customer, b, requestedRate, loanAmount, tenure, currentYear)
  {
    if customer.Some? {
      ScoreReadsAggregates(customer.value, a, b, currentYear);
    }
  }

  /** The borrower of the eligibility tests: salary 50000, approved limit 1000000, no loans. */
  function TestCustomer(): Customer {
    Customer(50000.0, 1000000.0)
  }

  /** 100000 at 15% over 12 months: approved, the rate corrected to 16. */
  lemma ScenarioRateCorrected(currentYear: int)
    ensures var d := Evaluate(Some(TestCustomer()), [], 15.0, 100000.0, 12, currentYear);
            d.Approval() && d.correctedRate == 16.0 && d.score == 30.0 && d.Message() == "Loan approved"
  {
    InstallmentBounds(100000.0, 15.0, 12);
    NewBorrowerApproved(TestCustomer(), 15.0, 100000.0, 12, currentYear);
  }

  /** 10000000 at 15% over 6 months: the installment alone is above half the salary. */
  lemma ScenarioEmiExceedsSalary(currentYear: int)
    ensures var d := Evaluate(Some(TestCustomer()), [], 15.0, 10000000.0, 6, currentYear);
            !d.Approval() && d.Message() == "EMI exceeds 50% of salary"
  {
    InstallmentBounds(10000000.0, 15.0, 6);
  }

  /** Twice the approved limit at 8% over 240 months: affordable monthly, but over the limit. */
  lemma ScenarioApprovedLimitExceeded(currentYear: int)
    ensures var d := Evaluate(Some(TestCustomer()), [], 8.0, 2000000.0, 240, currentYear);
            !d.Approval() && d.Message() == "Approved limit exceeded"
  {
    InstallmentBounds(2000000.0, 8.0, 240);
  }
}
