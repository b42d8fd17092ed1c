# Credit approval: the loan-eligibility evaluator

A model in Dafny of the loan-eligibility evaluator of a small credit-approval
service. Given a customer, that customer's loan history and a request
(principal, annual interest rate in percent, tenure in months), the evaluator:

1. computes the monthly installment (EMI) at the requested rate with the
   reducing-balance annuity formula, or principal / tenure at a zero rate;
2. rejects with "EMI exceeds 50% of salary" when the stored installments of all
   loans plus the new one exceed half the monthly salary, and then with
   "Approved limit exceeded" when the principal of all loans plus the request
   exceeds the approved limit;
3. scores the customer, at most 100, as the sum of four sub-scores over the
   whole history: repayment record (20 times the share of scheduled
   installments paid on time, a flat 5 with no loans), number
   of loans (5/10/7/3), loans started this calendar year (10/5/2) and exposure
   against the approved limit (10/5/1/0). The sum is capped at 100 and rounded
   to hundredths;
4. rejects a score of 10 or less. Otherwise it approves and raises the rate to at
   least 12 (score above 30 up to 50) or at least 16 (score above 10 up to 30).
   The installment is then recomputed at the corrected rate.

Two small rules beside it are modelled too: the approved limit given at
registration (36 monthly incomes rounded to the nearest 100000), and the
installments left on a loan as the listing shows them.

Modules, one per component:

- `Wrappers`: `Option`.
- `Rounding`: Python's `round`, exact and half-to-even, to units and to hundredths.
- `Amortization`: the installment, with the loan balance as its independent specification.
- `Records`: customers, loans, and totals over a history.
- `Scoring`: the sub-scores and the credit score.
- `Policy`: the score bands and the rate correction.
- `Eligibility`: the evaluator, its outcomes and the test scenarios.
- `Registration`: the approved limit.
- `Listing`: installments left.

Modelling choices:

- Money and rates are exact `real`s, and `round(x, 2)` is exact half-to-even rounding to hundredths.
- The clock read for "this year" is the parameter `currentYear`.
- The stored history is a `seq<Loan>` passed in. A missing customer is `None`.
- Python raises ZeroDivisionError for a zero tenure, when the growth factor `(1+r)^n` is exactly 1, and for `0.0 ** n` with a negative `n` (rate -1200 at a negative tenure). The model returns `None` from `Installment` there, and the `ZeroDivision` outcome from `Evaluate`. It does not add a precondition. A negative tenure is computed as Python computes it, with a negative power.
- `monthly_installment` is reported as absent when the installment is exactly zero, as the truthiness test at `credit_aprprove/views.py:146` does. Over a positive tenure that happens for a zero principal and at rate -1200 percent, where `1 + r` is zero. It happens even on an approval.
- In these cases the model follows the code:
  - Inside `evaluate_loan` nothing rejects a non-positive tenure before the formula at `credit_aprprove/views.py:64`. A zero tenure divides by zero, and a negative tenure is computed with a negative power. `create_loan` passes a zero tenure straight through (`credit_aprprove/views.py:212-216`). The truthiness test of `check_eligibility` at `credit_aprprove/views.py:159` turns away a JSON tenure of 0, but not a negative one.
  - A borrower with no loans scores 30 when the approved limit is nonzero. With a zero limit, `credit_aprprove/views.py:108-110` counts the exposure ratio as 1, and the score is 20.
  - The score is at most 100 on every input, from the cap at `credit_aprprove/views.py:120`. A lower bound of 5 is guaranteed when no loan has a negative tenure or on-time count. Other histories can score less.
  - A score of at most 50 is guaranteed when every loan has `0 <= emis_paid_on_time <= tenure`. Other histories can score more.

## Model

| member | source | states |
|---|---|---|
| `Rounding.RoundHalfEven` | credit_aprprove/views.py:25 | `round(y)` gives an integer within 1/2 of `y`, and an even one on an exact tie |
| `Rounding.RoundHalfEvenUnique` | credit_aprprove/views.py:25 | that nearest-then-even rule determines the result: every integer meeting it equals `round(y)` |
| `Rounding.RoundHalfEvenMonotone` | credit_aprprove/views.py:25 | rounding preserves order |
| `Rounding.RoundCents` | credit_aprprove/views.py:120 | `round(x, 2)` is a whole number of hundredths, the nearest one to `x` (within 0.005), and on an exact tie the one with an even count of hundredths |
| `Rounding.RoundCentsBetween` | credit_aprprove/views.py:120 | a value between two whole numbers still lies between them after `round(x, 2)` |
| `Amortization.MonthlyRate` | credit_aprprove/views.py:61 | the monthly rate times 1200 is the annual percentage rate, and it is positive exactly when that rate is |
| `Amortization.PowInt` | credit_aprprove/views.py:64 | `x ** n` for a negative `n` is the reciprocal of `x ** -n`; it is nonzero for a nonzero base and positive for a positive base |
| `Amortization.Annuity` | credit_aprprove/views.py:64 | the annuity payment `P*r*g/(g-1)` is zero exactly when the principal, the rate or the growth factor is zero, and for a positive principal and rate and a growth factor above 1 it is more than one month's interest `P*r` |
| `Amortization.Pow` | credit_aprprove/views.py:64 | `(1+r)**n` is nonzero for a nonzero base, positive for a positive base, at least 1 for a base of at least 1, above 1 for a base above 1 and n > 0 |
| `Amortization.Installment` | credit_aprprove/views.py:61-64 | a zero tenure divides by zero; any tenure >= 1 at a rate >= 0 gives an installment; at rate 0 the installment is principal / tenure |
| `Amortization.InstallmentAmortizes` | credit_aprprove/views.py:61-64 | for tenure >= 1 and rate >= 0 the installment exists, and a payment leaves a zero balance after `tenure` months exactly when it equals the installment: the formula is the unique payment that pays the loan off |
| `Amortization.PaysOffWhenDefined` | credit_aprprove/views.py:61-64 | the same at any rate, negative ones included, wherever the installment exists |
| `Amortization.BalanceClosedForm` | credit_aprprove/views.py:64 | the balance after k payments is the principal grown k months less the payments each grown to month k |
| `Amortization.PaidValueGeometric` | credit_aprprove/views.py:64 | the geometric sum of the growth factors times r equals `(1+r)^k - 1`, the denominator of the formula |
| `Amortization.Bernoulli` | credit_aprprove/views.py:64 | `(1+r)^n >= 1 + n*r` for r >= 0 |
| `Amortization.InstallmentBounds` | credit_aprprove/views.py:61-64 | at a positive rate and a positive principal the installment is more than one month's interest `P*r` and at most `P*r + P/n` |
| `Amortization.InstallmentZeroExactly` | credit_aprprove/views.py:61-64 | over a positive tenure, a defined installment is zero exactly for a zero principal or at rate -1200 |
| `Amortization.InstallmentDefinedAtPositiveRate` | credit_aprprove/views.py:61-64 | at a positive rate every nonzero tenure, negative ones included, gives an installment |
| `Records.TotalPrincipal` | credit_aprprove/views.py:65 | the principal summed over all loans is not negative when no loan's principal is |
| `Records.TotalRepayment` | credit_aprprove/views.py:66 | the stored installments summed over all loans are not negative when none is |
| `Records.TotalTenure` | credit_aprprove/views.py:83 | the scheduled installments summed over all loans are not negative when no tenure is |
| `Records.TotalPaidOnTime` | credit_aprprove/views.py:84 | the on-time payments summed over all loans are not negative when no count is |
| `Records.TotalPermutation` | credit_aprprove/views.py:65-66 | any sum over the history is the same for every permutation of the loans |
| `Records.CountStartedInPermutation` | credit_aprprove/views.py:100 | the count of loans started in a year is the same for every permutation of the loans |
| `Records.CountStartedIn` | credit_aprprove/views.py:100 | the count of loans started in a year is at most the number of loans, and zero exactly when no loan started that year |
| `Records.PaidOnTimeWithinTenure` | credit_aprprove/views.py:83-85 | on a consistent history the total paid on time is between 0 and the total scheduled |
| `Records.AggregatesIgnoreOrder` | credit_aprprove/views.py:65-100 | for two histories that are permutations of each other (equal multisets), the number of loans, every total the evaluator takes and the count by start year are the same |
| `Records.AggregatesIgnoreEndDates` | credit_aprprove/views.py:59-66 | every total and count is the same for two histories that differ only in end dates: open and closed loans count alike |
| `Scoring.RepaymentPoints` | credit_aprprove/views.py:82-88 | with no loans the sub-score is 5; otherwise it times the total tenure is 20 times the total paid on time, and it is 0 when the tenures add up to zero |
| `Scoring.CountPoints` | credit_aprprove/views.py:90-98 | the loan-count sub-score is between 3 and 10 |
| `Scoring.RecentPoints` | credit_aprprove/views.py:100-106 | the this-year sub-score is between 2 and 10 |
| `Scoring.RecentPointsAntitone` | credit_aprprove/views.py:100-106 | more loans started this year never give more points |
| `Scoring.ExposureRatio` | credit_aprprove/views.py:108-110 | against a nonzero limit the ratio times the limit is the existing principal; a zero limit gives ratio 1 |
| `Scoring.ExposurePoints` | credit_aprprove/views.py:108-118 | the exposure sub-score is between 0 and 10, and 0 when the approved limit is 0 |
| `Scoring.ExposurePointsAntitone` | credit_aprprove/views.py:108-118 | against a positive limit, more existing principal never gives more points |
| `Scoring.RepaymentPointsWithinTwenty` | credit_aprprove/views.py:82-88 | on a consistent history the repayment sub-score is between 0 and 20 |
| `Scoring.RepaymentPointsNonNegative` | credit_aprprove/views.py:82-88 | with no negative counts the repayment sub-score is not negative |
| `Scoring.RawScore` | credit_aprprove/views.py:80-118 | the uncapped score is the repayment sub-score plus between 5 and 30 points from the other three |
| `Scoring.CreditScore` | credit_aprprove/views.py:120 | the score never exceeds 100 |
| `Scoring.CreditScoreRange` | credit_aprprove/views.py:80-120 | with no negative counts the score is between 5 and 100 |
| `Scoring.CreditScoreAtMostFifty` | credit_aprprove/views.py:80-120 | when every loan has `0 <= emis_paid_on_time <= tenure` the score is between 5 and 50 |
| `Scoring.ScoreReadsAggregates` | credit_aprprove/views.py:80-120 | two histories with the same number of loans, the same principal, tenure and on-time totals and the same count by start year get the same score |
| `Scoring.EmptyHistoryScore` | credit_aprprove/views.py:82-118 | with no loans the score is 30, or 20 when the approved limit is 0 |
| `Policy.Decide` | credit_aprprove/views.py:122-134 | approval exactly when score > 10; the corrected rate is never below the requested one and is the requested rate, 12 or 16; a rejection keeps the requested rate |
| `Policy.DecideBands` | credit_aprprove/views.py:125-132 | score > 50 keeps the rate; 30 < score <= 50 gives max(rate, 12); 10 < score <= 30 gives max(rate, 16) |
| `Policy.DecideMonotone` | credit_aprprove/views.py:122-134 | among approved scores, a higher score never gives a higher corrected rate |
| `Eligibility.Decision.ReportedScore` | credit_aprprove/views.py:52-147 | a result reports no score exactly when it is a gate rejection or a division by zero; a nonzero reported score belongs to a scored result |
| `Eligibility.Decision.Message` | credit_aprprove/views.py:56-148 | the message is "Loan approved" exactly when `Decision.Approval()` (the "approval" key) holds, and "Loan rejected due to credit score" exactly for a score rejection |
| `Eligibility.ReportedInstallment` | credit_aprprove/views.py:146 | the reported installment is absent exactly when the installment is zero; otherwise it is `round(EMI, 2)`: a whole number of hundredths, the nearest one to the installment (within 0.005), and on an exact tie the one with an even count of hundredths |
| `Eligibility.Evaluate` | credit_aprprove/views.py:49-149 | "Customer not found" exactly for a missing customer; a scored result reports the credit score of the customer's whole history, is approved exactly when that score exceeds 10, and has a corrected rate no lower than the requested one; a score rejection reports no installment and the requested rate |
| `Eligibility.CorrectedInstallmentDefined` | credit_aprprove/views.py:136-141 | when the policy approves, if the installment at the requested rate exists then so does the one at the corrected rate |
| `Eligibility.ZeroDivisionOnlyAtRequestedRate` | credit_aprprove/views.py:61-64 | the evaluator divides by zero exactly when the installment at the requested rate does; the recomputation at line 141 never does |
| `Eligibility.EmiGateFirst` | credit_aprprove/views.py:68-72 | the result is "EMI exceeds 50% of salary" exactly when the installment exists and existing plus new installments exceed half the salary, whether or not the limit is also exceeded |
| `Eligibility.LimitGateSecond` | credit_aprprove/views.py:74-78 | the result is "Approved limit exceeded" exactly when the salary gate passes and existing plus requested principal exceed the limit, whatever the score would be |
| `Eligibility.ScoredExactlyWhenGatesPass` | credit_aprprove/views.py:64-80 | a request is scored exactly when the installment exists and both gates pass |
| `Eligibility.ApprovalTerms` | credit_aprprove/views.py:136-148 | an approval, at any tenure including a negative one, reports the credit score, the policy's corrected rate and the rounded installment at the corrected rate; over a positive tenure that installment pays the loan off exactly |
| `Eligibility.ScenarioNegativeTenureApproved` | credit_aprprove/views.py:49-149 | a request of 100000 at 15% over -12 months from the test borrower is approved at rate 16 with an installment reported |
| `Eligibility.NewBorrowerApproved` | credit_aprprove/views.py:82-132 | a borrower with no loans and a nonzero limit whose request is within the limit and whose installment is at most half the salary is approved with score 30 at rate max(rate, 16) and the installment at that rate |
| `Eligibility.SameAggregatesSameResult` | credit_aprprove/views.py:59-149 | two histories that agree on their length, their four totals and their count by start year give the same result |
| `Eligibility.HistoryOrderIrrelevant` | credit_aprprove/views.py:59-120 | two histories that are permutations of each other give the same result |
| `Eligibility.EndDatesIrrelevant` | credit_aprprove/views.py:59-66 | whether loans are open or closed does not change the result |
| `Eligibility.ScenarioRateCorrected` | credit_aprprove/tests.py:18-29 | salary 50000, limit 1000000, no loans: 100000 at 15% over 12 months is approved at 16 with score 30 |
| `Eligibility.ScenarioEmiExceedsSalary` | credit_aprprove/tests.py:31-42 | the same borrower asking 10000000 at 15% over 6 months is rejected with "EMI exceeds 50% of salary" |
| `Eligibility.ScenarioApprovedLimitExceeded` | credit_aprprove/tests.py:44-56 | the same borrower asking twice the limit at 8% over 240 months is rejected with "Approved limit exceeded" |
| `Registration.ApprovedLimit` | credit_aprprove/views.py:25 | the limit is a multiple of 100000 within 50000 of 36 monthly incomes, and on a tie an even multiple |
| `Registration.ApprovedLimitUnique` | credit_aprprove/views.py:25 | every multiple of 100000 meeting that rule is the limit |
| `Registration.ApprovedLimitMonotone` | credit_aprprove/views.py:25 | a higher income never gets a lower limit |
| `Registration.ApprovedLimitNonNegative` | credit_aprprove/views.py:25 | a non-negative income gets a non-negative limit |
| `Listing.RepaymentsLeft` | credit_aprprove/views.py:301 | installments left are never negative, at least tenure minus those paid, and either zero or exactly that difference |

## Left out

- Persistence is not modelled: customer and loan lookups, counts and record creation. The customer is an `Option` input and the history a `seq<Loan>` input.
- HTTP handling is not modelled: the `register_customer`, `check_eligibility`, `create_loan`, `view_loan` and `view_loans` handlers beyond lines 25 and 301. This covers request parsing (its truthiness check treats a rate of 0 as missing), status codes and response dictionaries.
- Storing the approved loan is not modelled. Its end date comes from calendar month arithmetic in a date library.
- The serializer, URL routing and spreadsheet import modules are framework glue and I/O.
- The list of active loans built at line 60 is never read, so it is not modelled. `EndDatesIrrelevant` states that the outcome does not depend on end dates.
- The clock is not read. The current year is a parameter.
- Floating point: amounts and rates are exact reals. The model does not capture representation error, or rounding of the float operands before `round`.
- `Amortization.Installment`: does not model float range. Python's `(1 + r) ** n` at `credit_aprprove/views.py:64` raises OverflowError once the power leaves the float range, for example rate 1200 with tenure 1024, or rate 15 with a tenure of 57137 months or more. The model returns an installment there. A product `P * r * (1 + r) ** n` that overflows to infinity is not modelled either.
- Rounding works on the exact value: `round(x, 2)` rounds the exact real to hundredths, ties to even. The approved limit at line 25 is rounded the same way, from the exact quotient.
- `Amortization.InstallmentBounds`: stated only for a positive principal and a positive rate. The lower bound fails at a zero principal.
- `Scoring.CreditScoreRange`: the lower bound needs non-negative tenures and on-time counts. The source does not enforce these, and without them the score can be negative.
- `Scoring.CreditScoreAtMostFifty`: needs `0 <= emis_paid_on_time <= tenure` on every loan. The source assumes this of its data but does not check it.
