/**
 * The stored records the evaluator reads, and the aggregates it takes over a
 * borrower's whole loan history.
 */
module Records {

  /** A registered borrower, as far as the evaluator reads one. */
  datatype Customer = Customer(monthlySalary: real, approvedLimit: real)

  /**
   * A loan record, open or closed. `startYear` is the calendar year of its
   * start date; `endDate` is a day number, read by nothing in the evaluator.
   */
  datatype Loan = Loan(
    loanAmount: real,
    monthlyRepayment: real,
    tenure: int,
    emisPaidOnTime: int,
    startYear: int,
    endDate: int)

  /** The sum of `field` over every loan of the history; not negative where no loan's field is. */
  function Total(loans: seq<Loan>, field: Loan -> real): (t: real)
    ensures (forall i :: 0 <= i < |loans| ==> 0.0 <= field(loans[i])) ==> 0.0 <= t
  {
    if loans == [] then 0.0 else field(loans[0]) + Total(loans[1..], field)
  }

  // The fields the evaluator adds up, as functions to pass to `Total`.
  function Principal(l: Loan): real { l.loanAmount }
  function Repayment(l: Loan): real { l.monthlyRepayment }
  function Scheduled(l: Loan): real { l.tenure as real }
  function PaidOnTime(l: Loan): real { l.emisPaidOnTime as real }

  /** Principal borrowed over all loans, closed ones included. */
  function TotalPrincipal(loans: seq<Loan>): (t: real)
    ensures (forall i :: 0 <= i < |loans| ==> 0.0 <= loans[i].loanAmount) ==> 0.0 <= t
  {
    Total(loans, Principal)
  }

  /** Stored installments over all loans, closed ones included. */
  function TotalRepayment(loans: seq<Loan>): (t: real)
    ensures (forall i :: 0 <= i < |loans| ==> 0.0 <= loans[i].monthlyRepayment) ==> 0.0 <= t
  {
    Total(loans, Repayment)
  }

  /** Scheduled installments over all loans. */
  function TotalTenure(loans: seq<Loan>): (t: real)
    ensures (forall i :: 0 <= i < |loans| ==> 0 <= loans[i].tenure) ==> 0.0 <= t
  {
    Total(loans, Scheduled)
  }

  /** Installments paid on time over all loans. */
  function TotalPaidOnTime(loans: seq<Loan>): (t: real)
    ensures (forall i :: 0 <= i < |loans| ==> 0 <= loans[i].emisPaidOnTime) ==> 0.0 <= t
  {
    Total(loans, PaidOnTime)
  }

  /** The number of loans that started in `year`. */
  function CountStartedIn(loans: seq<Loan>, year: int): (n: nat)
    ensures n <= |loans|
    ensures n == 0 <==> forall i :: 0 <= i < |loans| ==> loans[i].startYear != year
  {
    if loans == [] then 0
    else (if loans[0].startYear == year then 1 else 0) + CountStartedIn(loans[1..], year)
  }

  /** The history is consistent: no loan has more on-time payments than installments, nor fewer than none. */
  predicate PaidWithinTenure(loans: seq<Loan>) {
    forall i :: 0 <= i < |loans| ==> 0 <= loans[i].emisPaidOnTime <= loans[i].tenure
  }

  /** No loan has a negative tenure or a negative on-time count. */
  predicate NonNegativeCounts(loans: seq<Loan>) {
    forall i :: 0 <= i < |loans| ==> 0 <= loans[i].emisPaidOnTime && 0 <= loans[i].tenure
  }

  /** A total over a concatenation is the sum of the totals. */
  lemma {:induction false} TotalAppend(a: seq<Loan>, b: seq<Loan>, field: Loan -> real)
    ensures Total(a + b, field) == Total(a, field) + Total(b, field)
  {
    if a != [] {
      assert (a + b)[0] == a[0];
      assert (a + b)[1..] == a[1..] + b;
      TotalAppend(a[1..], b, field);
    } else {
      assert a + b == b;
    }
  }

  /** Counting by start year over a concatenation adds the two counts. */
  lemma {:induction false} CountStartedInAppend(a: seq<Loan>, b: seq<Loan>, year: int)
    ensures CountStartedIn(a + b, year) == CountStartedIn(a, year) + CountStartedIn(b, year)
  {
    if a != [] {
      assert (a + b)[0] == a[0];
      assert (a + b)[1..] == a[1..] + b;
      CountStartedInAppend(a[1..], b, year);
    } else {
      assert a + b == b;
    }
  }

  /** A total is no smaller where every loan's field is no smaller. */
  lemma {:induction false} TotalMonotone(loans: seq<Loan>, low: Loan -> real, high: Loan -> real)
    requires forall i :: 0 <= i < |loans| ==> low(loans[i]) <= high(loans[i])
    ensures Total(loans, low) <= Total(loans, high)
  {
    if loans != [] {
      TotalMonotone(loans[1..], low, high);
    }
  }

  /** Two histories whose loans agree on `field`, position by position, have the same total. */
  lemma {:induction false} TotalAgrees(a: seq<Loan>, b: seq<Loan>, field: Loan -> real)
    requires |a| == |b|
    requires forall i :: 0 <= i < |a| ==> field(a[i]) == field(b[i])
    ensures Total(a, field) == Total(b, field)
  {
    if a != [] {
      TotalAgrees(a[1..], b[1..], field);
    }
  }

  /** On a consistent history, on-time payments never exceed scheduled installments, and neither is negative. */
  lemma PaidOnTimeWithinTenure(loans: seq<Loan>)
    requires PaidWithinTenure(loans)
    ensures 0.0 <= TotalPaidOnTime(loans) <= TotalTenure(loans)
  {
    TotalMonotone(loans, PaidOnTime, Scheduled);
  }

  /** With no negative counts, neither count total is negative. */
  lemma CountTotalsNonNegative(loans: seq<Loan>)
    requires NonNegativeCounts(loans)
    ensures 0.0 <= TotalPaidOnTime(loans) && 0.0 <= TotalTenure(loans)
  {
    assert forall i :: 0 <= i < |loans| ==> 0.0 <= PaidOnTime(loans[i]) && 0.0 <= Scheduled(loans[i]);
  }

  /** Two histories that differ at most in the loans' end dates. */
  predicate SameButEndDates(a: seq<Loan>, b: seq<Loan>) {
    |a| == |b| && forall i :: 0 <= i < |a| ==> a[i].(endDate := b[i].endDate) == b[i]
  }

  /** Counting by start year looks at nothing but start years. */
  lemma {:induction false} CountStartedInAgrees(a: seq<Loan>, b: seq<Loan>, year: int)
    requires |a| == |b|
    requires forall i :: 0 <= i < |a| ==> a[i].startYear == b[i].startYear
    ensures CountStartedIn(a, year) == CountStartedIn(b, year)
  {
    if a != [] {
      CountStartedInAgrees(a[1..], b[1..], year);
    }
  }

  /**
   * Every aggregate the evaluator takes ignores end dates: open and closed
   * loans are added up alike.
   */
  lemma AggregatesIgnoreEndDates(a: seq<Loan>, b: seq<Loan>, year: int)
    requires SameButEndDates(a, b)
    ensures |a| == |b|
    ensures TotalPrincipal(a) == TotalPrincipal(b)
    ensures TotalRepayment(a) == TotalRepayment(b)
    ensures TotalTenure(a) == TotalTenure(b)
    ensures TotalPaidOnTime(a) == TotalPaidOnTime(b)
    ensures CountStartedIn(a, year) == CountStartedIn(b, year)
  {
    forall i | 0 <= i < |a|
      ensures a[i].loanAmount == b[i].loanAmount && a[i].monthlyRepayment == b[i].monthlyRepayment
      ensures a[i].tenure == b[i].tenure && a[i].emisPaidOnTime == b[i].emisPaidOnTime
      ensures a[i].startYear == b[i].startYear
    {
      assert a[i].(endDate := b[i].endDate) == b[i];
    }
    TotalAgrees(a, b, Principal);
    TotalAgrees(a, b, Repayment);
    TotalAgrees(a, b, Scheduled);
    TotalAgrees(a, b, PaidOnTime);
    CountStartedInAgrees(a, b, year);
  }

  /** Taking the first loan from one history and the same loan from a permutation of it leaves permutations. */
  lemma RemoveMatching(a: seq<Loan>, b: seq<Loan>, j: int)
    requires multiset(a) == multiset(b)
    requires a != [] && 0 <= j < |b| && b[j] == a[0]
    ensures multiset(a[1..]) == multiset(b[..j] + b[j + 1..])
  {
    assert a == [a[0]] + a[1..];
    assert multiset(a) == multiset{a[0]} + multiset(a[1..]);
    assert b == b[..j] + ([b[j]] + b[j + 1..]);
    assert multiset(b) == multiset(b[..j]) + (multiset{b[j]} + multiset(b[j + 1..]));
    assert multiset(b[..j] + b[j + 1..]) == multiset(b[..j]) + multiset(b[j + 1..]);
    assert multiset{a[0]} + multiset(a[1..]) == multiset{a[0]} + multiset(b[..j] + b[j + 1..]);
    forall l: Loan
      ensures multiset(a[1..])[l] == multiset(b[..j] + b[j + 1..])[l]
    {
      assert (multiset{a[0]} + multiset(a[1..]))[l] == (multiset{a[0]} + multiset(b[..j] + b[j + 1..]))[l];
    }
  }

  /** A total is the total without the loan at `j`, plus that loan's field. */
  lemma TotalWithout(b: seq<Loan>, j: int, field: Loan -> real)
    requires 0 <= j < |b|
    ensures Total(b, field) == Total(b[..j] + b[j + 1..], field) + field(b[j])
  {
    assert b == b[..j] + b[j..];
    TotalAppend(b[..j], b[j..], field);
    assert b[j..][1..] == b[j + 1..];
    TotalAppend(b[..j], b[j + 1..], field);
  }

  /** A count by start year is the count without the loan at `j`, plus that loan's own. */
  lemma CountStartedInWithout(b: seq<Loan>, j: int, year: int)
    requires 0 <= j < |b|
    ensures CountStartedIn(b, year)
         == CountStartedIn(b[..j] + b[j + 1..], year) + (if b[j].startYear == year then 1 else 0)
  {
    assert b == b[..j] + b[j..];
    CountStartedInAppend(b[..j], b[j..], year);
    assert b[j..][1..] == b[j + 1..];
    CountStartedInAppend(b[..j], b[j + 1..], year);
  }

  /** A total does not depend on the order of the loans: histories that are permutations of each other have the same total. */
  lemma {:induction false} TotalPermutation(a: seq<Loan>, b: seq<Loan>, field: Loan -> real)
    requires multiset(a) == multiset(b)
    ensures Total(a, field) == Total(b, field)
    decreases |a|
  {
    if a == [] {
      assert |b| == |multiset(b)| == 0;
    } else {
      assert a[0] in multiset(b);
      var j :| 0 <= j < |b| && b[j] == a[0];
      RemoveMatching(a, b, j);
      TotalPermutation(a[1..], b[..j] + b[j + 1..], field);
      TotalWithout(b, j, field);
    }
  }

  /** Counting by start year does not depend on the order of the loans either. */
  lemma {:induction false} CountStartedInPermutation(a: seq<Loan>, b: seq<Loan>, year: int)
    requires multiset(a) == multiset(b)
    ensures CountStartedIn(a, year) == CountStartedIn(b, year)
    decreases |a|
  {
    if a == [] {
      assert |b| == |multiset(b)| == 0;
    } else {
      assert a[0] in multiset(b);
      var j :| 0 <= j < |b| && b[j] == a[0];
      RemoveMatching(a, b, j);
      CountStartedInPermutation(a[1..], b[..j] + b[j + 1..], year);
      CountStartedInWithout(b, j, year);
    }
  }

  /**
   * Every aggregate the evaluator takes is blind to the order of the history:
   * any reordering of the same loans gives the same totals and counts.
   */
  lemma AggregatesIgnoreOrder(a: seq<Loan>, b: seq<Loan>, year: int)
    requires multiset(a) == multiset(b)
    ensures |a| == |b|
    ensures TotalPrincipal(a) == TotalPrincipal(b)
    ensures TotalRepayment(a) == TotalRepayment(b)
    ensures TotalTenure(a) == TotalTenure(b)
    ensures TotalPaidOnTime(a) == TotalPaidOnTime(b)
    ensures CountStartedIn(a, year) == CountStartedIn(b, year)
  {
    assert |a| == |multiset(a)| == |multiset(b)| == |b|;
    TotalPermutation(a, b, Principal);
    TotalPermutation(a, b, Repayment);
    TotalPermutation(a, b, Scheduled);
    TotalPermutation(a, b, PaidOnTime);
    CountStartedInPermutation(a, b, year);
  }
}
