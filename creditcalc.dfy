/**
  The zero-interest loan calculator.

  A `LoanCalc` holds the loan principal, fixed when it is built and never
  changed afterwards, and answers two questions about repaying it in whole
  monetary units with no interest:
  - how many months a fixed monthly payment needs (`MonthsOfRepayment`);
  - which regular monthly payment repays it in a given number of months, and
    what the final instalment then is (`MonthlyPayment`).
  Every quotient is rounded up, as exact integer ceiling division.
 */
module CreditCalc {
  import opened Ceiling

  /** The regular monthly payment and the final instalment that absorbs the
      remainder. */
  datatype Repayment = Repayment(regular: int, last: int)

  /** The calculator. Its only state is the principal, set by the constructor;
      both queries read it and leave it as it is. */
  datatype LoanCalc = LoanCalc(loanPrincipal: int) {

    /** Number of months a fixed `monthlyPayment` needs to repay the principal:
        the least count of payments whose total covers it. */
    function MonthsOfRepayment(monthlyPayment: int): (n: int)
      requires loanPrincipal > 0 && monthlyPayment > 0
      ensures n >= 1
      ensures (n - 1) * monthlyPayment < loanPrincipal <= n * monthlyPayment
    {
      CeilDivPositive(loanPrincipal, monthlyPayment);
      CeilDiv(loanPrincipal, monthlyPayment)
    }

    /** Regular payment for `monthsToRepay` months, rounded up, and the final
        instalment that brings the total back to exactly the principal. */
    function MonthlyPayment(monthsToRepay: int): (rep: Repayment)
      requires loanPrincipal > 0 && monthsToRepay > 0
      ensures rep.regular >= 1
      ensures (rep.regular - 1) * monthsToRepay < loanPrincipal <= rep.regular * monthsToRepay
      ensures (monthsToRepay - 1) * rep.regular + rep.last == loanPrincipal
      ensures rep.regular - monthsToRepay < rep.last <= rep.regular
    {
      CeilDivPositive(loanPrincipal, monthsToRepay);
      var regular := CeilDiv(loanPrincipal, monthsToRepay);
      Repayment(regular, loanPrincipal - (monthsToRepay - 1) * regular)
    }

    /** The payments the pair stands for: `monthsToRepay - 1` regular payments
        followed by the final instalment. */
    function Schedule(monthsToRepay: int): (s: seq<int>)
      requires loanPrincipal > 0 && monthsToRepay > 0
      ensures |s| == monthsToRepay
    {
      var rep := MonthlyPayment(monthsToRepay);
      seq(monthsToRepay - 1, _ => rep.regular) + [rep.last]
    }

    /** The front end adds the final instalment to its message only when it
        differs from the regular payment, which happens exactly when the
        months do not divide the principal. */
    predicate ShowsLastPayment(monthsToRepay: int): (shown: bool)
      requires loanPrincipal > 0 && monthsToRepay > 0
      ensures shown <==> loanPrincipal % monthsToRepay != 0
    {
      CeilDivExact(loanPrincipal, monthsToRepay);
      var rep := MonthlyPayment(monthsToRepay);
      rep.regular != rep.last
    }
  }


  /** Total of a sequence of payments. */
  function Sum(s: seq<int>): int {
    if s == [] then 0 else s[0] + Sum(s[1..])
  }

  /** Reference model of repaying month by month: pay `monthlyPayment` off the
      outstanding `balance` until nothing is owed, counting the months. */
  function MonthsUntilRepaid(balance: int, monthlyPayment: int): (n: nat)
    requires monthlyPayment > 0
    decreases balance
  {
    if balance <= 0 then 0 else 1 + MonthsUntilRepaid(balance - monthlyPayment, monthlyPayment)
  }

  // ---------------------------------------------------------------------------
  // Number of months for a fixed payment

  /** No smaller number of months than the one returned suffices: whenever `k`
      payments cover the principal, `k` is at least the answer. */
  lemma MonthsIsLeast(loan: LoanCalc, monthlyPayment: int, k: int)
    requires loan.loanPrincipal > 0 && monthlyPayment > 0
    requires k * monthlyPayment >= loan.loanPrincipal
    ensures loan.MonthsOfRepayment(monthlyPayment) <= k
  {
    CeilDivLeast(loan.loanPrincipal, monthlyPayment, k);
  }

  /** One month suffices exactly when the payment covers the whole principal. */
  lemma SingleMonthIff(loan: LoanCalc, monthlyPayment: int)
    requires loan.loanPrincipal > 0 && monthlyPayment > 0
    ensures loan.MonthsOfRepayment(monthlyPayment) == 1 <==> monthlyPayment >= loan.loanPrincipal
  {
    if monthlyPayment >= loan.loanPrincipal {
      MonthsIsLeast(loan, monthlyPayment, 1);
    }
  }

  /** The number of months is the ceiling of the real quotient of principal
      by payment. */
  lemma MonthsIsRealCeiling(loan: LoanCalc, monthlyPayment: int)
    requires loan.loanPrincipal > 0 && monthlyPayment > 0
    ensures IsCeiling(loan.MonthsOfRepayment(monthlyPayment),
                      loan.loanPrincipal as real / monthlyPayment as real)
  {
    CeilDivIsRealCeiling(loan.loanPrincipal, monthlyPayment);
  }

  /** Paying off the balance month by month takes as many months as any
      non-negative balance's ceiling quotient says. */
  lemma {:induction false} CountdownIsCeilDiv(balance: int, monthlyPayment: int)
    requires balance >= 0 && monthlyPayment > 0
    ensures MonthsUntilRepaid(balance, monthlyPayment) == CeilDiv(balance, monthlyPayment)
  {
    var n := MonthsUntilRepaid(balance, monthlyPayment);
    if balance == 0 {
      CeilDivUnique(balance, monthlyPayment, 0);
    } else if balance <= monthlyPayment {
      assert MonthsUntilRepaid(balance - monthlyPayment, monthlyPayment) == 0;
      assert n == 1;
      CeilDivUnique(balance, monthlyPayment, 1);
    } else {
      var rest := balance - monthlyPayment;
      CountdownIsCeilDiv(rest, monthlyPayment);
      var c := CeilDiv(rest, monthlyPayment);
      assert n == c + 1;
      assert (n - 1) * monthlyPayment == (c - 1) * monthlyPayment + monthlyPayment;
      assert n * monthlyPayment == c * monthlyPayment + monthlyPayment;
      CeilDivUnique(balance, monthlyPayment, n);
    }
  }

  /** The closed form agrees with repaying month by month. */
  lemma MonthsMatchesCountdown(loan: LoanCalc, monthlyPayment: int)
    requires loan.loanPrincipal > 0 && monthlyPayment > 0
    ensures loan.MonthsOfRepayment(monthlyPayment) == MonthsUntilRepaid(loan.loanPrincipal, monthlyPayment)
  {
    CountdownIsCeilDiv(loan.loanPrincipal, monthlyPayment);
  }

  // ---------------------------------------------------------------------------
  // Payment for a fixed number of months

  /** The regular payment is the least payment that `monthsToRepay` months
      of it cover the principal. */
  lemma RegularIsLeast(loan: LoanCalc, monthsToRepay: int, r: int)
    requires loan.loanPrincipal > 0 && monthsToRepay > 0
    requires r * monthsToRepay >= loan.loanPrincipal
    ensures loan.MonthlyPayment(monthsToRepay).regular <= r
  {
    CeilDivLeast(loan.loanPrincipal, monthsToRepay, r);
  }

  /** The regular payment is the ceiling of the real quotient of principal
      by months. */
  lemma RegularIsRealCeiling(loan: LoanCalc, monthsToRepay: int)
    requires loan.loanPrincipal > 0 && monthsToRepay > 0
    ensures IsCeiling(loan.MonthlyPayment(monthsToRepay).regular,
                      loan.loanPrincipal as real / monthsToRepay as real)
  {
    CeilDivIsRealCeiling(loan.loanPrincipal, monthsToRepay);
  }

  /** `k` copies of the same payment total `k` times it. */
  lemma {:induction false} SumConstant(k: nat, r: int)
    ensures Sum(seq(k, _ => r)) == k * r
  {
    if k > 0 {
      var s := seq(k, _ => r);
      assert s[1..] == seq(k - 1, _ => r);
      SumConstant(k - 1, r);
    }
  }

  /** The total of a sequence with one more payment at its end. */
  lemma {:induction false} SumAppend(s: seq<int>, x: int)
    ensures Sum(s + [x]) == Sum(s) + x
  {
    if s != [] {
      assert (s + [x])[1..] == s[1..] + [x];
      SumAppend(s[1..], x);
    }
  }

  /** The schedule repays exactly the principal: nothing is owed afterwards
      and nothing is overpaid. */
  lemma ScheduleRepaysPrincipal(loan: LoanCalc, monthsToRepay: int)
    requires loan.loanPrincipal > 0 && monthsToRepay > 0
    ensures Sum(loan.Schedule(monthsToRepay)) == loan.loanPrincipal
  {
    var rep := loan.MonthlyPayment(monthsToRepay);
    SumAppend(seq(monthsToRepay - 1, _ => rep.regular), rep.last);
    SumConstant(monthsToRepay - 1, rep.regular);
  }

  /** Every payment of the schedule but the last is the regular one, and no
      payment exceeds it. */
  lemma ScheduleShape(loan: LoanCalc, monthsToRepay: int)
    requires loan.loanPrincipal > 0 && monthsToRepay > 0
    ensures var s := loan.Schedule(monthsToRepay);
            var rep := loan.MonthlyPayment(monthsToRepay);
            && (forall i :: 0 <= i < |s| - 1 ==> s[i] == rep.regular)
            && s[|s| - 1] == rep.last
            && (forall i :: 0 <= i < |s| ==> s[i] <= rep.regular)
  {
  }

  /** The two instalments coincide exactly when the months divide the
      principal, and then both are the exact quotient. */
  lemma EvenSplitIff(loan: LoanCalc, monthsToRepay: int)
    requires loan.loanPrincipal > 0 && monthsToRepay > 0
    ensures var rep := loan.MonthlyPayment(monthsToRepay);
            && (rep.regular == rep.last <==> loan.loanPrincipal % monthsToRepay == 0)
            && (loan.loanPrincipal % monthsToRepay == 0 ==>
                  rep.regular == rep.last == loan.loanPrincipal / monthsToRepay)
  {
    CeilDivExact(loan.loanPrincipal, monthsToRepay);
  }

  /** Repaying in a single month is one payment of the whole principal, and
      the final instalment is then not shown. */
  lemma SingleMonthPayment(loan: LoanCalc)
    requires loan.loanPrincipal > 0
    ensures loan.MonthlyPayment(1) == Repayment(loan.loanPrincipal, loan.loanPrincipal)
    ensures !loan.ShowsLastPayment(1)
  {
    CeilDivUnique(loan.loanPrincipal, 1, loan.loanPrincipal);
  }

  /** The final instalment is not always positive: a principal of 5 over 4
      months gives a regular payment of 2 and a final instalment of -1. */
  lemma LastPaymentMayBeNegative()
    ensures LoanCalc(5).MonthlyPayment(4) == Repayment(2, -1)
    ensures LoanCalc(5).ShowsLastPayment(4)
  {
    CeilDivUnique(5, 4, 2);
  }

  /** An uneven split: a principal of 100 over 3 months is two payments of 34
      and a final instalment of 32, which is shown. */
  lemma UnevenSplitExample()
    ensures LoanCalc(100).MonthlyPayment(3) == Repayment(34, 32)
    ensures LoanCalc(100).ShowsLastPayment(3)
  {
    CeilDivUnique(100, 3, 34);
  }

  // ---------------------------------------------------------------------------
  // The two queries together

  /** Paying the quoted regular payment each month repays the loan within the
      requested number of months, and takes all of them exactly when the
      final instalment is positive. */
  lemma RegularRepaysWithinMonths(loan: LoanCalc, monthsToRepay: int)
    requires loan.loanPrincipal > 0 && monthsToRepay > 0
    ensures var rep := loan.MonthlyPayment(monthsToRepay);
            && loan.MonthsOfRepayment(rep.regular) <= monthsToRepay
            && (loan.MonthsOfRepayment(rep.regular) == monthsToRepay <==> rep.last > 0)
  {
    var rep := loan.MonthlyPayment(monthsToRepay);
    var n := loan.MonthsOfRepayment(rep.regular);
    assert monthsToRepay * rep.regular >= loan.loanPrincipal;
    MonthsIsLeast(loan, rep.regular, monthsToRepay);
    if rep.last > 0 {
      assert (monthsToRepay - 1) * rep.regular < loan.loanPrincipal;
      if n < monthsToRepay {
        MulMonotone(n, monthsToRepay - 1, rep.regular);
      }
    } else {
      assert (monthsToRepay - 1) * rep.regular >= loan.loanPrincipal;
      MonthsIsLeast(loan, rep.regular, monthsToRepay - 1);
    }
  }
}
