/** The compound-interest projection of the calculator page: a month-by-month
    simulation over `years * 12` months in which the monthly contribution is
    paid in every month when it is positive and the annual rate is applied once
    at the end of each twelfth month, with a rounded snapshot recorded at every year end.

    Amounts are exact reals. `Math.round` is `Round` below (nearest integer,
    halves rounded up); `Math.max` is `Max`. */
module Calculator {

  /** One row of the yearly breakdown. `year` is the offset from the start
      (0 for the opening row); the calendar year is added afterwards. */
  datatype YearPoint = YearPoint(
    year: int,
    principal: real,
    balance: real,
    interestAmount: real,
    profitRatio: real)

  /** What the calculation returns: the breakdown and the three totals. */
  datatype Projection = Projection(
    breakdown: seq<YearPoint>,
    totalBalance: int,
    totalPrincipal: int,
    totalInterest: int)

  // ----- Arithmetic helpers -----

  /** `Math.round`: the nearest integer, a half rounded towards +infinity. */
  function Round(x: real): (n: int)
    ensures n as real - 0.5 <= x < n as real + 0.5
  {
    (x + 0.5).Floor
  }

  function Max(a: int, b: int): (m: int)
    ensures m >= a && m >= b && (m == a || m == b)
  {
    if a >= b then a else b
  }

  lemma RoundWhole(n: int)
    ensures Round(n as real) == n
  {
  }

  lemma RoundMonotone(x: real, y: real)
    requires x <= y
    ensures Round(x) <= Round(y)
  {
  }

  // ----- The years field -----

  /** `Math.max(1, years)`: the years field never goes below one. */
  function ClampYears(input: int): (years: int)
    ensures years >= 1
    ensures input >= 1 ==> years == input
    ensures input < 1 ==> years == 1
  {
    Max(1, input)
  }

  // ----- Specification of the simulation -----

  /** The amount added each month: the contribution if it is positive, else nothing. */
  function Contribution(m: real): (c: real)
    ensures c >= 0.0
  {
    if m > 0.0 then m else 0.0
  }

  /** `balance += balance * r`: the whole annual rate applied once. */
  function ApplyAnnualRate(balance: real, r: real): real
  {
    balance + balance * r
  }

  /** The running balance after `n` simulated months, at full precision. */
  function BalanceAfter(p: real, ratePercent: real, m: real, n: nat): real
  {
    if n == 0 then p
    else
      var b := BalanceAfter(p, ratePercent, m, n - 1) + Contribution(m);
      if n % 12 == 0 then ApplyAnnualRate(b, ratePercent / 100.0) else b
  }

  /** The running principal after `n` simulated months, at full precision. */
  function PrincipalAfter(p: real, m: real, n: nat): (total: real)
    ensures total >= p
  {
    if n == 0 then p else PrincipalAfter(p, m, n - 1) + Contribution(m)
  }

  /** Interest over principal, or 0 when there is no positive principal. */
  function ProfitRatio(interest: int, principal: int): (ratio: real)
    ensures interest >= 0 ==> ratio >= 0.0
    ensures principal > 0 ==> ratio * principal as real == interest as real
    ensures principal <= 0 ==> ratio == 0.0
  {
    if principal > 0 then interest as real / principal as real else 0.0
  }

  /** The opening row: the deposit itself, not rounded. */
  function StartPoint(p: real): YearPoint
  {
    YearPoint(0, p, p, 0.0, 0.0)
  }

  /** The row recorded at the end of a year from the running totals. */
  function Snapshot(year: int, balance: real, principal: real): (pt: YearPoint)
    ensures pt.year == year
    ensures pt.balance == pt.balance.Floor as real && pt.principal == pt.principal.Floor as real
    ensures pt.balance - 0.5 <= balance < pt.balance + 0.5
    ensures pt.principal - 0.5 <= principal < pt.principal + 0.5
    ensures pt.interestAmount >= 0.0 && pt.interestAmount >= pt.balance - pt.principal
    ensures pt.balance >= pt.principal ==> pt.interestAmount == pt.balance - pt.principal
    ensures pt.balance < pt.principal ==> pt.interestAmount == 0.0
  {
    var roundedBalance := Round(balance);
    var roundedPrincipal := Round(principal);
    var interest := Max(0, roundedBalance - roundedPrincipal);
    YearPoint(year, roundedPrincipal as real, roundedBalance as real, interest as real,
              ProfitRatio(interest, roundedPrincipal))
  }

  /** The row recorded at the end of year `k`, after month `12 * k`. */
  function YearEnd(p: real, ratePercent: real, m: real, k: nat): YearPoint
  {
    Snapshot(k, BalanceAfter(p, ratePercent, m, 12 * k), PrincipalAfter(p, m, 12 * k))
  }

  /** The breakdown of a projection over `years` years. */
  function Breakdown(p: real, ratePercent: real, m: real, years: nat): (bd: seq<YearPoint>)
    ensures |bd| == years + 1
  {
    if years == 0 then [StartPoint(p)]
    else Breakdown(p, ratePercent, m, years - 1) + [YearEnd(p, ratePercent, m, years)]
  }

  // ----- The calculation itself -----

  /** The calculation of the calculator page (with year offsets; see
      `WithCalendarYears` for the shift to calendar years). */
  method Project(p: real, ratePercent: real, years: int, m: real) returns (res: Projection)
    ensures res.breakdown == Breakdown(p, ratePercent, m, if years > 0 then years else 0)
    ensures var last := res.breakdown[|res.breakdown| - 1];
      && res.totalBalance == Round(last.balance)
      && res.totalPrincipal == Round(last.principal)
      && res.totalInterest == Round(last.interestAmount)
  {
    var r := ratePercent / 100.0;
    var currentBalance := p;
    var totalPrincipal := p;
    var breakdown := [YearPoint(0, p, p, 0.0, 0.0)];
    var totalMonths := years * 12;
    var month := 1;
    ghost var completed: nat := 0;
    while month <= totalMonths
      invariant 1 <= month
      invariant month <= (if totalMonths >= 0 then totalMonths else 0) + 1
      invariant 12 * completed < month <= 12 * completed + 12
      invariant currentBalance == BalanceAfter(p, ratePercent, m, month - 1)
      invariant totalPrincipal == PrincipalAfter(p, m, month - 1)
      invariant breakdown == Breakdown(p, ratePercent, m, completed)
    {
      MonthOfYear(month, completed);
      if m > 0.0 {
        currentBalance := currentBalance + m;
        totalPrincipal := totalPrincipal + m;
      }
      assert totalPrincipal == PrincipalAfter(p, m, month);
      if month % 12 == 0 {
        currentBalance := ApplyAnnualRate(currentBalance, r);
      }
      assert currentBalance == BalanceAfter(p, ratePercent, m, month);
      if month % 12 == 0 {
        var yearNum := month / 12;
        var roundedBalance := Round(currentBalance);
        var roundedPrincipal := Round(totalPrincipal);
        var interestAmount := Max(0, roundedBalance - roundedPrincipal);
        var profitRatio := ProfitRatio(interestAmount, roundedPrincipal);
        assert yearNum == completed + 1 && 12 * yearNum == month;
        var point := YearPoint(yearNum, roundedPrincipal as real, roundedBalance as real, interestAmount as real, profitRatio);
        RecordYear(p, ratePercent, m, completed, currentBalance, totalPrincipal);
        breakdown := breakdown + [point];
        completed := completed + 1;
      }
      month := month + 1;
    }
    assert completed == if years > 0 then years else 0;
    var lastDataPoint := breakdown[|breakdown| - 1];
    res := Projection(breakdown, Round(lastDataPoint.balance), Round(lastDataPoint.principal), Round(lastDataPoint.interestAmount));
  }

  /** Month `month` of year `completed + 1` closes that year exactly when it
      is a multiple of 12. */
  lemma MonthOfYear(month: int, completed: nat)
    requires 12 * completed < month <= 12 * completed + 12
    ensures month % 12 == 0 <==> month == 12 * completed + 12
    ensures month % 12 == 0 ==> month / 12 == completed + 1
  {
  }

  /** The entry the loop appends at the end of year `completed + 1` extends the
      breakdown by one year. */
  lemma RecordYear(p: real, ratePercent: real, m: real, completed: nat, balance: real, principal: real)
    requires balance == BalanceAfter(p, ratePercent, m, 12 * (completed + 1))
    requires principal == PrincipalAfter(p, m, 12 * (completed + 1))
    ensures var roundedBalance := Round(balance);
      var roundedPrincipal := Round(principal);
      var interest := Max(0, roundedBalance - roundedPrincipal);
      Breakdown(p, ratePercent, m, completed + 1)
        == Breakdown(p, ratePercent, m, completed)
           + [YearPoint(completed + 1, roundedPrincipal as real, roundedBalance as real, interest as real,
                        ProfitRatio(interest, roundedPrincipal))]
  {
  }

  /** `breakdown.map(item => ({ ...item, year: currentYear + item.year }))`. */
  function WithCalendarYears(bd: seq<YearPoint>, currentYear: int): (shifted: seq<YearPoint>)
    ensures |shifted| == |bd|
  {
    seq(|bd|, i requires 0 <= i < |bd| => bd[i].(year := currentYear + bd[i].year))
  }

  // ----- Properties of the breakdown -----

  /** Row 0 is the opening row and row `k >= 1` is the snapshot after month `12 * k`;
      row `k` carries the year offset `k`. */
  lemma {:induction false} BreakdownAt(p: real, ratePercent: real, m: real, years: nat, k: nat)
    requires k <= years
    ensures var bd := Breakdown(p, ratePercent, m, years);
      && bd[k] == (if k == 0 then StartPoint(p) else YearEnd(p, ratePercent, m, k))
      && bd[k].year == k
  {
    if k < years {
      BreakdownAt(p, ratePercent, m, years - 1, k);
      var prefix := Breakdown(p, ratePercent, m, years - 1);
      assert Breakdown(p, ratePercent, m, years)[k] == prefix[k];
    }
  }

  /** The opening row holds the deposit itself: balance and principal equal to the
      (unrounded) deposit, no interest, ratio 0. */
  lemma OpeningRow(p: real, ratePercent: real, m: real, years: nat)
    ensures Breakdown(p, ratePercent, m, years)[0] == YearPoint(0, p, p, 0.0, 0.0)
  {
    BreakdownAt(p, ratePercent, m, years, 0);
  }

  /** Closed form of the running principal: the deposit plus one contribution per month. */
  lemma {:induction false} PrincipalClosedForm(p: real, m: real, n: nat)
    ensures PrincipalAfter(p, m, n) == p + n as real * Contribution(m)
  {
    if n > 0 {
      PrincipalClosedForm(p, m, n - 1);
    }
  }

  /** The running principal after `n` months, by the sign of the contribution. */
  lemma PrincipalBySign(p: real, m: real, n: nat)
    ensures m > 0.0 ==> PrincipalAfter(p, m, n) == p + n as real * m
    ensures m <= 0.0 ==> PrincipalAfter(p, m, n) == p
  {
    PrincipalClosedForm(p, m, n);
  }

  /** The recorded principal of year `k` is `round(P + 12 k M)` when the contribution
      is positive and `round(P)` otherwise. */
  lemma RecordedPrincipal(p: real, ratePercent: real, m: real, years: nat, k: nat)
    requires 1 <= k <= years
    ensures var pt := Breakdown(p, ratePercent, m, years)[k];
      && (m > 0.0 ==> pt.principal == Round(p + (12 * k) as real * m) as real)
      && (m <= 0.0 ==> pt.principal == Round(p) as real)
  {
    var x := PrincipalAfter(p, m, 12 * k);
    assert Breakdown(p, ratePercent, m, years)[k].principal == Round(x) as real by {
      BreakdownAt(p, ratePercent, m, years, k);
    }
    if m > 0.0 {
      assert x == p + (12 * k) as real * m by { PrincipalBySign(p, m, 12 * k); }
    } else {
      assert x == p by { PrincipalBySign(p, m, 12 * k); }
    }
  }

  /** The recorded principal never decreases from one year to a later one. Between
      the opening row and the first snapshot this needs a whole-number deposit, because
      the opening row is not rounded (the amount fields only ever produce whole numbers). */
  lemma PrincipalNonDecreasing(p: real, ratePercent: real, m: real, years: nat, i: nat, j: nat)
    requires i <= j <= years
    ensures var bd := Breakdown(p, ratePercent, m, years);
      (i >= 1 || p == p.Floor as real) ==> bd[i].principal <= bd[j].principal
  {
    BreakdownAt(p, ratePercent, m, years, i);
    BreakdownAt(p, ratePercent, m, years, j);
    if 1 <= i {
      PrincipalGrows(p, m, 12 * i, 12 * j);
      RoundMonotone(PrincipalAfter(p, m, 12 * i), PrincipalAfter(p, m, 12 * j));
    } else if 1 <= j && p == p.Floor as real {
      PrincipalGrows(p, m, 0, 12 * j);
      RoundWhole(p.Floor);
      RoundMonotone(p, PrincipalAfter(p, m, 12 * j));
    }
  }

  /** The running principal only grows: contributions are never negative. */
  lemma {:induction false} PrincipalGrows(p: real, m: real, a: nat, b: nat)
    requires a <= b
    ensures PrincipalAfter(p, m, a) <= PrincipalAfter(p, m, b)
    decreases b
  {
    if a < b {
      PrincipalGrows(p, m, a, b - 1);
    }
  }

  /** With a fractional deposit the first snapshot can fall below the opening row,
      since only the snapshot is rounded. */
  lemma FractionalDepositDips()
    ensures var bd := Breakdown(0.4, 0.0, 0.0, 1);
      bd[1].principal < bd[0].principal
  {
    var bd := Breakdown(0.4, 0.0, 0.0, 1);
    BreakdownAt(0.4, 0.0, 0.0, 1, 1);
    PrincipalClosedForm(0.4, 0.0, 12);
    assert Round(0.4) == 0;
  }

  /** Every row obeys the derived-metric rules: the interest is the excess of the
      balance over the principal, never negative, and the ratio is interest over
      principal when the principal is positive, else 0. */
  lemma RowMetrics(p: real, ratePercent: real, m: real, years: nat, k: nat)
    requires k <= years
    ensures var pt := Breakdown(p, ratePercent, m, years)[k];
      && pt.interestAmount >= 0.0
      && pt.interestAmount == (if pt.balance > pt.principal then pt.balance - pt.principal else 0.0)
      && pt.profitRatio == (if pt.principal > 0.0 then pt.interestAmount / pt.principal else 0.0)
  {
    BreakdownAt(p, ratePercent, m, years, k);
  }

  lemma {:induction false} ZeroRateBalanceIsPrincipal(p: real, m: real, n: nat)
    ensures BalanceAfter(p, 0.0, m, n) == PrincipalAfter(p, m, n)
  {
    if n > 0 {
      ZeroRateBalanceIsPrincipal(p, m, n - 1);
    }
  }

  /** At a zero rate nothing is earned: every row's balance is its principal. */
  lemma ZeroRateEarnsNothing(p: real, m: real, years: nat, k: nat)
    requires k <= years
    ensures var pt := Breakdown(p, 0.0, m, years)[k];
      pt.balance == pt.principal && pt.interestAmount == 0.0 && pt.profitRatio == 0.0
  {
    BreakdownAt(p, 0.0, m, years, k);
    if k > 0 {
      ZeroRateBalanceIsPrincipal(p, m, 12 * k);
    }
  }

  /** Reference definition of the year-end balance: a year's twelve contributions
      are added, then the annual rate is applied once. */
  function AnnualBalance(p: real, ratePercent: real, m: real, k: nat): real
  {
    if k == 0 then p
    else (AnnualBalance(p, ratePercent, m, k - 1) + 12.0 * Contribution(m)) * (1.0 + ratePercent / 100.0)
  }

  /** Inside a year no interest is applied: only contributions are added. */
  lemma {:induction false} WithinYear(p: real, ratePercent: real, m: real, q: nat, j: nat)
    requires j < 12
    ensures BalanceAfter(p, ratePercent, m, 12 * q + j)
         == BalanceAfter(p, ratePercent, m, 12 * q) + j as real * Contribution(m)
  {
    if j > 0 {
      WithinYear(p, ratePercent, m, q, j - 1);
      var c := Contribution(m);
      var base := BalanceAfter(p, ratePercent, m, 12 * q);
      assert (12 * q + j) % 12 != 0;
      assert 12 * q + j - 1 == 12 * q + (j - 1);
      assert BalanceAfter(p, ratePercent, m, 12 * q + j)
          == BalanceAfter(p, ratePercent, m, 12 * q + (j - 1)) + c;
      MultiplySucc(j - 1, c);
    }
  }

  lemma MultiplySucc(j: nat, c: real)
    ensures (j + 1) as real * c == j as real * c + c
  {
  }

  /** The month-by-month simulation agrees with the per-year recurrence
      `B_k = (B_{k-1} + 12 max(M, 0)) (1 + rate / 100)`, `B_0 = P`. */
  lemma {:induction false} YearRecurrence(p: real, ratePercent: real, m: real, k: nat)
    ensures BalanceAfter(p, ratePercent, m, 12 * k) == AnnualBalance(p, ratePercent, m, k)
  {
    if k > 0 {
      YearRecurrence(p, ratePercent, m, k - 1);
      WithinYear(p, ratePercent, m, k - 1, 11);
      assert 12 * k == 12 * (k - 1) + 11 + 1;
      assert (12 * k) % 12 == 0;
      var b := BalanceAfter(p, ratePercent, m, 12 * (k - 1)) + 11.0 * Contribution(m) + Contribution(m);
      assert BalanceAfter(p, ratePercent, m, 12 * k) == ApplyAnnualRate(b, ratePercent / 100.0);
      assert b == AnnualBalance(p, ratePercent, m, k - 1) + 12.0 * Contribution(m);
    }
  }

  /** The recorded balance of year `k` is the rounded reference balance; rounding
      what is recorded never feeds back into later years. */
  lemma RecordedBalance(p: real, ratePercent: real, m: real, years: nat, k: nat)
    requires 1 <= k <= years
    ensures Breakdown(p, ratePercent, m, years)[k].balance == Round(AnnualBalance(p, ratePercent, m, k)) as real
  {
    BreakdownAt(p, ratePercent, m, years, k);
    YearRecurrence(p, ratePercent, m, k);
  }

  lemma {:induction false} NoLossAtFullPrecision(p: real, ratePercent: real, m: real, n: nat)
    requires p >= 0.0 && ratePercent >= 0.0
    ensures BalanceAfter(p, ratePercent, m, n) >= PrincipalAfter(p, m, n) >= 0.0
  {
    if n > 0 {
      NoLossAtFullPrecision(p, ratePercent, m, n - 1);
      var b := BalanceAfter(p, ratePercent, m, n - 1) + Contribution(m);
      assert b >= 0.0;
      assert b * (ratePercent / 100.0) >= 0.0;
    }
  }

  /** With a non-negative deposit and rate the balance never falls below the
      principal, so the interest is exactly the difference. (With a negative rate it
      can, and the interest is then clamped to 0.) */
  lemma NoLossAtNonNegativeRate(p: real, ratePercent: real, m: real, years: nat, k: nat)
    requires p >= 0.0 && ratePercent >= 0.0
    requires k <= years
    ensures var pt := Breakdown(p, ratePercent, m, years)[k];
      pt.balance >= pt.principal && pt.interestAmount == pt.balance - pt.principal
  {
    BreakdownAt(p, ratePercent, m, years, k);
    if k > 0 {
      NoLossAtFullPrecision(p, ratePercent, m, 12 * k);
      RoundMonotone(PrincipalAfter(p, m, 12 * k), BalanceAfter(p, ratePercent, m, 12 * k));
    }
  }

  /** For a horizon of at least one year the totals are the last row's own figures:
      rounding them again changes nothing. */
  lemma TotalsAreLastRow(p: real, ratePercent: real, m: real, years: nat)
    requires years >= 1
    ensures var last := Breakdown(p, ratePercent, m, years)[years];
      && Round(last.balance) as real == last.balance
      && Round(last.principal) as real == last.principal
      && Round(last.interestAmount) as real == last.interestAmount
  {
    BreakdownAt(p, ratePercent, m, years, years);
    var last := YearEnd(p, ratePercent, m, years);
    RoundWhole(last.balance.Floor);
    RoundWhole(last.principal.Floor);
    RoundWhole(last.interestAmount.Floor);
  }

  /** One year at 10% on 1000 with no contributions (all figures exact). */
  lemma SingleYearExample()
    ensures Breakdown(1000.0, 10.0, 0.0, 1)[1] == YearPoint(1, 1000.0, 1100.0, 100.0, 0.1)
  {
    BreakdownAt(1000.0, 10.0, 0.0, 1, 1);
    YearRecurrence(1000.0, 10.0, 0.0, 1);
    PrincipalClosedForm(1000.0, 0.0, 12);
    assert AnnualBalance(1000.0, 10.0, 0.0, 1) == 1100.0;
    assert Round(1100.0) == 1100;
    assert Round(1000.0) == 1000;
  }

  /** A negative rate loses money: 1000 at -10% for one year ends at 900 against a
      principal of 1000, and the recorded interest is clamped to 0. */
  lemma NegativeRateLoses()
    ensures Breakdown(1000.0, -10.0, 0.0, 1)[1] == YearPoint(1, 1000.0, 900.0, 0.0, 0.0)
  {
    BreakdownAt(1000.0, -10.0, 0.0, 1, 1);
    YearRecurrence(1000.0, -10.0, 0.0, 1);
    PrincipalClosedForm(1000.0, 0.0, 12);
    assert AnnualBalance(1000.0, -10.0, 0.0, 1) == 900.0;
    assert Round(900.0) == 900;
    assert Round(1000.0) == 1000;
  }

  /** The calculator's opening inputs (5000 deposit, 7%, 200 a month, over any
      horizon, 10 years on first load): the first year. */
  lemma OpeningInputsFirstYear(years: nat)
    requires years >= 1
    ensures Breakdown(5000.0, 7.0, 200.0, years)[1] == YearPoint(1, 7400.0, 7918.0, 518.0, 518.0 / 7400.0)
  {
    BreakdownAt(5000.0, 7.0, 200.0, years, 1);
    YearRecurrence(5000.0, 7.0, 200.0, 1);
    PrincipalClosedForm(5000.0, 200.0, 12);
    assert AnnualBalance(5000.0, 7.0, 200.0, 0) == 5000.0;
    assert AnnualBalance(5000.0, 7.0, 200.0, 1) == 7400.0 * 1.07 == 7918.0;
    assert PrincipalAfter(5000.0, 200.0, 12) == 7400.0;
    assert Round(7918.0) == 7918;
    assert Round(7400.0) == 7400;
    assert YearEnd(5000.0, 7.0, 200.0, 1) == Snapshot(1, 7918.0, 7400.0);
  }

  /** After the shift to calendar years, row `i` is labelled `currentYear + i`, so only
      the opening row carries the current year (the table's "Start" and "N/A" cells). */
  lemma CalendarYears(p: real, ratePercent: real, m: real, years: nat, currentYear: int, i: nat)
    requires i <= years
    ensures var shifted := WithCalendarYears(Breakdown(p, ratePercent, m, years), currentYear);
      && shifted[i] == Breakdown(p, ratePercent, m, years)[i].(year := currentYear + i)
      && shifted[i].year == currentYear + i
      && (shifted[i].year == currentYear <==> i == 0)
  {
    BreakdownAt(p, ratePercent, m, years, i);
  }
}
