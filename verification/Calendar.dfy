/** Datetimes as the program uses them for billing periods: calendar fields, compared lexicographically. */
module Calendar {
  import opened Common

  const DAY: int := 86400 * SECOND

  predicate IsLeap(year: nat) { year % 4 == 0 && (year % 100 != 0 || year % 400 == 0) }

  function DaysInMonth(year: nat, month: nat): (d: nat)
    ensures 28 <= d <= 31
  {
    if month == 2 then (if IsLeap(year) then 29 else 28)
    else if month in {4, 6, 9, 11} then 30
    else 31
  }

  /** A UTC datetime: year, month, day and microseconds into the day. */
  datatype DateTime = DateTime(year: nat, month: nat, day: nat, micros: nat)
  {
    predicate Valid() {
      1 <= year && 1 <= month <= 12 && 1 <= day <= DaysInMonth(year, month) && micros < DAY
    }

    /** Months are numbered consecutively across years. */
    function MonthIndex(): int { 12 * year + month }

    predicate Before(other: DateTime) {
      || MonthIndex() < other.MonthIndex()
      || (MonthIndex() == other.MonthIndex() && (day < other.day || (day == other.day && micros < other.micros)))
    }

    predicate AtMost(other: DateTime) { !other.Before(this) }

    /** The first of a month at midnight. */
    predicate IsNatural() { day == 1 && micros == 0 }
  }

  function NextMonth(year: nat, month: nat): (nat, nat) {
    if month == 12 then (year + 1, 1) else (year, month + 1)
  }

  /** `dt + relativedelta(months=1)`: the same day next month, cut to that month's length. */
  function AddMonth(dt: DateTime): DateTime {
    var (year, month) := NextMonth(dt.year, dt.month);
    DateTime(year, month, Min(dt.day, DaysInMonth(year, month)), dt.micros)
  }

  /** One month later lies in the next month, and is a month start exactly when `dt` was one. */
  lemma AddMonthAdvances(dt: DateTime)
    requires dt.Valid()
    ensures AddMonth(dt).Valid() && dt.Before(AddMonth(dt))
    ensures AddMonth(dt).MonthIndex() == dt.MonthIndex() + 1
    ensures AddMonth(dt).IsNatural() <==> dt.IsNatural()
    ensures AddMonth(dt).micros == dt.micros
    ensures var next := AddMonth(dt);
      next.day == dt.day || (next.day < dt.day && next.day == DaysInMonth(next.year, next.month))
  {
  }

  /** The billing period containing `now`: the first of its month to the first of the next. */
  function ComputePeriodBounds(now: DateTime): (DateTime, DateTime) {
    var start := now.(day := 1, micros := 0);
    (start, if now.month == 12 then start.(year := now.year + 1, month := 1) else start.(month := now.month + 1))
  }

  /** The bounds are consecutive month starts around `now`, and the only such pair. */
  lemma PeriodBoundsAreTheMonth(now: DateTime)
    requires now.Valid()
    ensures var (start, end) := ComputePeriodBounds(now);
      && start.Valid() && end.Valid() && start.IsNatural() && end.IsNatural()
      && start.AtMost(now) && now.Before(end) && end == AddMonth(start)
    ensures forall s: DateTime :: s.Valid() && s.IsNatural() && s.AtMost(now) && now.Before(AddMonth(s)) ==>
      (s, AddMonth(s)) == ComputePeriodBounds(now)
  {
    forall s: DateTime | s.Valid() && s.IsNatural() && s.AtMost(now) && now.Before(AddMonth(s))
      ensures (s, AddMonth(s)) == ComputePeriodBounds(now)
    {
      AddMonthAdvances(s);
      NaturalInSameMonth(s, ComputePeriodBounds(now).0);
    }
  }

  /** A month start is determined by its month. */
  lemma NaturalInSameMonth(a: DateTime, b: DateTime)
    requires a.Valid() && b.Valid() && a.IsNatural() && b.IsNatural() && a.MonthIndex() == b.MonthIndex()
    ensures a == b
  {
  }

  // ---------------------------------------------------------------- as microseconds

  function MonthStart(m: nat): nat {
    if m == 0 then 0 else MonthStart(m - 1) + DaysInMonth((m - 1) / 12, 1 + (m - 1) % 12) * DAY
  }

  /** Microseconds since a fixed origin. */
  function ToTime(dt: DateTime): Time
    requires 1 <= dt.month
  {
    MonthStart(12 * dt.year + dt.month - 1) + (dt.day - 1) * DAY + dt.micros
  }

  lemma {:induction false} LaterMonthStartsLater(m: nat, n: nat)
    requires m <= n
    ensures MonthStart(m) <= MonthStart(n)
    decreases n - m
  {
    if m == n {
    } else {
      LaterMonthStartsLater(m, n - 1);
      var length := DaysInMonth((n - 1) / 12, 1 + (n - 1) % 12);
      assert 0 <= length * DAY;
    }
  }

  lemma YearAndMonth(year: nat, month: nat)
    requires month < 12
    ensures (12 * year + month) / 12 == year && (12 * year + month) % 12 == month
  {
  }

  lemma {:induction false} MonthLength(year: nat, month: nat)
    requires 1 <= month <= 12
    ensures MonthStart(12 * year + month) == MonthStart(12 * year + month - 1) + DaysInMonth(year, month) * DAY
  {
    YearAndMonth(year, month - 1);
  }

  /** Days and microseconds of a valid datetime do not run over the month's length. */
  lemma DayFits(day: nat, micros: nat, days: nat)
    requires 1 <= day <= days && micros < DAY
    ensures 0 <= (day - 1) * DAY + micros < days * DAY
  {
    assert (day - 1) * DAY + DAY == day * DAY <= days * DAY;
  }

  /** A valid datetime lies within its month. */
  lemma WithinItsMonth(dt: DateTime)
    requires dt.Valid()
    ensures dt.MonthIndex() >= 1 && MonthStart(dt.MonthIndex() - 1) <= ToTime(dt) < MonthStart(dt.MonthIndex())
  {
    MonthLength(dt.year, dt.month);
    DayFits(dt.day, dt.micros, DaysInMonth(dt.year, dt.month));
  }

  /** Microseconds keep the order of the calendar, so different datetimes are different moments. */
  lemma ToTimeKeepsOrder(a: DateTime, b: DateTime)
    requires a.Valid() && b.Valid()
    ensures a.Before(b) <==> ToTime(a) < ToTime(b)
    ensures a == b <==> ToTime(a) == ToTime(b)
  {
    BeforeIsEarlier(a, b);
    BeforeIsEarlier(b, a);
  }

  lemma BeforeIsEarlier(a: DateTime, b: DateTime)
    requires a.Valid() && b.Valid()
    ensures a.Before(b) ==> ToTime(a) < ToTime(b)
  {
    if a.MonthIndex() < b.MonthIndex() {
      WithinItsMonth(a);
      WithinItsMonth(b);
      LaterMonthStartsLater(a.MonthIndex(), b.MonthIndex() - 1);
    } else if a.MonthIndex() == b.MonthIndex() && a.day < b.day {
      DayFits(a.day, a.micros, b.day - 1);
    }
  }
}
