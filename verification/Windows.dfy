/** The fixed UTC windows a counter lives in: the proleptic Gregorian calendar,
    the boundary-aligned window of an instant, and the jittered time to live.

    An instant is a number of milliseconds since 0000-01-01T00:00:00Z: 1000 to the second,
    60_000 to the minute, 3_600_000 to the hour, 86_400_000 to the day. The service's clock is
    finer, and reads nanoseconds since then. */
module Windows {
  import opened Prelude

  datatype TimeUnit = Minute | Day | Month | Unspecified

  type Instant = nat

  type Nanos = nat

  /** The millisecond a reading of the clock falls in. */
  function Ms(t: Nanos): (ms: Instant)
    ensures ms * 1_000_000 <= t < ms * 1_000_000 + 1_000_000
  {
    t / 1_000_000
  }

  // ---------- calendar ----------

  /** The leap-year rule of Appendix C of RFC 3339. */
  predicate Leap(year: nat) {
    year % 4 == 0 && (year % 100 != 0 || year % 400 == 0)
  }

  function DaysInMonth(year: nat, month: nat): nat {
    if month == 2 then (if Leap(year) then 29 else 28)
    else if month == 4 || month == 6 || month == 9 || month == 11 then 30
    else 31
  }

  function DaysInYear(year: nat): nat {
    if Leap(year) then 366 else 365
  }

  /** Days from 0000-01-01 to the first day of `year`. */
  function DaysBeforeYear(year: nat): nat {
    if year == 0 then 0 else DaysBeforeYear(year - 1) + DaysInYear(year - 1)
  }

  /** Days from the first day of `year` to the first day of `month`; month 13 is the next January. */
  function DaysBeforeMonth(year: nat, month: nat): nat {
    if month <= 1 then 0 else DaysBeforeMonth(year, month - 1) + DaysInMonth(year, month - 1)
  }

  datatype Date = Date(year: nat, month: nat, day: nat)

  predicate ValidDate(d: Date) {
    1 <= d.month <= 12 && 1 <= d.day <= DaysInMonth(d.year, d.month)
  }

  function DayNumber(d: Date): nat {
    DaysBeforeYear(d.year) + DaysBeforeMonth(d.year, d.month) + Max(d.day - 1, 0)
  }

  /** The last year, from `year` on, that starts no later than `days`. */
  function YearFrom(days: nat, year: nat): nat
    decreases days - DaysBeforeYear(year)
  {
    if days < DaysBeforeYear(year + 1) then year else YearFrom(days, year + 1)
  }

  /** The last month, from `month` on, that starts no later than `days` into the year. */
  function MonthFrom(year: nat, days: nat, month: nat): nat
    decreases 12 - month
  {
    if month >= 12 || days < DaysBeforeMonth(year, month + 1) then month else MonthFrom(year, days, month + 1)
  }

  /** The calendar date of a day number. */
  function DateOf(days: nat): Date {
    var year := YearFrom(days, 0);
    var rest := days - DaysBeforeYear(year);
    var month := MonthFrom(year, Max(rest, 0), 1);
    Date(year, month, Max(rest - DaysBeforeMonth(year, month) + 1, 0))
  }

  lemma {:induction false} YearFromBounds(days: nat, year: nat)
    requires DaysBeforeYear(year) <= days
    ensures DaysBeforeYear(YearFrom(days, year)) <= days < DaysBeforeYear(YearFrom(days, year) + 1)
    decreases days - DaysBeforeYear(year)
  {
    if days >= DaysBeforeYear(year + 1) { YearFromBounds(days, year + 1); }
  }

  lemma {:induction false} MonthFromBounds(year: nat, days: nat, month: nat)
    requires 1 <= month <= 12
    requires DaysBeforeMonth(year, month) <= days < DaysBeforeMonth(year, 13)
    ensures
      var m := MonthFrom(year, days, month);
      1 <= m <= 12 && DaysBeforeMonth(year, m) <= days < DaysBeforeMonth(year, m + 1)
    decreases 12 - month
  {
    if month < 12 && days >= DaysBeforeMonth(year, month + 1) { MonthFromBounds(year, days, month + 1); }
  }

  lemma MonthsFillTheYear(year: nat)
    ensures DaysBeforeMonth(year, 13) == DaysInYear(year)
  {
    assert DaysBeforeMonth(year, 3) == DaysBeforeMonth(year, 2) + DaysInMonth(year, 2);
    assert DaysBeforeMonth(year, 5) == DaysBeforeMonth(year, 3) + 61;
    assert DaysBeforeMonth(year, 7) == DaysBeforeMonth(year, 5) + 61;
    assert DaysBeforeMonth(year, 9) == DaysBeforeMonth(year, 7) + 62;
    assert DaysBeforeMonth(year, 11) == DaysBeforeMonth(year, 9) + 61;
    assert DaysBeforeMonth(year, 13) == DaysBeforeMonth(year, 11) + 61;
  }

  /** `DateOf` yields a real calendar date, the one with that day number. */
  lemma DateOfIsExact(days: nat)
    ensures ValidDate(DateOf(days)) && DayNumber(DateOf(days)) == days
  {
    YearFromBounds(days, 0);
    var year := YearFrom(days, 0);
    MonthsFillTheYear(year);
    MonthFromBounds(year, days - DaysBeforeYear(year), 1);
  }

  lemma {:induction false} YearsGrow(a: nat, b: nat)
    requires a < b
    ensures DaysBeforeYear(a + 1) <= DaysBeforeYear(b)
    decreases b
  {
    if a + 1 < b { YearsGrow(a, b - 1); }
  }

  lemma {:induction false} MonthsGrow(year: nat, a: nat, b: nat)
    requires 1 <= a < b <= 13
    ensures DaysBeforeMonth(year, a + 1) <= DaysBeforeMonth(year, b)
    decreases b
  {
    if a + 1 < b { MonthsGrow(year, a, b - 1); }
  }

  predicate DateBefore(a: Date, b: Date) {
    a.year < b.year || (a.year == b.year && (a.month < b.month || (a.month == b.month && a.day < b.day)))
  }

  /** Day numbers order exactly as dates do, so `DateOf` is the only inverse of `DayNumber`. */
  lemma DateOrder(a: Date, b: Date)
    requires ValidDate(a) && ValidDate(b)
    ensures DateBefore(a, b) <==> DayNumber(a) < DayNumber(b)
    ensures a == b <==> DayNumber(a) == DayNumber(b)
  {
    if DateBefore(a, b) {
      EarlierDate(a, b);
    } else if DateBefore(b, a) {
      EarlierDate(b, a);
    }
  }

  lemma EarlierDate(a: Date, b: Date)
    requires ValidDate(a) && ValidDate(b) && DateBefore(a, b)
    ensures DayNumber(a) < DayNumber(b)
  {
    if a.year < b.year {
      YearsGrow(a.year, b.year);
      MonthsFillTheYear(a.year);
      if a.month < 12 { MonthsGrow(a.year, a.month, 13); }
    } else if a.month < b.month {
      MonthsGrow(a.year, a.month, b.month);
    }
  }

  // ---------- wall-clock fields ----------

  datatype Civil = Civil(date: Date, hour: nat, minute: nat)

  function CivilOf(now: Instant): Civil {
    var minutes := now % 86_400_000 / 60_000;
    Civil(DateOf(now / 86_400_000), minutes / 60, minutes % 60)
  }

  /** The instant of a date at `hour`:`minute`:00 UTC. */
  function AtTime(d: Date, hour: nat, minute: nat): Instant {
    DayNumber(d) * 86_400_000 + hour * 3_600_000 + minute * 60_000
  }

  /** The fields of an instant are a real date and time, and they locate it to the minute. */
  lemma CivilIsExact(now: Instant)
    ensures
      var c := CivilOf(now);
      && ValidDate(c.date) && c.hour < 24 && c.minute < 60
      && DayNumber(c.date) == now / 86_400_000
      && AtTime(c.date, c.hour, c.minute) <= now < AtTime(c.date, c.hour, c.minute) + 60_000
  {
    DateOfIsExact(now / 86_400_000);
    ClockFields(now);
  }

  lemma ClockFields(now: Instant)
    ensures now % 86_400_000 / 60_000 < 1440
    ensures
      var minutes := now % 86_400_000 / 60_000;
      var start := now / 86_400_000 * 86_400_000 + minutes / 60 * 3_600_000 + minutes % 60 * 60_000;
      start <= now < start + 60_000
  {
    var minutes := now % 86_400_000 / 60_000;
    assert minutes / 60 * 3_600_000 + minutes % 60 * 60_000 == minutes * 60_000;
  }

  // ---------- window ids ----------

  function Digit(n: nat): char
    requires n < 10
  {
    "0123456789"[n]
  }

  /** Decimal digits of `n`, left-padded with zeros to at least `width`. */
  function Pad(width: nat, n: nat): string
    decreases width + n
  {
    if width == 0 && n == 0 then ""
    else Pad(if width == 0 then 0 else width - 1, n / 10) + [Digit(n % 10)]
  }

  datatype Window = Window(windowId: string, resetAt: Instant, remainingSecs: nat)

  function WindowId(c: Civil, unit: TimeUnit): string {
    var month := Pad(4, c.date.year) + Pad(2, c.date.month);
    var day := month + Pad(2, c.date.day);
    match unit
    case Minute => day + Pad(2, c.hour) + Pad(2, c.minute)
    case Day => day
    case Month => month
    case Unspecified => ""
  }

  function ResetAt(c: Civil, unit: TimeUnit): Instant {
    match unit
    case Minute => AtTime(c.date, c.hour, c.minute) + 60_000
    case Day => AtTime(c.date, 0, 0) + 86_400_000
    case Month => AtTime(NextMonth(c.date), 0, 0)
    case Unspecified => 0
  }

  function NextMonth(d: Date): Date {
    if d.month == 12 then Date(d.year + 1, 1, 1) else Date(d.year, d.month + 1, 1)
  }

  /** The window of `now`, with the whole seconds left of it; none for an unspecified unit. */
  function ComputeWindow(now: Nanos, unit: TimeUnit): Option<Window> {
    if unit == Unspecified then None
    else
      var c := CivilOf(Ms(now));
      var reset := ResetAt(c, unit);
      Some(Window(WindowId(c, unit), reset, Max(reset * 1_000_000 - now, 0) / 1_000_000_000))
  }

  // ---------- windows partition time ----------

  /** The first instant of the window of `now`. */
  function WindowStart(now: Instant, unit: TimeUnit): Instant {
    var c := CivilOf(now);
    match unit
    case Minute => AtTime(c.date, c.hour, c.minute)
    case Day => AtTime(c.date, 0, 0)
    case Month => AtTime(Date(c.date.year, c.date.month, 1), 0, 0)
    case Unspecified => 0
  }

  /** The first instant after the window of `now`. */
  function WindowReset(now: Instant, unit: TimeUnit): Instant {
    ResetAt(CivilOf(now), unit)
  }

  lemma AlignedStart(now: Instant)
    ensures WindowStart(now, Minute) == now / 60_000 * 60_000
    ensures WindowStart(now, Day) == now / 86_400_000 * 86_400_000 == DayNumber(CivilOf(now).date) * 86_400_000
    ensures WindowReset(now, Minute) == WindowStart(now, Minute) + 60_000
    ensures WindowReset(now, Day) == WindowStart(now, Day) + 86_400_000
  {
    var c := CivilOf(now);
    CivilIsExact(now);
    MinuteAligned(DayNumber(c.date), c.hour, c.minute, now);
  }

  lemma MinuteAligned(day: nat, hour: nat, minute: nat, now: Instant)
    requires day * 86_400_000 + hour * 3_600_000 + minute * 60_000 <= now
    requires now < day * 86_400_000 + hour * 3_600_000 + minute * 60_000 + 60_000
    ensures day * 86_400_000 + hour * 3_600_000 + minute * 60_000 == now / 60_000 * 60_000
  {
    var q := day * 1440 + hour * 60 + minute;
    assert q * 60_000 <= now < q * 60_000 + 60_000;
    assert now / 60_000 == q;
  }

  lemma MonthLength(d: Date)
    requires ValidDate(d)
    ensures ValidDate(Date(d.year, d.month, 1)) && ValidDate(NextMonth(d))
    ensures DayNumber(NextMonth(d)) - DayNumber(Date(d.year, d.month, 1)) == DaysInMonth(d.year, d.month)
  {
    if d.month == 12 {
      MonthsFillTheYear(d.year);
      assert DaysBeforeMonth(d.year, 13) == DaysBeforeMonth(d.year, 12) + DaysInMonth(d.year, 12);
    }
  }

  /** A month window in whole days: it runs from the first of its month to the first of the next. */
  lemma MonthInDays(now: Instant)
    ensures
      var d := CivilOf(now).date;
      var first := Date(d.year, d.month, 1);
      && ValidDate(first) && ValidDate(NextMonth(d))
      && DayNumber(d) == now / 86_400_000
      && DayNumber(first) <= now / 86_400_000 < DayNumber(NextMonth(d))
      && WindowStart(now, Month) == DayNumber(first) * 86_400_000
      && WindowReset(now, Month) == DayNumber(NextMonth(d)) * 86_400_000
      && DayNumber(NextMonth(d)) == DayNumber(first) + DaysInMonth(d.year, d.month)
  {
    CivilIsExact(now);
    MonthLength(CivilOf(now).date);
    AlignedStart(now);
  }

  /** How long a window of this unit lasts: 60 s, one day, or 28 to 31 days by the leap-year rule. */
  function WindowLength(now: Instant, unit: TimeUnit): nat {
    match unit
    case Minute => 60_000
    case Day => 86_400_000
    case Month => var d := CivilOf(now).date; DaysInMonth(d.year, d.month) * 86_400_000
    case Unspecified => 0
  }

  /** The shortest a window of this unit can last. */
  function ShortestWindow(unit: TimeUnit): nat {
    match unit
    case Minute => 60_000
    case Day => 86_400_000
    case Month => 28 * 86_400_000
    case Unspecified => 0
  }

  /** Every instant lies in its own window, and the window has its calendar length. */
  lemma WindowContains(now: Instant, unit: TimeUnit)
    requires unit != Unspecified
    ensures WindowStart(now, unit) <= now < WindowReset(now, unit)
    ensures WindowReset(now, unit) == WindowStart(now, unit) + WindowLength(now, unit)
    ensures ShortestWindow(unit) <= WindowLength(now, unit) <= 31 * 86_400_000
  {
    if unit == Month {
      MonthInDays(now);
    } else {
      AlignedStart(now);
    }
  }

  /** Two instants share a window exactly when each lies between the other's bounds. */
  lemma SameWindow(a: Instant, b: Instant, unit: TimeUnit)
    requires unit != Unspecified
    ensures WindowStart(a, unit) == WindowStart(b, unit) <==> WindowStart(a, unit) <= b < WindowReset(a, unit)
    ensures WindowStart(a, unit) == WindowStart(b, unit) ==> WindowReset(a, unit) == WindowReset(b, unit)
  {
    if unit == Month {
      SameMonth(a, b);
    } else {
      AlignedStart(a);
      AlignedStart(b);
      SameCell(a, b, if unit == Minute then 60_000 else 86_400_000);
    }
  }

  lemma SameCell(a: Instant, b: Instant, size: int)
    requires size == 60_000 || size == 86_400_000
    ensures a / size * size == b / size * size <==> a / size * size <= b < a / size * size + size
    ensures (a / size * size + size) / size * size == a / size * size + size
  {
    if size == 60_000 {
      assert a / 60_000 * 60_000 <= b < a / 60_000 * 60_000 + 60_000 <==> a / 60_000 == b / 60_000;
    } else {
      assert a / 86_400_000 * 86_400_000 <= b < a / 86_400_000 * 86_400_000 + 86_400_000 <==> a / 86_400_000 == b / 86_400_000;
    }
  }

  lemma DayInMonth(e: Date, d: Date)
    requires ValidDate(d) && ValidDate(e)
    requires ValidDate(Date(d.year, d.month, 1)) && ValidDate(NextMonth(d))
    ensures DayNumber(Date(d.year, d.month, 1)) <= DayNumber(e) < DayNumber(NextMonth(d))
            <==> e.year == d.year && e.month == d.month
  {
    DateOrder(e, Date(d.year, d.month, 1));
    DateOrder(e, NextMonth(d));
  }

  lemma SameMonth(a: Instant, b: Instant)
    ensures WindowStart(a, Month) == WindowStart(b, Month) <==> WindowStart(a, Month) <= b < WindowReset(a, Month)
    ensures WindowStart(a, Month) == WindowStart(b, Month) ==> WindowReset(a, Month) == WindowReset(b, Month)
  {
    var d, e := CivilOf(a).date, CivilOf(b).date;
    MonthInDays(a);
    MonthInDays(b);
    var first, next := DayNumber(Date(d.year, d.month, 1)), DayNumber(NextMonth(d));
    assert first * 86_400_000 <= b < next * 86_400_000 <==> first <= b / 86_400_000 < next by { InDays(first, next, b); }
    DayInMonth(e, d);
    DateOrder(Date(d.year, d.month, 1), Date(e.year, e.month, 1));
  }

  lemma InDays(first: nat, next: nat, b: Instant)
    ensures first * 86_400_000 <= b < next * 86_400_000 <==> first <= b / 86_400_000 < next
  {}

  lemma NextMonthStarts(now: Instant)
    ensures WindowStart(WindowReset(now, Month), Month) == WindowReset(now, Month)
  {
    var next := NextMonth(CivilOf(now).date);
    MonthInDays(now);
    var reset := WindowReset(now, Month);
    assert reset / 86_400_000 == DayNumber(next);
    CivilIsExact(reset);
    MonthInDays(reset);
    DateOrder(CivilOf(reset).date, next);
    assert CivilOf(reset).date == next;
  }

  /** `reset_at` is strictly later than now and is itself the first instant of the next window. */
  lemma ResetStartsTheNextWindow(now: Instant, unit: TimeUnit)
    requires unit != Unspecified
    ensures now < WindowReset(now, unit)
    ensures WindowStart(WindowReset(now, unit), unit) == WindowReset(now, unit)
  {
    WindowContains(now, unit);
    match unit
    case Month => NextMonthStarts(now);
    case Minute => NextCellStarts(now);
    case Day => NextCellStarts(now);
  }

  lemma NextCellStarts(now: Instant)
    ensures WindowStart(WindowReset(now, Minute), Minute) == WindowReset(now, Minute)
    ensures WindowStart(WindowReset(now, Day), Day) == WindowReset(now, Day)
  {
    AlignedStart(now);
    var m, d := WindowReset(now, Minute), WindowReset(now, Day);
    assert m / 60_000 * 60_000 == m by { SameCell(now, now, 60_000); }
    assert d / 86_400_000 * 86_400_000 == d by { SameCell(now, now, 86_400_000); }
    AlignedStart(m);
    AlignedStart(d);
  }

  /** Windows follow one another: a later window starts no earlier than the reset of any before it. */
  lemma WindowOrder(a: Instant, b: Instant, unit: TimeUnit)
    requires unit != Unspecified
    ensures a <= b ==> WindowStart(a, unit) <= WindowStart(b, unit)
    ensures WindowStart(a, unit) < WindowStart(b, unit) <==> WindowReset(a, unit) <= b
    ensures WindowStart(a, unit) < WindowStart(b, unit) ==> WindowReset(a, unit) <= WindowStart(b, unit)
  {
    WindowContains(a, unit);
    WindowContains(b, unit);
    SameWindow(a, b, unit);
    SameWindow(b, a, unit);
    var reset := WindowReset(a, unit);
    ResetStartsTheNextWindow(a, unit);
    SameWindow(b, reset, unit);
    SameWindow(reset, b, unit);
    WindowContains(reset, unit);
    SameWindow(b, WindowStart(a, unit), unit);
    SameWindow(a, WindowStart(a, unit), unit);
  }

  // ---------- ids name windows ----------

  /** Lexicographic order of strings, character by character. */
  predicate LexLess(a: string, b: string) {
    b != [] && (a == [] || a[0] < b[0] || (a[0] == b[0] && LexLess(a[1..], b[1..])))
  }

  lemma {:induction false} LexConcat(a: string, a': string, b: string, b': string)
    requires |a| == |a'|
    ensures LexLess(a + b, a' + b') <==> LexLess(a, a') || (a == a' && LexLess(b, b'))
    ensures a + b == a' + b' <==> a == a' && b == b'
  {
    if a == [] {
      assert a + b == b && a' + b' == b';
    } else {
      assert (a + b)[1..] == a[1..] + b && (a' + b')[1..] == a'[1..] + b';
      LexConcat(a[1..], a'[1..], b, b');
      assert a == [a[0]] + a[1..] && a' == [a'[0]] + a'[1..];
      assert a + b == [a[0]] + (a[1..] + b) && a' + b' == [a'[0]] + (a'[1..] + b');
      if a + b == a' + b' {
        assert (a + b)[0] == (a' + b')[0];
      }
    }
  }

  predicate Fits(width: nat, n: nat) {
    if width == 0 then n == 0 else Fits(width - 1, n / 10)
  }

  predicate AllDigits(s: string) {
    forall i :: 0 <= i < |s| ==> '0' <= s[i] <= '9'
  }

  /** Padded numbers of one width have that many digits and order as the numbers do. */
  lemma {:induction false} PadOrder(width: nat, n: nat, n': nat)
    requires Fits(width, n) && Fits(width, n')
    ensures |Pad(width, n)| == |Pad(width, n')| == width
    ensures AllDigits(Pad(width, n))
    ensures LexLess(Pad(width, n), Pad(width, n')) <==> n < n'
    ensures Pad(width, n) == Pad(width, n') <==> n == n'
  {
    if width > 0 {
      PadOrder(width - 1, n / 10, n' / 10);
      LexConcat(Pad(width - 1, n / 10), Pad(width - 1, n' / 10), [Digit(n % 10)], [Digit(n' % 10)]);
    }
  }

  lemma TwoDigits(n: nat)
    requires n < 100
    ensures Fits(2, n)
  {
    assert Fits(1, n / 10) by { assert Fits(0, n / 10 / 10); }
  }

  lemma FourDigits(n: nat)
    requires n < 10_000
    ensures Fits(4, n)
  {
    assert Fits(3, n / 10) by {
      assert n / 10 / 10 < 100;
      TwoDigits(n / 10 / 10);
    }
  }

  lemma PadOrder2(n: nat, n': nat)
    requires n < 100 && n' < 100
    ensures |Pad(2, n)| == |Pad(2, n')| == 2 && AllDigits(Pad(2, n))
    ensures LexLess(Pad(2, n), Pad(2, n')) <==> n < n'
    ensures Pad(2, n) == Pad(2, n') <==> n == n'
  {
    TwoDigits(n);
    TwoDigits(n');
    PadOrder(2, n, n');
  }

  /** The first instant of the year 10000. */
  const YEAR_10000: int := 315_569_520_000_000

  /** Instants whose year has four digits, the range of RFC 3339 timestamps. */
  predicate FourDigitYear(now: Instant) {
    now < YEAR_10000
  }

  /** Leap days before a year, counted in closed form. */
  lemma {:induction false} DaysBeforeYearClosedForm(year: nat)
    ensures DaysBeforeYear(year) == 365 * year + (year + 3) / 4 - (year + 99) / 100 + (year + 399) / 400
  {
    if year > 0 {
      DaysBeforeYearClosedForm(year - 1);
      LeapStep(year - 1);
    }
  }

  lemma LeapStep(y: nat)
    ensures (y + 4) / 4 == (y + 3) / 4 + (if y % 4 == 0 then 1 else 0)
    ensures (y + 100) / 100 == (y + 99) / 100 + (if y % 100 == 0 then 1 else 0)
    ensures (y + 400) / 400 == (y + 399) / 400 + (if y % 400 == 0 then 1 else 0)
    ensures y % 400 == 0 ==> y % 100 == 0
    ensures y % 100 == 0 ==> y % 4 == 0
  {
    CeilStep4(y);
    CeilStep100(y);
    CeilStep400(y);
    if y % 400 == 0 { assert y == 100 * (4 * (y / 400)); }
    if y % 100 == 0 { assert y == 4 * (25 * (y / 100)); }
  }

  lemma CeilStep4(y: nat)
    ensures (y + 4) / 4 == (y + 3) / 4 + (if y % 4 == 0 then 1 else 0)
  {}

  lemma CeilStep100(y: nat)
    ensures (y + 100) / 100 == (y + 99) / 100 + (if y % 100 == 0 then 1 else 0)
  {}

  lemma CeilStep400(y: nat)
    ensures (y + 400) / 400 == (y + 399) / 400 + (if y % 400 == 0 then 1 else 0)
  {}

  // ---------- the same calendar in closed form ----------

  /** The day number of the first of a month, by arithmetic alone: leap days are counted by division, and from
      March on five months last 153 days. */
  function FirstOfMonth(year: nat, month: nat): int {
    var leapDays := (year + 3) / 4 - (year + 99) / 100 + (year + 399) / 400;
    var leapDay := if (year + 4) / 4 - (year + 100) / 100 + (year + 400) / 400 > leapDays then 1 else 0;
    365 * year + leapDays
    + (if month <= 2 then 31 * (month - 1) else 59 + leapDay + (153 * (month - 3) + 2) / 5)
  }

  lemma {:induction false} MonthsInClosedForm(year: nat, month: nat)
    requires 1 <= month <= 13
    ensures DaysBeforeMonth(year, month)
            == if month <= 2 then 31 * (month - 1)
               else 59 + (if Leap(year) then 1 else 0) + (153 * (month - 3) + 2) / 5
  {
    if month > 1 { MonthsInClosedForm(year, month - 1); }
  }

  lemma FirstsInClosedForm(year: nat, month: nat)
    requires 1 <= month <= 13
    ensures DaysBeforeYear(year) + DaysBeforeMonth(year, month) == FirstOfMonth(year, month)
  {
    hide DaysBeforeYear, DaysBeforeMonth;
    DaysBeforeYearClosedForm(year);
    MonthsInClosedForm(year, month);
    LeapStep(year);
  }

  /** The date of a day number, pinned by arithmetic: its month is the one whose first day is the last first of a
      month not after it. */
  lemma DateInClosedForm(days: nat)
    ensures
      var d := DateOf(days);
      && 1 <= d.month <= 12
      && FirstOfMonth(d.year, d.month) <= days < FirstOfMonth(d.year, d.month + 1)
      && d.day == days - FirstOfMonth(d.year, d.month) + 1
  {
    hide DateOf, DaysBeforeYear, FirstOfMonth;
    DateOfIsExact(days);
    var d := DateOf(days);
    FirstsInClosedForm(d.year, d.month);
    FirstsInClosedForm(d.year, d.month + 1);
  }

  /** A month window in closed form: from the first of the month of its date to the next first. */
  lemma MonthWindowInClosedForm(now: Instant)
    ensures
      var d := CivilOf(now).date;
      && 1 <= d.month <= 12
      && WindowStart(now, Month) == FirstOfMonth(d.year, d.month) * 86_400_000
      && WindowReset(now, Month) == FirstOfMonth(d.year, d.month + 1) * 86_400_000
      && d.day == now / 86_400_000 - FirstOfMonth(d.year, d.month) + 1
  {
    hide DateOf, DaysBeforeYear, FirstOfMonth, WindowStart, WindowReset;
    DateInClosedForm(now / 86_400_000);
    var d := CivilOf(now).date;
    MonthInDays(now);
    FirstsInClosedForm(d.year, d.month);
    FirstsInClosedForm(d.year, d.month + 1);
  }

  lemma YearBounds(now: Instant, year: nat)
    ensures CivilOf(now).date.year < year <==> now < DaysBeforeYear(year) * 86_400_000
  {
    CivilIsExact(now);
    DateOrder(CivilOf(now).date, Date(year, 1, 1));
  }

  lemma FourDigitYearIsExact(now: Instant)
    ensures FourDigitYear(now) <==> CivilOf(now).date.year <= 9999
  {
    hide DaysBeforeYear, CivilOf;
    var year: nat :| year == 10_000;
    DaysBeforeYearClosedForm(year);
    assert DaysBeforeYear(year) == 3_652_425;
    YearBounds(now, year);
  }

  function IdLength(unit: TimeUnit): nat {
    match unit
    case Minute => 12
    case Day => 8
    case Month => 6
    case Unspecified => 0
  }

  lemma MonthIdOrder(a: Date, b: Date)
    requires ValidDate(a) && ValidDate(b) && a.year <= 9999 && b.year <= 9999
    ensures
      var s, t := Pad(4, a.year) + Pad(2, a.month), Pad(4, b.year) + Pad(2, b.month);
      && |s| == |t| == 6 && AllDigits(s)
      && (LexLess(s, t) <==> DateBefore(Date(a.year, a.month, 1), Date(b.year, b.month, 1)))
      && (s == t <==> a.year == b.year && a.month == b.month)
  {
    FourDigits(a.year);
    FourDigits(b.year);
    PadOrder(4, a.year, b.year);
    PadOrder2(a.month, b.month);
    LexConcat(Pad(4, a.year), Pad(4, b.year), Pad(2, a.month), Pad(2, b.month));
  }

  lemma DayIdOrder(a: Date, b: Date)
    requires ValidDate(a) && ValidDate(b) && a.year <= 9999 && b.year <= 9999
    ensures
      var s, t := Pad(4, a.year) + Pad(2, a.month) + Pad(2, a.day), Pad(4, b.year) + Pad(2, b.month) + Pad(2, b.day);
      && |s| == |t| == 8 && AllDigits(s)
      && (LexLess(s, t) <==> DateBefore(a, b))
      && (s == t <==> a == b)
  {
    MonthIdOrder(a, b);
    PadOrder2(a.day, b.day);
    LexConcat(Pad(4, a.year) + Pad(2, a.month), Pad(4, b.year) + Pad(2, b.month), Pad(2, a.day), Pad(2, b.day));
  }

  lemma MinuteIdOrder(a: Civil, b: Civil)
    requires ValidDate(a.date) && ValidDate(b.date) && a.date.year <= 9999 && b.date.year <= 9999
    requires a.hour < 24 && b.hour < 24 && a.minute < 60 && b.minute < 60
    ensures
      var s, t := WindowId(a, Minute), WindowId(b, Minute);
      && |s| == |t| == 12 && AllDigits(s)
      && (LexLess(s, t) <==> AtTime(a.date, a.hour, a.minute) < AtTime(b.date, b.hour, b.minute))
      && (s == t <==> AtTime(a.date, a.hour, a.minute) == AtTime(b.date, b.hour, b.minute))
  {
    DayIdOrder(a.date, b.date);
    DateOrder(a.date, b.date);
    PadOrder2(a.hour, b.hour);
    PadOrder2(a.minute, b.minute);
    var s, t := WindowId(a, Day), WindowId(b, Day);
    LexConcat(s, t, Pad(2, a.hour), Pad(2, b.hour));
    LexConcat(s + Pad(2, a.hour), t + Pad(2, b.hour), Pad(2, a.minute), Pad(2, b.minute));
    ClockOrder(DayNumber(a.date), a.hour, a.minute, DayNumber(b.date), b.hour, b.minute);
  }

  lemma ClockOrder(day: nat, hour: nat, minute: nat, day': nat, hour': nat, minute': nat)
    requires hour < 24 && hour' < 24 && minute < 60 && minute' < 60
    ensures
      var a, b := day * 86_400_000 + hour * 3_600_000 + minute * 60_000, day' * 86_400_000 + hour' * 3_600_000 + minute' * 60_000;
      && (a < b <==> day < day' || (day == day' && (hour < hour' || (hour == hour' && minute < minute'))))
      && (a == b <==> day == day' && hour == hour' && minute == minute')
  {
    assert hour * 3_600_000 + minute * 60_000 < 86_400_000;
    assert hour' * 3_600_000 + minute' * 60_000 < 86_400_000;
  }

  /** Two instants share a window id exactly when they share a window, and ids order as time does. */
  lemma IdsNameWindows(a: Instant, b: Instant, unit: TimeUnit)
    requires unit != Unspecified && FourDigitYear(a) && FourDigitYear(b)
    ensures
      var s, t := WindowId(CivilOf(a), unit), WindowId(CivilOf(b), unit);
      && |s| == |t| == IdLength(unit) && AllDigits(s)
      && (s == t <==> WindowStart(a, unit) == WindowStart(b, unit))
      && (LexLess(s, t) <==> WindowStart(a, unit) < WindowStart(b, unit))
  {
    var c, e := CivilOf(a), CivilOf(b);
    CivilIsExact(a);
    CivilIsExact(b);
    FourDigitYearIsExact(a);
    FourDigitYearIsExact(b);
    match unit
    case Minute => MinuteIdOrder(c, e);
    case Day =>
      DayIdOrder(c.date, e.date);
      DateOrder(c.date, e.date);
    case Month =>
      MonthIdOrder(c.date, e.date);
      DateOrder(Date(c.date.year, c.date.month, 1), Date(e.date.year, e.date.month, 1));
  }

  /** What a caller of `ComputeWindow` sees: ids and `reset_at` name the same partition of time, in order. */
  lemma ComputedWindows(now: Nanos, later: Nanos, unit: TimeUnit)
    requires unit != Unspecified && FourDigitYear(Ms(now)) && FourDigitYear(Ms(later))
    ensures
      var v, w := ComputeWindow(now, unit).value, ComputeWindow(later, unit).value;
      && now < v.resetAt * 1_000_000
      && WindowReset(v.resetAt, unit) > v.resetAt == WindowStart(v.resetAt, unit)
      && v.remainingSecs * 1_000_000_000 <= v.resetAt * 1_000_000 - now < v.remainingSecs * 1_000_000_000 + 1_000_000_000
      && (v.windowId == w.windowId <==> v.resetAt == w.resetAt)
      && (v.windowId == w.windowId <==> WindowStart(Ms(now), unit) <= Ms(later) < v.resetAt)
      && (LexLess(v.windowId, w.windowId) <==> v.resetAt <= Ms(later))
  {
    hide CivilOf, ResetAt, WindowId, WindowStart, WindowReset, LexLess;
    var a, b := Ms(now), Ms(later);
    ComputedFields(now, unit);
    ComputedFields(later, unit);
    WindowContains(a, unit);
    WindowContains(b, unit);
    IdsNameWindows(a, b, unit);
    SameWindow(a, b, unit);
    WindowOrder(a, b, unit);
    WindowOrder(b, a, unit);
    ResetStartsTheNextWindow(a, unit);
    WindowContains(WindowReset(a, unit), unit);
  }

  lemma ComputedFields(now: Nanos, unit: TimeUnit)
    requires unit != Unspecified
    ensures
      var w := ComputeWindow(now, unit);
      && w.Some? && w.value.windowId == WindowId(CivilOf(Ms(now)), unit) && w.value.resetAt == WindowReset(Ms(now), unit)
      && w.value.remainingSecs == Max(w.value.resetAt * 1_000_000 - now, 0) / 1_000_000_000
  {
    hide CivilOf, WindowId, ResetAt;
  }

  /** The number a string of digits reads as. */
  function Reading(s: string): int {
    if s == [] then 0 else Reading(s[..|s| - 1]) * 10 + (s[|s| - 1] as int - '0' as int)
  }

  lemma {:induction false} PadReads(width: nat, n: nat)
    ensures Reading(Pad(width, n)) == n
    decreases width + n
  {
    if width > 0 || n > 0 {
      PadReads(if width == 0 then 0 else width - 1, n / 10);
      var init := Pad(if width == 0 then 0 else width - 1, n / 10);
      assert Pad(width, n)[..|init|] == init;
      assert Digit(n % 10) as int - '0' as int == n % 10;
    }
  }

  lemma AppendTwo(s: string, n: nat)
    requires n < 100
    ensures Reading(s + Pad(2, n)) == Reading(s) * 100 + n
  {
    hide Reading;
    TwoDigits(n);
    PadOrder(2, n, n);
    PadReads(2, n);
    var t := Pad(2, n);
    assert (s + t)[..|s| + 1] == s + t[..1] && (s + t[..1])[..|s|] == s;
    LastDigit(s + t);
    LastDigit(s + t[..1]);
    LastDigit(t);
    LastDigit(t[..1]);
    assert t[..1][..0] == [] && Reading([]) == 0 by { NoDigits(); }
  }

  lemma LastDigit(s: string)
    requires s != []
    ensures Reading(s) == Reading(s[..|s| - 1]) * 10 + (s[|s| - 1] as int - '0' as int)
  {}

  lemma NoDigits()
    ensures Reading([]) == 0
  {}

  /** Read as numbers, ids are the date and time written out: yyyymm, yyyymmdd and yyyymmddhhmm. */
  lemma IdsReadAsDates(now: Instant)
    ensures
      var c := CivilOf(now);
      var month := c.date.year * 100 + c.date.month;
      && Reading(WindowId(c, Month)) == month
      && Reading(WindowId(c, Day)) == month * 100 + c.date.day
      && Reading(WindowId(c, Minute)) == ((month * 100 + c.date.day) * 100 + c.hour) * 100 + c.minute
  {
    hide CivilOf, Reading, Pad;
    var c := CivilOf(now);
    CivilIsExact(now);
    PadReads(4, c.date.year);
    var month := Pad(4, c.date.year) + Pad(2, c.date.month);
    AppendTwo(Pad(4, c.date.year), c.date.month);
    AppendTwo(month, c.date.day);
    AppendTwo(month + Pad(2, c.date.day), c.hour);
    AppendTwo(month + Pad(2, c.date.day) + Pad(2, c.hour), c.minute);
  }

  // ---------- time to live ----------

  /** Largest jitter added to a time to live, per unit, in seconds. */
  function JitterCapSecs(unit: TimeUnit): nat {
    match unit
    case Minute => 30
    case Day => 300
    case Month => 300
    case Unspecified => 0
  }

  /** `random` stands for the 64-bit random draw. The jitter only ever lengthens the time to live. */
  function JitteredTtl(remainingSecs: int, graceSecs: int, jitterMaxSecs: int, random: nat): (ttl: int)
    ensures ttl >= 1
    ensures ttl >= remainingSecs + graceSecs
    ensures remainingSecs + graceSecs >= 1 ==> ttl <= remainingSecs + graceSecs + Max(jitterMaxSecs, 0)
  {
    var jitter := if jitterMaxSecs > 0 then random % (jitterMaxSecs + 1) else 0;
    Max(remainingSecs + graceSecs + jitter, 1)
  }

  /** The jitter is spread over whole seconds up to the cap: 30 for a minute window, 300 for a day or a month. */
  lemma EveryJitterOccurs(remainingSecs: nat, unit: TimeUnit, jitter: nat)
    requires unit != Unspecified && jitter <= if unit == Minute then 30 else 300
    ensures exists random :: JitteredTtl(remainingSecs, 5, JitterCapSecs(unit), random) == remainingSecs + 5 + jitter
    ensures forall random :: JitteredTtl(remainingSecs, 5, JitterCapSecs(unit), random)
                             <= remainingSecs + 5 + (if unit == Minute then 30 else 300)
  {
    assert JitteredTtl(remainingSecs, 5, JitterCapSecs(unit), jitter) == remainingSecs + 5 + jitter;
  }
}
