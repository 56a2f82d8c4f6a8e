/** Time as the relay keeps it: text of the form 2026-01-31T23:59:59Z, compared as text.

    The comparison is justified by order preservation: for four-digit years the
    character order of the texts is the order of the instants they name
    (section 5.1 of RFC 3339). */
module RelayTime {
  import opened Wrappers

  // ---- text order ----

  /** The character order SQLite uses on TEXT columns. */
  predicate Before(a: string, b: string) {
    if b == "" then false
    else if a == "" then true
    else if a[0] != b[0] then a[0] < b[0]
    else Before(a[1..], b[1..])
  }

  lemma {:induction false} BeforeIsTransitive(a: string, b: string, c: string)
    requires Before(a, b) && Before(b, c)
    ensures Before(a, c)
  {
    if a != "" && a[0] == b[0] && b[0] == c[0] {
      BeforeIsTransitive(a[1..], b[1..], c[1..]);
    }
  }

  lemma {:induction false} BeforeIsIrreflexive(a: string)
    ensures !Before(a, a)
  {
    if a != "" {
      BeforeIsIrreflexive(a[1..]);
    }
  }

  lemma {:induction false} BeforeIsTotal(a: string, b: string)
    ensures Before(a, b) || a == b || Before(b, a)
  {
    if a != "" && b != "" && a[0] == b[0] {
      BeforeIsTotal(a[1..], b[1..]);
      assert a == [a[0]] + a[1..] && b == [b[0]] + b[1..];
    }
  }

  lemma NotBeforeIsTransitive(a: string, b: string, c: string)
    requires !Before(b, a) && !Before(c, b)
    ensures !Before(c, a)
  {
    BeforeIsTotal(a, b);
    if Before(c, a) && a != b {
      BeforeIsTransitive(c, a, b);
    }
  }

  /** Equal-length fields compare before what follows them. */
  lemma {:induction false} FieldFirst(x: string, y: string, a: string, b: string)
    requires |x| == |y|
    ensures Before(x + a, y + b) <==> Before(x, y) || (x == y && Before(a, b))
  {
    if x == "" {
      assert x + a == a && y + b == b;
    } else {
      assert (x + a)[0] == x[0] && (y + b)[0] == y[0];
      assert (x + a)[1..] == x[1..] + a && (y + b)[1..] == y[1..] + b;
      FieldFirst(x[1..], y[1..], a, b);
      assert x == [x[0]] + x[1..] && y == [y[0]] + y[1..];
    }
  }

  // ---- fixed-width decimal fields ----

  function Digit(d: nat): char
    requires d < 10
  {
    '0' + d as char
  }

  function Power10(width: nat): nat {
    if width == 0 then 1 else 10 * Power10(width - 1)
  }

  /** The last `width` decimal digits of n, zero-padded. */
  function Decimal(n: nat, width: nat): (s: string)
    ensures |s| == width
  {
    if width == 0 then "" else Decimal(n / 10, width - 1) + [Digit(n % 10)]
  }

  /** On numbers that fit the width, text order is number order and the text fixes the number. */
  lemma {:induction false} DecimalOrder(m: nat, n: nat, width: nat)
    requires m < Power10(width) && n < Power10(width)
    ensures Before(Decimal(m, width), Decimal(n, width)) <==> m < n
    ensures Decimal(m, width) == Decimal(n, width) <==> m == n
  {
    if width > 0 {
      DecimalOrder(m / 10, n / 10, width - 1);
      var dm, dn := [Digit(m % 10)], [Digit(n % 10)];
      FieldFirst(Decimal(m / 10, width - 1), Decimal(n / 10, width - 1), dm, dn);
      assert Before(dm, dn) <==> m % 10 < n % 10;
      assert Decimal(m, width)[..width - 1] == Decimal(m / 10, width - 1);
      assert Decimal(n, width)[..width - 1] == Decimal(n / 10, width - 1);
      assert Decimal(m, width)[width - 1] == dm[0] && Decimal(n, width)[width - 1] == dn[0];
    }
  }

  // ---- calendar ----

  datatype DateTime = DateTime(year: nat, month: nat, day: nat, hour: nat, minute: nat, second: nat)

  predicate LeapYear(y: nat) {
    y % 4 == 0 && (y % 100 != 0 || y % 400 == 0)
  }

  function MonthLength(y: nat, m: nat): nat {
    if m == 2 then (if LeapYear(y) then 29 else 28) else if m in {4, 6, 9, 11} then 30 else 31
  }

  predicate Valid(t: DateTime) {
    1000 <= t.year <= 9999 && 1 <= t.month <= 12 && 1 <= t.day <= MonthLength(t.year, t.month) &&
    t.hour < 24 && t.minute < 60 && t.second < 60
  }

  type Moment = t: DateTime | Valid(t) witness DateTime(1000, 1, 1, 0, 0, 0)

  function DaysBeforeMonth(y: nat, m: nat): nat {
    if m <= 1 then 0 else DaysBeforeMonth(y, m - 1) + MonthLength(y, m - 1)
  }

  function DaysBeforeYear(y: nat): nat {
    if y <= 1000 then 0 else DaysBeforeYear(y - 1) + DaysBeforeMonth(y - 1, 13)
  }

  /** Days since the first day of the year 1000. */
  function DayNumber(t: DateTime): int {
    DaysBeforeYear(t.year) + DaysBeforeMonth(t.year, t.month) + t.day - 1
  }

  /** Seconds since the start of the year 1000: the timeline the texts stand for. */
  function Instant(t: DateTime): int {
    DayNumber(t) * 86400 + t.hour * 3600 + t.minute * 60 + t.second
  }

  /** `strftime("%Y-%m-%dT%H:%M:%SZ")`. */
  function Stamp(t: DateTime): string {
    Decimal(t.year, 4) + ("-" + (Decimal(t.month, 2) + ("-" + (Decimal(t.day, 2) + ("T" + (Decimal(t.hour, 2) +
      (":" + (Decimal(t.minute, 2) + (":" + (Decimal(t.second, 2) + "Z"))))))))))
  }

  /** Where the fields and the marks stand in the text. */
  lemma StampShape(t: DateTime)
    ensures var s := Stamp(t);
            |s| == 20 && s[0..4] == Decimal(t.year, 4) && s[4] == '-' && s[5..7] == Decimal(t.month, 2) &&
            s[7] == '-' && s[8..10] == Decimal(t.day, 2) && s[10] == 'T' && s[11..13] == Decimal(t.hour, 2) &&
            s[13] == ':' && s[14..16] == Decimal(t.minute, 2) && s[16] == ':' &&
            s[17..19] == Decimal(t.second, 2) && s[19] == 'Z'
  {
  }

  /** Two digits: tens, then ones. */
  lemma TwoDigits(n: nat)
    requires n < 100
    ensures Decimal(n, 2) == ['0' + (n / 10) as char, '0' + (n % 10) as char]
  {
    assert Decimal(n / 10, 1) == Decimal(n / 100, 0) + [Digit(n / 10 % 10)];
  }

  /** Every year has 365 days, and 366 in the years divisible by 4, except those divisible by 100 but not by 400;
      the day more is the 29th of February. */
  lemma YearLength(y: nat)
    ensures DaysBeforeMonth(y, 13) == if y % 400 == 0 || (y % 4 == 0 && y % 100 != 0) then 366 else 365
    ensures MonthLength(y, 2) == if y % 400 == 0 || (y % 4 == 0 && y % 100 != 0) then 29 else 28
    ensures MonthLength(y, 4) == MonthLength(y, 6) == MonthLength(y, 9) == MonthLength(y, 11) == 30
    ensures MonthLength(y, 1) == MonthLength(y, 3) == MonthLength(y, 5) == MonthLength(y, 7) == MonthLength(y, 8) == 31
    ensures MonthLength(y, 10) == MonthLength(y, 12) == 31
  {
    var m, days := 1, 0;
    while m < 13
      invariant 1 <= m <= 13 && days == DaysBeforeMonth(y, m)
      invariant days == m * 30 - 30 + (if m > 2 then MonthLength(y, 2) - 30 else 0) +
                        (if m > 1 then 1 else 0) + (if m > 3 then 1 else 0) + (if m > 5 then 1 else 0) +
                        (if m > 7 then 1 else 0) + (if m > 8 then 1 else 0) + (if m > 10 then 1 else 0) +
                        (if m > 12 then 1 else 0)
    {
      days, m := days + MonthLength(y, m), m + 1;
    }
  }

  // ---- calendar order is timeline order ----

  predicate Earlier(a: DateTime, b: DateTime) {
    a.year < b.year || (a.year == b.year &&
      (a.month < b.month || (a.month == b.month &&
        (a.day < b.day || (a.day == b.day &&
          (a.hour < b.hour || (a.hour == b.hour &&
            (a.minute < b.minute || (a.minute == b.minute && a.second < b.second)))))))))
  }

  lemma {:induction false} LaterMonthStartsLater(y: nat, m: nat, n: nat)
    requires 1 <= m < n
    ensures DaysBeforeMonth(y, m) + MonthLength(y, m) <= DaysBeforeMonth(y, n)
    decreases n - m
  {
    if m + 1 < n {
      LaterMonthStartsLater(y, m + 1, n);
    }
  }

  lemma {:induction false} LaterYearStartsLater(y: nat, z: nat)
    requires 1000 <= y < z
    ensures DaysBeforeYear(y) + DaysBeforeMonth(y, 13) <= DaysBeforeYear(z)
    decreases z - y
  {
    if y + 1 < z {
      LaterYearStartsLater(y + 1, z);
    }
  }

  lemma LaterDayHasLargerNumber(a: DateTime, b: DateTime)
    requires Valid(a) && Valid(b)
    requires a.year < b.year || (a.year == b.year && (a.month < b.month || (a.month == b.month && a.day < b.day)))
    ensures DayNumber(a) < DayNumber(b)
  {
    if a.year < b.year {
      LaterMonthStartsLater(a.year, a.month, 13);
      LaterYearStartsLater(a.year, b.year);
    } else if a.month < b.month {
      LaterMonthStartsLater(a.year, a.month, b.month);
    }
  }

  lemma EarlierIsSmaller(a: DateTime, b: DateTime)
    requires Valid(a) && Valid(b) && Earlier(a, b)
    ensures Instant(a) < Instant(b)
  {
    if a.year != b.year || a.month != b.month || a.day != b.day {
      LaterDayHasLargerNumber(a, b);
    }
  }

  /** One instant, one calendar reading, and the calendar order is the order of instants. */
  lemma CalendarOrder(a: DateTime, b: DateTime)
    requires Valid(a) && Valid(b)
    ensures Earlier(a, b) <==> Instant(a) < Instant(b)
    ensures a == b <==> Instant(a) == Instant(b)
  {
    if Earlier(a, b) {
      EarlierIsSmaller(a, b);
    } else if Earlier(b, a) {
      EarlierIsSmaller(b, a);
    } else {
      assert a == b;
    }
  }

  // ---- the main result: text order is chronological order ----

  /** A decimal field and the separator after it, before some rest. */
  lemma FieldOrder(m: nat, n: nat, width: nat, mark: string, a: string, b: string)
    requires m < Power10(width) && n < Power10(width) && |mark| == 1
    ensures Before(Decimal(m, width) + (mark + a), Decimal(n, width) + (mark + b)) <==>
            m < n || (m == n && Before(a, b))
  {
    DecimalOrder(m, n, width);
    FieldFirst(Decimal(m, width), Decimal(n, width), mark + a, mark + b);
    FieldFirst(mark, mark, a, b);
    BeforeIsIrreflexive(mark);
  }

  lemma FieldWidths()
    ensures Power10(2) == 100 && Power10(4) == 10000
  {
    assert Power10(1) == 10 && Power10(3) == 1000;
  }

  function Clock(t: DateTime): string {
    Decimal(t.hour, 2) + (":" + (Decimal(t.minute, 2) + (":" + (Decimal(t.second, 2) + "Z"))))
  }

  lemma ClockOrder(a: DateTime, b: DateTime)
    requires Valid(a) && Valid(b)
    ensures Before(Clock(a), Clock(b)) <==>
            a.hour < b.hour || (a.hour == b.hour &&
              (a.minute < b.minute || (a.minute == b.minute && a.second < b.second)))
  {
    FieldWidths();
    FieldOrder(a.second, b.second, 2, "Z", "", "");
    assert "Z" + "" == "Z";
    FieldOrder(a.minute, b.minute, 2, ":", Decimal(a.second, 2) + "Z", Decimal(b.second, 2) + "Z");
    FieldOrder(a.hour, b.hour, 2, ":", Decimal(a.minute, 2) + (":" + (Decimal(a.second, 2) + "Z")),
               Decimal(b.minute, 2) + (":" + (Decimal(b.second, 2) + "Z")));
  }

  /** For four-digit years, comparing the texts is comparing the instants. */
  lemma StampOrder(a: DateTime, b: DateTime)
    requires Valid(a) && Valid(b)
    ensures Before(Stamp(a), Stamp(b)) <==> Instant(a) < Instant(b)
    ensures Stamp(a) == Stamp(b) <==> Instant(a) == Instant(b)
  {
    StampOrderOneWay(a, b);
    StampOrderOneWay(b, a);
    CalendarOrder(a, b);
    BeforeIsIrreflexive(Stamp(a));
    BeforeIsTotal(Stamp(a), Stamp(b));
  }

  lemma StampOrderOneWay(a: DateTime, b: DateTime)
    requires Valid(a) && Valid(b)
    ensures Before(Stamp(a), Stamp(b)) <==> Instant(a) < Instant(b)
  {
    FieldWidths();
    CalendarOrder(a, b);
    ClockOrder(a, b);
    FieldOrder(a.day, b.day, 2, "T", Clock(a), Clock(b));
    FieldOrder(a.month, b.month, 2, "-", Decimal(a.day, 2) + ("T" + Clock(a)), Decimal(b.day, 2) + ("T" + Clock(b)));
    FieldOrder(a.year, b.year, 4, "-",
               Decimal(a.month, 2) + ("-" + (Decimal(a.day, 2) + ("T" + Clock(a)))),
               Decimal(b.month, 2) + ("-" + (Decimal(b.day, 2) + ("T" + Clock(b)))));
  }

  // ---- adding hours ----

  /** The next second; None past the last one Python can represent. */
  function NextSecond(t: DateTime): Option<DateTime>
    requires Valid(t)
  {
    if t.second < 59 then Some(t.(second := t.second + 1))
    else if t.minute < 59 then Some(t.(second := 0, minute := t.minute + 1))
    else if t.hour < 23 then Some(t.(second := 0, minute := 0, hour := t.hour + 1))
    else if t.day < MonthLength(t.year, t.month) then Some(t.(second := 0, minute := 0, hour := 0, day := t.day + 1))
    else if t.month < 12 then Some(DateTime(t.year, t.month + 1, 1, 0, 0, 0))
    else if t.year < 9999 then Some(DateTime(t.year + 1, 1, 1, 0, 0, 0))
    else None
  }

  lemma NextSecondIsNext(t: DateTime)
    requires Valid(t) && NextSecond(t).Some?
    ensures Valid(NextSecond(t).value) && Instant(NextSecond(t).value) == Instant(t) + 1
  {
    var n := NextSecond(t).value;
    if n.year != t.year {
      assert DaysBeforeYear(n.year) == DaysBeforeYear(t.year) + DaysBeforeMonth(t.year, 13);
      assert DaysBeforeMonth(t.year, 13) == DaysBeforeMonth(t.year, 12) + 31;
      assert DaysBeforeMonth(n.year, 1) == 0;
    }
  }

  /** Later than every four-digit-year time, where Python overflows. */
  ghost predicate PastTheEnd(instant: int) {
    forall t :: Valid(t) ==> Instant(t) < instant
  }

  lemma LastIsLast(t: DateTime)
    requires Valid(t) && NextSecond(t).None?
    ensures PastTheEnd(Instant(t) + 1)
  {
    forall u | Valid(u) ensures Instant(u) < Instant(t) + 1 {
      CalendarOrder(t, u);
    }
  }

  /** So many seconds later; None exactly when that is past the end. */
  function AddSeconds(t: DateTime, n: nat): (r: Option<DateTime>)
    requires Valid(t)
    ensures r.Some? ==> Valid(r.value) && Instant(r.value) == Instant(t) + n
    ensures r.None? <==> PastTheEnd(Instant(t) + n)
    decreases n
  {
    if n == 0 then Some(t)
    else match NextSecond(t)
      case None => LastIsLast(t); None
      case Some(next) => NextSecondIsNext(t); AddSeconds(next, n - 1)
  }

  // ---- taking hours away ----

  /** The second before; None before the first four-digit year. */
  function SecondBefore(t: DateTime): Option<DateTime>
    requires Valid(t)
  {
    if t.second > 0 then Some(t.(second := t.second - 1))
    else if t.minute > 0 then Some(t.(second := 59, minute := t.minute - 1))
    else if t.hour > 0 then Some(t.(second := 59, minute := 59, hour := t.hour - 1))
    else if t.day > 1 then Some(t.(second := 59, minute := 59, hour := 23, day := t.day - 1))
    else if t.month > 1 then Some(DateTime(t.year, t.month - 1, MonthLength(t.year, t.month - 1), 23, 59, 59))
    else if t.year > 1000 then Some(DateTime(t.year - 1, 12, 31, 23, 59, 59))
    else None
  }

  lemma BackAndOn(t: DateTime)
    requires Valid(t) && SecondBefore(t).Some?
    ensures Valid(SecondBefore(t).value) && NextSecond(SecondBefore(t).value) == Some(t)
  {
  }

  lemma FirstInstant(t: DateTime)
    requires Valid(t) && SecondBefore(t).None?
    ensures Instant(t) == 0
  {
    assert DaysBeforeYear(t.year) == 0 && DaysBeforeMonth(t.year, t.month) == 0;
  }

  /** Going back a second is undone by going on one. */
  lemma SecondBeforeIsBefore(t: DateTime)
    requires Valid(t)
    ensures var b := SecondBefore(t);
            if b.Some? then Valid(b.value) && NextSecond(b.value) == Some(t) && Instant(b.value) == Instant(t) - 1
            else Instant(t) == 0
  {
    if SecondBefore(t).Some? {
      BackAndOn(t);
      NextSecondIsNext(SecondBefore(t).value);
    } else {
      FirstInstant(t);
    }
  }

  /** So many seconds earlier; None exactly when that is before the year 1000. */
  function SubtractSeconds(t: DateTime, n: nat): (r: Option<DateTime>)
    requires Valid(t)
    ensures r.Some? ==> Valid(r.value) && Instant(r.value) == Instant(t) - n
    ensures r.None? <==> Instant(t) - n < 0
    decreases n
  {
    if n == 0 then Some(t)
    else
      SecondBeforeIsBefore(t);
      match SecondBefore(t)
      case None => None
      case Some(before) => SubtractSeconds(before, n - 1)
  }

  /** `default_expiry`: so many hours later, or earlier for a negative number; None where Python overflows
      and where the text would not have a four-digit year. */
  function Expiry(now: DateTime, hours: int): (r: Option<DateTime>)
    requires Valid(now)
    ensures r.Some? ==> Valid(r.value) && Instant(r.value) == Instant(now) + hours * 3600
    ensures r.None? <==> Instant(now) + hours * 3600 < 0 || PastTheEnd(Instant(now) + hours * 3600)
  {
    if hours >= 0 then SinceTheStart(now); AddSeconds(now, hours * 3600)
    else NotPast(now, hours * 3600); SubtractSeconds(now, -hours * 3600)
  }

  lemma NotPast(t: DateTime, n: int)
    requires Valid(t) && n <= 0
    ensures !PastTheEnd(Instant(t) + n)
  {
  }

  lemma SinceTheStart(t: DateTime)
    requires Valid(t)
    ensures Instant(t) >= 0
  {
  }
}
