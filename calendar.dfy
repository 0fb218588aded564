/** The hourly calendar of one year, as pandas builds it with
    `date_range(Jan 1 00:00, Dec 31 23:00, freq="h")`, and the Feb-29
    removal both the reader and the validator apply to 8784-row tables. */
module Calendar {

  /** A timestamp already floored to the hour. */
  datatype Stamp = Stamp(year: int, month: int, day: int, hour: int)

  /** A parsed timestamp before flooring: the hour it falls in and the
      minutes and seconds past that hour. */
  datatype Instant = Instant(hourStart: Stamp, minute: nat, second: nat)

  /** pandas `dt.floor("h")`. */
  function FloorHour(t: Instant): Stamp { t.hourStart }

  /** Gregorian leap-year rule. */
  predicate IsLeap(y: int)
  {
    y % 4 == 0 && (y % 100 != 0 || y % 400 == 0)
  }

  function DaysInMonth(y: int, m: int): (n: int)
    requires 1 <= m <= 12
    ensures 28 <= n <= 31
  {
    if m == 2 then (if IsLeap(y) then 29 else 28)
    else if m == 4 || m == 6 || m == 9 || m == 11 then 30
    else 31
  }

  function DaysInYear(y: int): int { if IsLeap(y) then 366 else 365 }

  function HoursInYear(y: int): int { 24 * DaysInYear(y) }

  /** Days of year `y` before the first day of month `m` (m = 13 gives the
      length of the year). */
  function DaysBefore(y: int, m: int): (n: int)
    requires 1 <= m <= 13
    ensures m == 13 ==> n == DaysInYear(y)
  {
    var feb := if IsLeap(y) then 29 else 28;
    if m == 1 then 0 else if m == 2 then 31 else if m == 3 then 31 + feb
    else if m == 4 then 62 + feb else if m == 5 then 92 + feb else if m == 6 then 123 + feb
    else if m == 7 then 153 + feb else if m == 8 then 184 + feb else if m == 9 then 215 + feb
    else if m == 10 then 245 + feb else if m == 11 then 276 + feb else if m == 12 then 306 + feb
    else 337 + feb
  }

  lemma DaysBeforeNext(y: int, m: int)
    requires 1 <= m <= 12
    ensures DaysBefore(y, m) + DaysInMonth(y, m) == DaysBefore(y, m + 1)
  {
  }

  /** A leap year and a common year agree on January and February; from
      March on every month starts one day later in the leap year. */
  lemma LeapDaysBefore(l: int, c: int, m: int)
    requires IsLeap(l) && !IsLeap(c) && 1 <= m <= 12
    ensures m <= 2 ==> DaysBefore(l, m) == DaysBefore(c, m)
    ensures m >= 3 ==> DaysBefore(l, m) == DaysBefore(c, m) + 1 && DaysInMonth(l, m) == DaysInMonth(c, m)
  {
  }

  lemma {:induction false} DaysBeforeMonotone(y: int, m1: int, m2: int)
    requires 1 <= m1 < m2 <= 13
    ensures DaysBefore(y, m1) + DaysInMonth(y, m1) <= DaysBefore(y, m2)
    decreases m2 - m1
  {
    DaysBeforeNext(y, m1);
    if m1 + 1 < m2 {
      DaysBeforeMonotone(y, m1 + 1, m2);
    }
  }

  predicate ValidStamp(s: Stamp)
  {
    1 <= s.month <= 12 && 1 <= s.day <= DaysInMonth(s.year, s.month) && 0 <= s.hour < 24
  }

  /** Zero-based position of a timestamp's hour in its year. */
  function HourOfYear(s: Stamp): (i: int)
    requires ValidStamp(s)
    ensures 0 <= i < HoursInYear(s.year)
  {
    DaysBeforeMonotone(s.year, s.month, 13);
    (DaysBefore(s.year, s.month) + s.day - 1) * 24 + s.hour
  }

  /** The month containing zero-based day `d` of year `y`, searched from `m`. */
  function MonthOfDay(y: int, d: int, m: int): (r: int)
    requires 1 <= m <= 12 && DaysBefore(y, m) <= d < DaysInYear(y)
    ensures m <= r <= 12 && DaysBefore(y, r) <= d < DaysBefore(y, r) + DaysInMonth(y, r)
    decreases 12 - m
  {
    if m == 12 || d < DaysBefore(y, m + 1) then m else MonthOfDay(y, d, m + 1)
  }

  /** Days before March fall in January or February; from March on, in
      March or later; day 59 of a leap year is Feb 29. */
  lemma MonthOfDayAroundMarch(y: int, d: int)
    requires 0 <= d < DaysInYear(y)
    ensures var m := MonthOfDay(y, d, 1);
      && (d < DaysBefore(y, 3) ==> m <= 2)
      && (d >= DaysBefore(y, 3) ==> m >= 3)
      && (IsLeap(y) && d == 59 ==> m == 2 && d - DaysBefore(y, m) + 1 == 29)
  {
    var m := MonthOfDay(y, d, 1);
    if m >= 3 && d < DaysBefore(y, 3) {
      if m > 3 { DaysBeforeMonotone(y, 3, m); }
    }
    if m <= 2 && d >= DaysBefore(y, 3) {
      DaysBeforeMonotone(y, m, 3);
    }
  }

  /** Only one month brackets a given day. */
  lemma MonthUnique(y: int, d: int, m1: int, m2: int)
    requires 1 <= m1 <= 12 && 1 <= m2 <= 12
    requires DaysBefore(y, m1) <= d < DaysBefore(y, m1) + DaysInMonth(y, m1)
    requires DaysBefore(y, m2) <= d < DaysBefore(y, m2) + DaysInMonth(y, m2)
    ensures m1 == m2
  {
    if m1 < m2 { DaysBeforeMonotone(y, m1, m2); }
    if m2 < m1 { DaysBeforeMonotone(y, m2, m1); }
  }

  /** The timestamp at zero-based hour `i` of year `y`. */
  function StampAt(y: int, i: int): (s: Stamp)
    requires 0 <= i < HoursInYear(y)
    ensures ValidStamp(s) && s.year == y && HourOfYear(s) == i
  {
    var d := i / 24;
    var m := MonthOfDay(y, d, 1);
    Stamp(y, m, d - DaysBefore(y, m) + 1, i % 24)
  }

  lemma StampAtHourOfYear(s: Stamp)
    requires ValidStamp(s)
    ensures StampAt(s.year, HourOfYear(s)) == s
  {
    var y, i := s.year, HourOfYear(s);
    var d := i / 24;
    assert d == DaysBefore(y, s.month) + s.day - 1;
    DaysBeforeMonotone(y, s.month, 13);
    MonthUnique(y, d, MonthOfDay(y, d, 1), s.month);
  }

  /** Chronological order of timestamps. */
  predicate Before(a: Stamp, b: Stamp)
  {
    a.year < b.year
    || (a.year == b.year && (a.month < b.month
    || (a.month == b.month && (a.day < b.day
    || (a.day == b.day && a.hour < b.hour)))))
  }

  /** Within one year, chronological order is the order of hour positions. */
  lemma BeforeIffHourOfYear(a: Stamp, b: Stamp)
    requires ValidStamp(a) && ValidStamp(b) && a.year == b.year
    ensures Before(a, b) <==> HourOfYear(a) < HourOfYear(b)
  {
    if a.month < b.month {
      DaysBeforeMonotone(a.year, a.month, b.month);
    } else if b.month < a.month {
      DaysBeforeMonotone(a.year, b.month, a.month);
    }
  }

  /** `expected_hourly_index(year)`. */
  function ExpectedHourlyIndex(y: int): (r: seq<Stamp>)
    ensures |r| == HoursInYear(y)
    ensures forall i :: 0 <= i < |r| ==> r[i] == StampAt(y, i)
  {
    seq(HoursInYear(y), i requires 0 <= i < HoursInYear(y) => StampAt(y, i))
  }

  /** The expected index runs from Jan 1 00:00 to Dec 31 23:00, has 8760
      entries in a common year and 8784 in a leap year, is strictly
      increasing, and holds every hour of the year. */
  lemma ExpectedHourlyIndexSpec(y: int)
    ensures var r := ExpectedHourlyIndex(y);
      && |r| == (if IsLeap(y) then 8784 else 8760)
      && r[0] == Stamp(y, 1, 1, 0)
      && r[|r| - 1] == Stamp(y, 12, 31, 23)
      && (forall i, j :: 0 <= i < j < |r| ==> Before(r[i], r[j]))
      && (forall i :: 0 <= i < |r| ==> ValidStamp(r[i]) && r[i].year == y)
      && (forall s :: ValidStamp(s) && s.year == y ==> s in r)
  {
    var r := ExpectedHourlyIndex(y);
    StampAtHourOfYear(Stamp(y, 1, 1, 0));
    StampAtHourOfYear(Stamp(y, 12, 31, 23));
    forall i, j | 0 <= i < j < |r| ensures Before(r[i], r[j]) {
      BeforeIffHourOfYear(r[i], r[j]);
    }
    forall s | ValidStamp(s) && s.year == y ensures s in r {
      StampAtHourOfYear(s);
      assert r[HourOfYear(s)] == s;
    }
  }

  predicate IsFeb29(s: Stamp) { s.month == 2 && s.day == 29 }

  /** The rows whose timestamp is not Feb 29, in their original order. */
  function RemoveFeb29<T(!new)>(rows: seq<T>, stampOf: T -> Stamp): (r: seq<T>)
    ensures |r| <= |rows|
    ensures forall x :: x in r ==> x in rows && !IsFeb29(stampOf(x))
    ensures forall x :: x in rows && !IsFeb29(stampOf(x)) ==> x in r
  {
    if rows == [] then []
    else
      var rest := RemoveFeb29(rows[1..], stampOf);
      assert forall x :: x in rows <==> x == rows[0] || x in rows[1..];
      if IsFeb29(stampOf(rows[0])) then rest else [rows[0]] + rest
  }

  lemma {:induction false} RemoveFeb29Append<T(!new)>(a: seq<T>, b: seq<T>, stampOf: T -> Stamp)
    ensures RemoveFeb29(a + b, stampOf) == RemoveFeb29(a, stampOf) + RemoveFeb29(b, stampOf)
  {
    if a != [] {
      var ab := a + b;
      assert ab[0] == a[0] && ab[1..] == a[1..] + b;
      RemoveFeb29Append(a[1..], b, stampOf);
      var head := if IsFeb29(stampOf(a[0])) then [] else [a[0]];
      assert RemoveFeb29(ab, stampOf) == head + RemoveFeb29(ab[1..], stampOf);
      assert RemoveFeb29(a, stampOf) == head + RemoveFeb29(a[1..], stampOf);
    } else {
      assert a + b == b;
    }
  }

  lemma {:induction false} RemoveFeb29None<T(!new)>(a: seq<T>, stampOf: T -> Stamp)
    requires forall i :: 0 <= i < |a| ==> !IsFeb29(stampOf(a[i]))
    ensures RemoveFeb29(a, stampOf) == a
  {
    if a != [] { RemoveFeb29None(a[1..], stampOf); }
  }

  lemma {:induction false} RemoveFeb29All<T(!new)>(a: seq<T>, stampOf: T -> Stamp)
    requires forall i :: 0 <= i < |a| ==> IsFeb29(stampOf(a[i]))
    ensures RemoveFeb29(a, stampOf) == []
  {
    if a != [] { RemoveFeb29All(a[1..], stampOf); }
  }

  function StampOfStamp(s: Stamp): Stamp { s }

  /** In a leap year the hour at position i is on Feb 29 exactly when
      1416 <= i < 1440. */
  lemma LeapFeb29Hours(y: int, i: int)
    requires IsLeap(y) && 0 <= i < HoursInYear(y)
    ensures IsFeb29(StampAt(y, i)) <==> 1416 <= i < 1440
  {
    MonthOfDayAroundMarch(y, i / 24);
  }

  /** In a leap year, Feb 29 is exactly hours 1416..1439, so removing it from
      the expected index leaves 8760 hours: the index without those 24. */
  lemma LeapIndexWithoutFeb29(y: int)
    requires IsLeap(y)
    ensures var r := ExpectedHourlyIndex(y);
      RemoveFeb29(r, StampOfStamp) == r[..1416] + r[1440..]
      && |RemoveFeb29(r, StampOfStamp)| == 8760
  {
    var r := ExpectedHourlyIndex(y);
    assert |r| == 8784;
    var a, b, c := r[..1416], r[1416..1440], r[1440..];
    assert r == a + b + c;
    forall i | 0 <= i < |a| ensures !IsFeb29(a[i]) {
      LeapFeb29Hours(y, i);
    }
    forall i | 0 <= i < |b| ensures IsFeb29(b[i]) {
      LeapFeb29Hours(y, 1416 + i);
    }
    forall i | 0 <= i < |c| ensures !IsFeb29(c[i]) {
      LeapFeb29Hours(y, 1440 + i);
    }
    RemoveFeb29Append(a + b, c, StampOfStamp);
    RemoveFeb29Append(a, b, StampOfStamp);
    RemoveFeb29None(a, StampOfStamp);
    RemoveFeb29All(b, StampOfStamp);
    RemoveFeb29None(c, StampOfStamp);
    var ra, rb, rc := RemoveFeb29(a, StampOfStamp), RemoveFeb29(b, StampOfStamp), RemoveFeb29(c, StampOfStamp);
    assert RemoveFeb29(a + b, StampOfStamp) == ra + rb == a + [] == a;
    assert RemoveFeb29(r, StampOfStamp) == a + rc == a + c;
  }

  /** From March on, a day of a leap year sits in the same month, and has
      the same day number, as the previous day-of-year of a common year. */
  lemma LeapShift(l: int, c: int, d: int)
    requires IsLeap(l) && !IsLeap(c) && 59 <= d < 365
    ensures var m := MonthOfDay(c, d, 1);
      MonthOfDay(l, d + 1, 1) == m && d + 1 - DaysBefore(l, m) == d - DaysBefore(c, m)
  {
    var m := MonthOfDay(c, d, 1);
    MonthOfDayAroundMarch(c, d);
    LeapDaysBefore(l, c, m);
    MonthUnique(l, d + 1, MonthOfDay(l, d + 1, 1), m);
  }

  /** Before March, a leap year and a common year share their calendar. */
  lemma EarlyDays(l: int, c: int, d: int)
    requires IsLeap(l) && !IsLeap(c) && 0 <= d < 59
    ensures var m := MonthOfDay(c, d, 1);
      MonthOfDay(l, d, 1) == m && DaysBefore(l, m) == DaysBefore(c, m)
  {
    var m := MonthOfDay(c, d, 1);
    MonthOfDayAroundMarch(c, d);
    LeapDaysBefore(l, c, m);
    MonthUnique(l, d, MonthOfDay(l, d, 1), m);
  }

  /** A leap year's hourly calendar with Feb 29 removed has exactly the
      (month, day, hour) sequence of a common year's calendar. */
  lemma LeapWithoutFeb29MatchesCommonYear(l: int, c: int)
    requires IsLeap(l) && !IsLeap(c)
    ensures var a := RemoveFeb29(ExpectedHourlyIndex(l), StampOfStamp);
      var b := ExpectedHourlyIndex(c);
      |a| == |b| == 8760
      && forall i :: 0 <= i < 8760 ==>
           a[i].month == b[i].month && a[i].day == b[i].day && a[i].hour == b[i].hour
  {
    LeapIndexWithoutFeb29(l);
    var r := ExpectedHourlyIndex(l);
    var a := RemoveFeb29(r, StampOfStamp);
    var b := ExpectedHourlyIndex(c);
    forall i | 0 <= i < 8760
      ensures a[i].month == b[i].month && a[i].day == b[i].day && a[i].hour == b[i].hour
    {
      if i < 1416 {
        assert a[i] == StampAt(l, i);
        EarlyDays(l, c, i / 24);
      } else {
        assert a[i] == r[i + 24] == StampAt(l, i + 24);
        assert (i + 24) / 24 == i / 24 + 1 && (i + 24) % 24 == i % 24;
        LeapShift(l, c, i / 24);
      }
    }
  }
}
