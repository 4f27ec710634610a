/** Seconds since 1970 as a date and time of day in the Gregorian calendar, UTC. */
module Calendar {
  import opened Common

  const EPOCH: nat := 1970
  const END: nat := 10000

  datatype Date = Date(sec: nat, min: nat, hour: nat, wday: nat, year: nat, yday: nat, mon: nat, mday: nat)

  predicate Leap(y: nat) { y % 4 == 0 && (y % 100 != 0 || y % 400 == 0) }

  function YearDays(y: nat): nat { if Leap(y) then 366 else 365 }

  function MonthDays(y: nat, m: nat): nat
    requires m < 12
  {
    [31, 28, 31, 30, 31, 30, 31, 31, 30, 31, 30, 31][m] + (if m == 1 && Leap(y) then 1 else 0)
  }

  /** The days from the epoch to the first day of year `y`, by counting the leap years before it. */
  function DaysTo(y: nat): int
    requires y >= EPOCH
  {
    var n := y - 1;
    365 * (y - EPOCH) + (n / 4 - n / 100 + n / 400) - 477
  }

  lemma YearStep(y: nat)
    requires y >= EPOCH
    ensures DaysTo(EPOCH) == 0 && DaysTo(y + 1) == DaysTo(y) + YearDays(y)
  {
    EveryFourth(y - 1);
    EveryHundredth(y - 1);
    EveryFourHundredth(y - 1);
  }

  lemma EveryFourth(n: nat)
    ensures (n + 1) / 4 == n / 4 + (if (n + 1) % 4 == 0 then 1 else 0)
  {
  }

  lemma EveryHundredth(n: nat)
    ensures (n + 1) / 100 == n / 100 + (if (n + 1) % 100 == 0 then 1 else 0)
    ensures (n + 1) % 100 == 0 ==> (n + 1) % 4 == 0
  {
  }

  lemma EveryFourHundredth(n: nat)
    ensures (n + 1) / 400 == n / 400 + (if (n + 1) % 400 == 0 then 1 else 0)
    ensures (n + 1) % 400 == 0 ==> (n + 1) % 100 == 0
  {
  }

  /** The days of year `y` before its month `m`. */
  function DaysBefore(y: nat, m: nat): nat
    requires m <= 12
  {
    if m == 0 then 0 else DaysBefore(y, m - 1) + MonthDays(y, m - 1)
  }

  lemma {:induction false} MonthsRise(y: nat, m: nat, m': nat)
    requires m < m' <= 12
    ensures DaysBefore(y, m) + MonthDays(y, m) <= DaysBefore(y, m')
  {
    if m < m' - 1 {
      MonthsRise(y, m, m' - 1);
    }
  }

  lemma {:induction false} YearsRise(y: nat, y': nat)
    requires EPOCH <= y < y'
    ensures DaysTo(y) + YearDays(y) <= DaysTo(y')
  {
    hide DaysTo;
    YearStep(y' - 1);
    if y < y' - 1 {
      YearsRise(y, y' - 1);
    }
  }

  lemma WholeYear(y: nat)
    ensures DaysBefore(y, 12) == YearDays(y)
  {
    var leap := if Leap(y) then 1 else 0;
    assert DaysBefore(y, 1) == 31;
    assert DaysBefore(y, 2) == 59 + leap;
    assert DaysBefore(y, 4) == 120 + leap;
    assert DaysBefore(y, 6) == 181 + leap;
    assert DaysBefore(y, 8) == 243 + leap;
    assert DaysBefore(y, 10) == 304 + leap;
  }

  /** Every field in its range, and those that repeat each other in agreement. */
  predicate Proper(d: Date) {
    && d.sec < 60 && d.min < 60 && d.hour < 24 && EPOCH <= d.year < END && d.mon < 12
    && 1 <= d.mday <= MonthDays(d.year, d.mon) && d.yday == DaysBefore(d.year, d.mon) + d.mday - 1
    && d.wday == (DaysTo(d.year) + d.yday + 4) % 7
  }

  /** The second at which date `d` begins. */
  function Seconds(d: Date): int
    requires d.year >= EPOCH
  {
    ((DaysTo(d.year) + d.yday) * 24 + d.hour) * 3600 + d.min * 60 + d.sec
  }

  /** `mbedtls_platform_gmtime_r`: for every second before year 10000 the proper date that begins then. */
  method GmTime(timer: int) returns (r: Option<Date>)
    ensures r.None? <==> timer < 0 || timer >= DaysTo(END) * 86400
    ensures r.Some? ==> Proper(r.value) && Seconds(r.value) == timer
  {
    if timer < 0 {
      return None;
    }
    var seconds, days := timer, timer / 86400;
    var sec, min, hour := seconds % 60, seconds / 60 % 60, seconds / 3600 % 24;
    var wday := (days + 4) % 7;
    ghost var all := days;
    ClockParts(timer);
    var year := 1970;
    YearStep(1970);
    while year < 10000
      invariant 1970 <= year <= 10000 && days >= 0 && all == DaysTo(year) + days
    {
      var span := if Leap(year) then 366 else 365;
      if days < span {
        break;
      }
      YearStep(year);
      days := days - span;
      year := year + 1;
    }
    if year == 10000 {
      return None;
    }
    YearsRise(year, 10000);
    var yday := days;
    var mon := 0;
    WholeYear(year);
    while mon < 11
      invariant mon <= 11 && 0 <= days && yday == DaysBefore(year, mon) + days
    {
      var span := MonthDays(year, mon);
      if days < span {
        break;
      }
      days := days - span;
      mon := mon + 1;
    }
    r := Some(Date(sec, min, hour, wday, year, yday, mon, days + 1));
  }

  lemma ClockParts(t: nat)
    ensures t == (t / 86400 * 24 + t / 3600 % 24) * 3600 + t / 60 % 60 * 60 + t % 60
  {
    assert t / 60 / 60 == t / 3600 && t / 3600 / 24 == t / 86400;
  }

  /** Proper dates that begin at the same second are the same date, so the conversion has one answer. */
  lemma DatesDiffer(a: Date, b: Date)
    requires Proper(a) && Proper(b) && Seconds(a) == Seconds(b)
    ensures a == b
  {
    hide MonthDays, DaysTo, DaysBefore;
    DayLength(a);
    DayLength(b);
    var da, db := DaysTo(a.year) + a.yday, DaysTo(b.year) + b.yday;
    assert da == db && a.hour == b.hour && a.min == b.min && a.sec == b.sec;
    if a.year < b.year {
      YearsRise(a.year, b.year);
    } else if b.year < a.year {
      YearsRise(b.year, a.year);
    } else if a.mon < b.mon {
      MonthsRise(a.year, a.mon, b.mon);
    } else if b.mon < a.mon {
      MonthsRise(a.year, b.mon, a.mon);
    }
  }

  lemma DayLength(d: Date)
    requires Proper(d)
    ensures d.yday < YearDays(d.year) && DaysTo(d.year) >= 0
  {
    WholeYear(d.year);
    MonthsRise(d.year, d.mon, 12);
    if d.year > EPOCH {
      YearStep(EPOCH);
      YearsRise(EPOCH, d.year);
    } else {
      YearStep(EPOCH);
    }
  }

  /** April, June, September and November have 30 days, February 28 or in a leap year 29, the others 31. */
  lemma MonthLengths(y: nat, m: nat)
    requires m < 12
    ensures MonthDays(y, m) == if m in {3, 5, 8, 10} then 30 else if m != 1 then 31 else if Leap(y) then 29 else 28
  {
    hide Leap;
  }

  /** Every fourth year is a leap year, but of the full centuries every fourth. */
  lemma LeapYears(c: nat, n: nat)
    requires n < 100
    ensures Leap(100 * c + n) <==> if n == 0 then c % 4 == 0 else n % 4 == 0
  {
    var y := 100 * c + n;
    assert y % 4 == n % 4 && y % 100 == n;
    if n == 0 {
      assert y == 400 * (c / 4) + 100 * (c % 4);
      assert y % 400 == 100 * (c % 4);
    }
  }

  /** The first of January 1970 is a Thursday, and each day is the weekday behind that of the day before. */
  lemma WeekdaysFollow(d: Date, e: Date)
    requires Proper(d) && Proper(e)
    ensures Seconds(d) < 86400 ==> d.wday == 4
    ensures Seconds(e) / 86400 == Seconds(d) / 86400 + 1 ==> e.wday == (d.wday + 1) % 7
  {
    hide MonthDays, DaysTo, DaysBefore;
    DayLength(d);
    DayLength(e);
    DayIs(d);
    DayIs(e);
    var n := DaysTo(d.year) + d.yday;
    assert (n + 1 + 4) % 7 == ((n + 4) % 7 + 1) % 7;
  }

  lemma DayIs(d: Date)
    requires Proper(d)
    ensures Seconds(d) / 86400 == DaysTo(d.year) + d.yday
  {
    hide MonthDays, DaysTo, DaysBefore;
    var n, s := DaysTo(d.year) + d.yday, d.hour * 3600 + d.min * 60 + d.sec;
    assert Seconds(d) == n * 86400 + s && 0 <= s < 86400;
  }

  /** The limit of the conversion is the first second of year 10000. */
  lemma LastSecond()
    ensures DaysTo(END) * 86400 == 253402300800
  {
  }
}
