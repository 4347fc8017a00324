/** The proleptic Gregorian calendar, as the date library used by the time-zone engine and by
    the conditional-restriction test counts it: a serial day number for every (year, month, day),
    and back. Day 0 is 1 January of year 0. */
module Calendar {
  type Month = m: int | 1 <= m <= 12 witness 1
  type Day = d: int | 1 <= d <= 31 witness 1
  type Weekday = w: int | 0 <= w <= 6 witness 0

  datatype Date = Date(year: int, month: Month, day: Day)

  predicate Leap(y: int) {
    y % 4 == 0 && (y % 100 != 0 || y % 400 == 0)
  }

  function DaysInMonth(y: int, m: Month): Day {
    if m == 2 then (if Leap(y) then 29 else 28)
    else if m == 4 || m == 6 || m == 9 || m == 11 then 30
    else 31
  }

  predicate Exists(d: Date) {
    d.day <= DaysInMonth(d.year, d.month)
  }

  /** Days from the epoch to 1 January of y. */
  function YearStart(y: int): int {
    365 * y + (y + 3) / 4 - (y + 99) / 100 + (y + 399) / 400
  }

  /** Days from 1 January to the first of month m. */
  function MonthStart(y: int, m: Month): int {
    var leap := if Leap(y) then 1 else 0;
    if m == 1 then 0 else if m == 2 then 31 else if m == 3 then 59 + leap
    else if m == 4 then 90 + leap else if m == 5 then 120 + leap else if m == 6 then 151 + leap
    else if m == 7 then 181 + leap else if m == 8 then 212 + leap else if m == 9 then 243 + leap
    else if m == 10 then 273 + leap else if m == 11 then 304 + leap else 334 + leap
  }

  function YearLength(y: int): int {
    if Leap(y) then 366 else 365
  }

  /** The serial number of a date. A day past the end of its month counts on into the next one,
      as the library's conversion does. */
  function Serial(d: Date): int {
    YearStart(d.year) + MonthStart(d.year, d.month) + d.day - 1
  }

  function WeekdayOf(serial: int): Weekday {
    (serial + 6) % 7
  }

  lemma FourStep(y: int)
    ensures (y + 4) / 4 == (y + 3) / 4 + (if y % 4 == 0 then 1 else 0)
  {
  }

  lemma HundredStep(y: int)
    ensures (y + 100) / 100 == (y + 99) / 100 + (if y % 100 == 0 then 1 else 0)
  {
  }

  lemma FourHundredStep(y: int)
    ensures (y + 400) / 400 == (y + 399) / 400 + (if y % 400 == 0 then 1 else 0)
  {
  }

  lemma HundredIsFour(y: int)
    ensures y % 100 == 0 ==> y % 4 == 0
  {
    if y % 100 == 0 {
      var q := y / 100;
      assert y == 4 * (25 * q);
    }
  }

  lemma FourHundredIsHundred(y: int)
    ensures y % 400 == 0 ==> y % 100 == 0
  {
    if y % 400 == 0 {
      var q := y / 400;
      assert y == 100 * (4 * q);
    }
  }

  lemma YearStep(y: int)
    ensures YearStart(y + 1) == YearStart(y) + YearLength(y)
  {
    FourStep(y);
    HundredStep(y);
    FourHundredStep(y);
    HundredIsFour(y);
    FourHundredIsHundred(y);
    var z := y + 1;
    assert z + 3 == y + 4 && z + 99 == y + 100 && z + 399 == y + 400;
  }

  /** A year no later than the one that holds the serial day. */
  function YearGuess(serial: int): (y: int)
    ensures YearStart(y) <= serial
  {
    if serial >= 0 then 0 else serial
  }

  function FindYear(serial: int, from: int): (y: int)
    requires YearStart(from) <= serial
    ensures YearStart(y) <= serial < YearStart(y + 1)
    decreases serial - YearStart(from)
  {
    YearStep(from);
    if serial < YearStart(from + 1) then from else FindYear(serial, from + 1)
  }

  function FindMonth(y: int, dayOfYear: int, m: Month): (r: Month)
    requires MonthStart(y, m) <= dayOfYear < YearLength(y)
    ensures MonthStart(y, r) <= dayOfYear < MonthStart(y, r) + DaysInMonth(y, r)
    decreases 12 - m
  {
    if m == 12 || dayOfYear < MonthStart(y, m + 1) then m else FindMonth(y, dayOfYear, m + 1)
  }

  /** The date of a serial day number; the inverse of Serial on dates that exist. */
  function FromSerial(serial: int): (d: Date)
    ensures Exists(d) && Serial(d) == serial
  {
    var y := FindYear(serial, YearGuess(serial));
    YearStep(y);
    var m := FindMonth(y, serial - YearStart(y), 1);
    Date(y, m, serial - YearStart(y) - MonthStart(y, m) + 1)
  }

  lemma {:induction false} YearStartMonotone(y: int, z: int)
    requires y < z
    ensures YearStart(y) + YearLength(y) <= YearStart(z)
    decreases z - y
  {
    YearStep(z - 1);
    if y < z - 1 {
      YearStartMonotone(y, z - 1);
    }
  }

  ghost predicate Before(a: Date, b: Date) {
    a.year < b.year || (a.year == b.year && (a.month < b.month || (a.month == b.month && a.day < b.day)))
  }

  /** Serial numbers order existing dates as the calendar does. */
  lemma SerialOrder(a: Date, b: Date)
    requires Exists(a) && Before(a, b)
    ensures Serial(a) < Serial(b)
  {
    if a.year < b.year {
      YearStartMonotone(a.year, b.year);
    }
  }

  /** Two existing dates with one serial number are one date. */
  lemma SerialInjective(a: Date, b: Date)
    requires Exists(a) && Exists(b) && Serial(a) == Serial(b)
    ensures a == b
  {
    if Before(a, b) {
      SerialOrder(a, b);
    } else if Before(b, a) {
      SerialOrder(b, a);
    }
  }
}
