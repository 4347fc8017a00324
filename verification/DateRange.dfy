/** The test of a conditional restriction: does a moment fall into a range of dates, which may wrap
    around the end of the year, at a time of day that may wrap around midnight, on one of the given
    days of the week? The ends of the range are days of the year (kYMD), or weekdays such as the
    first Saturday of a month (kNthDow), or one of each. */
module DateRange {
  import opened Calendar

  /** A day of the year. As the end of a range, day 0 is the last day of the month before. */
  datatype MonthDay = MonthDay(month: Month, day: nat)

  /** A day that some year has, or 0; 29 February is one. */
  predicate IsReal(d: MonthDay) {
    d.day <= DaysInMonth(2000, d.month)
  }

  function DayOf(year: int, d: MonthDay): int {
    YearStart(year) + MonthStart(year, d.month) + d.day - 1
  }

  function Of(d: Date): MonthDay {
    MonthDay(d.month, d.day)
  }

  predicate NotAfter(a: MonthDay, b: MonthDay) {
    a.month < b.month || (a.month == b.month && a.day <= b.day)
  }

  /** The cyclic interval: from begin through end, over the end of the year if end comes first. */
  predicate InCycle(begin: MonthDay, end: MonthDay, d: MonthDay) {
    if NotAfter(begin, end) then NotAfter(begin, d) && NotAfter(d, end)
    else NotAfter(begin, d) || NotAfter(d, end)
  }

  /** The same for months. */
  predicate MonthInCycle(begin: Month, end: Month, m: Month) {
    if begin <= end then begin <= m <= end else begin <= m || m <= end
  }

  /** The end of the range is 29 February, the year has none, and so 1 March counts as well. */
  predicate LeapsOver(begin: MonthDay, end: MonthDay, today: Date) {
    end == MonthDay(2, 29) && !Leap(today.year) && Of(today) == MonthDay(3, 1) && begin.month != 3
  }

  // ----- Dates of one year and of the years beside it.

  lemma SameYear(d: MonthDay, today: Date)
    requires IsReal(d) && Exists(today)
    ensures d.day > 0 ==> (DayOf(today.year, d) <= Serial(today) <==> NotAfter(d, Of(today)))
    ensures Serial(today) <= DayOf(today.year, d)
            <==> NotAfter(Of(today), d) || (d == MonthDay(2, 29) && !Leap(today.year) && Of(today) == MonthDay(3, 1))
  {
    if d.month < today.month {
      MonthsApart(today.year, d.month, today.month);
    } else if today.month < d.month {
      MonthsApart(today.year, today.month, d.month);
    }
  }

  lemma MonthsApart(year: int, m: Month, n: Month)
    requires m < n
    ensures MonthStart(year, m) + DaysInMonth(year, m) <= MonthStart(year, n)
  {
  }

  lemma AcrossYears(d: MonthDay, year: int, today: Date)
    requires IsReal(d) && Exists(today)
    ensures year < today.year ==> DayOf(year, d) < Serial(today)
    ensures year > today.year ==> DayOf(year, d) >= Serial(today) && (d.day > 0 ==> DayOf(year, d) > Serial(today))
  {
    SerialInYear(today.year, Of(today));
    SerialInYear(year, d);
    if year < today.year {
      YearStartMonotone(year, today.year);
    } else if year > today.year {
      YearStartMonotone(today.year, year);
    }
  }

  lemma SerialInYear(year: int, d: MonthDay)
    requires IsReal(d)
    ensures YearStart(year) - 1 <= DayOf(year, d) < YearStart(year) + YearLength(year)
    ensures d.day > 0 ==> YearStart(year) <= DayOf(year, d)
  {
  }

  // ----- Weekdays of a month.

  /** One end of a range: a day of the month, or in week 1 to 5 the n-th weekday of it, where day 1 is
      Sunday, and so is day 8. Without a day, the day is 0. */
  datatype Bound = Bound(month: Month, day: nat, week: nat)

  predicate IsBound(b: Bound) {
    if IsNth(b) then b.day <= 8 else IsReal(MonthDay(b.month, b.day))
  }

  predicate IsNth(b: Bound) {
    1 <= b.week <= 5
  }

  /** The days from one weekday to the next that is another. */
  function DaysTo(v: Weekday, w: Weekday): nat {
    if w >= v then w - v else w - v + 7
  }

  /** The first day from the given one on that is such a weekday. */
  function NextOn(day: int, w: Weekday): (r: int)
    ensures day <= r < day + 7 && WeekdayOf(r) == w
  {
    var r := day + DaysTo(WeekdayOf(day), w);
    assert r + 6 == 7 * ((day + 6) / 7) + WeekdayOf(day) + DaysTo(WeekdayOf(day), w);
    r
  }

  lemma WeeksOn(day: int, k: int)
    ensures WeekdayOf(day + 7 * k) == WeekdayOf(day)
  {
    var q := (day + 6) / 7;
    assert day + 7 * k + 6 == 7 * (q + k) + WeekdayOf(day);
  }

  /** The weekday that a number stands for, as the date library counts one less. */
  function Numbered(weekday: nat): Weekday
    requires 1 <= weekday <= 8
  {
    if weekday == 8 then 0 else weekday - 1
  }

  /** Sunday is 1, and 8 as well; Saturday is 7. */
  lemma NumberedDays(weekday: nat)
    requires 1 <= weekday <= 8
    ensures Numbered(weekday) == (weekday + 6) % 7
  {
  }

  /** The first of the weekday in the month. */
  function FirstOf(year: int, month: Month, weekday: nat): int
    requires 1 <= weekday <= 8
  {
    NextOn(DayOf(year, MonthDay(month, 1)), Numbered(weekday))
  }

  predicate HasFifth(year: int, month: Month, weekday: nat)
    requires 1 <= weekday <= 8
  {
    FirstOf(year, month, weekday) + 28 < DayOf(year, MonthDay(month, 1)) + DaysInMonth(year, month)
  }

  /** The day that a range begins with: the fifth weekday is the fourth in a month without it. */
  function BeginDay(year: int, b: Bound): int
    requires IsNth(b) ==> 1 <= b.day <= 8
  {
    if IsNth(b) then
      var week := if b.week == 5 && !HasFifth(year, b.month, b.day) then 4 else b.week;
      FirstOf(year, b.month, b.day) + 7 * (week - 1)
    else DayOf(year, MonthDay(b.month, b.day))
  }

  /** The day that it ends with: here the fourth weekday is worked out as well, but not used. */
  function EndDay(year: int, b: Bound): int
    requires IsNth(b) ==> 1 <= b.day <= 8
  {
    if IsNth(b) then FirstOf(year, b.month, b.day) + 7 * (b.week - 1) else DayOf(year, MonthDay(b.month, b.day))
  }

  /** In weeks 1 to 4 both ends are the day of the n-th seven days of the month that is the weekday: 1 for
      Sunday to 7 for Saturday, and 8 for Sunday. The end is so in week 5, whether or not that is still
      in the month. Without a week they are the day itself. */
  lemma NthDay(year: int, b: Bound)
    requires IsBound(b) && b.day > 0
    ensures var first := Serial(Date(year, b.month, 1));
            if b.week == 0 then BeginDay(year, b) == EndDay(year, b) == first + b.day - 1
            else if b.week <= 5 then
              && 7 * (b.week - 1) <= EndDay(year, b) - first < 7 * b.week && WeekdayOf(EndDay(year, b)) == (b.day + 6) % 7
              && (b.week < 5 ==> BeginDay(year, b) == EndDay(year, b))
            else BeginDay(year, b) == EndDay(year, b) == first + b.day - 1
  {
    if IsNth(b) {
      NumberedDays(b.day);
      WeeksOn(FirstOf(year, b.month, b.day), b.week - 1);
    }
  }

  /** The fifth weekday at the beginning of a range is the last one of the month. */
  lemma FifthIsLast(year: int, b: Bound)
    requires b.week == 5 && 1 <= b.day <= 8
    ensures WeekdayOf(BeginDay(year, b)) == Numbered(b.day)
    ensures var next := DayOf(year, MonthDay(b.month, 1)) + DaysInMonth(year, b.month);
            next - 7 <= BeginDay(year, b) < next
  {
    WeeksOn(FirstOf(year, b.month, b.day), 3);
    WeeksOn(FirstOf(year, b.month, b.day), 4);
  }

  /** At the end of a range it is so exactly in months that have five of them; in others it is the
      first one of the month after. */
  lemma FifthRunsOver(year: int, b: Bound)
    requires b.week == 5 && 1 <= b.day <= 8
    ensures EndDay(year, b) == BeginDay(year, b) + (if HasFifth(year, b.month, b.day) then 0 else 7)
    ensures EndDay(year, b) < DayOf(year, MonthDay(b.month, 1)) + DaysInMonth(year, b.month) <==> HasFifth(year, b.month, b.day)
  {
  }

  lemma BoundInYear(year: int, b: Bound)
    requires IsBound(b) && b.day > 0
    ensures var first := DayOf(year, MonthDay(b.month, 1));
            && first <= BeginDay(year, b) <= first + 30 && BeginDay(year, b) <= EndDay(year, b)
            && (IsNth(b) ==> BeginDay(year, b) < first + DaysInMonth(year, b.month))
  {
  }

  // ----- The date test.

  /** What is tested for two days of the year; without a day, a range of whole months. */
  predicate InYearRange(begin: MonthDay, end: MonthDay, today: Date) {
    if begin.day == 0 then end.day > 0 || MonthInCycle(begin.month, end.month, today.month)
    else InCycle(begin, end, Of(today)) || LeapsOver(begin, end, today)
  }

  /** What is tested for weekdays. Within one month the given day numbers, of weekdays or of days,
      tell whether the range wraps around. */
  predicate InNthRange(begin: Bound, end: Bound, today: Date)
    requires IsBound(begin) && IsBound(end)
  {
    if begin.day == 0 || end.day == 0 then true else
    var b, e, t := BeginDay(today.year, begin), EndDay(today.year, end), Serial(today);
    if begin.month < end.month then b <= t <= e
    else if begin.month > end.month then if today.month < begin.month then t <= e else b <= t
    else if begin.day > end.day then b <= t || t <= e
    else b <= t <= e
  }

  predicate InDates(nth: bool, begin: Bound, end: Bound, today: Date)
    requires IsBound(begin) && IsBound(end)
  {
    if nth then InNthRange(begin, end, today)
    else InYearRange(MonthDay(begin.month, begin.day), MonthDay(end.month, end.day), today)
  }

  /** The years that the two days are looked for in. */
  function Years(begin: Bound, end: Bound, today: Date): (int, int) {
    var y := today.year;
    if begin.month <= end.month then (y, y)
    else if begin.month > today.month then (y - 1, y)
    else (y, y + 1)
  }

  /** The comparisons that the source makes, by serial days. */
  predicate Compared(b: int, e: int, year: int, edgeCase: bool, t: int) {
    if edgeCase then (b <= t <= DayOf(year, MonthDay(12, 31))) || (DayOf(year, MonthDay(1, 1)) <= t <= e)
    else b <= t <= e
  }

  lemma TodayInYear(today: Date)
    requires Exists(today)
    ensures DayOf(today.year, MonthDay(1, 1)) <= Serial(today) <= DayOf(today.year, MonthDay(12, 31))
  {
    SerialInYear(today.year, Of(today));
  }

  /** For days of the year, the choice of years makes one cyclic interval of it. */
  lemma YearRange(begin: MonthDay, end: MonthDay, today: Date)
    requires IsReal(begin) && IsReal(end) && begin.day > 0 && Exists(today)
    ensures var (bYear, eYear) := Years(Bound(begin.month, begin.day, 0), Bound(end.month, end.day, 0), today);
            Compared(DayOf(bYear, begin), DayOf(eYear, end), bYear, begin.month == end.month && begin.day > end.day, Serial(today))
            <==> InCycle(begin, end, Of(today)) || LeapsOver(begin, end, today)
  {
    if begin.month <= end.month {
      WithinYear(begin, end, today);
    } else if begin.month > today.month {
      SameYear(end, today);
      YearsBeside(begin, end, today);
    } else {
      SameYear(begin, today);
      YearsBeside(begin, end, today);
    }
  }

  lemma WithinYear(begin: MonthDay, end: MonthDay, today: Date)
    requires IsReal(begin) && IsReal(end) && begin.day > 0 && Exists(today) && begin.month <= end.month
    ensures Compared(DayOf(today.year, begin), DayOf(today.year, end), today.year, begin.month == end.month && begin.day > end.day,
                     Serial(today))
            <==> InCycle(begin, end, Of(today)) || LeapsOver(begin, end, today)
  {
    SameYear(begin, today);
    SameYear(end, today);
    TodayInYear(today);
  }

  lemma YearsBeside(begin: MonthDay, end: MonthDay, today: Date)
    requires IsReal(begin) && IsReal(end) && begin.day > 0 && Exists(today)
    ensures DayOf(today.year - 1, begin) <= Serial(today) <= DayOf(today.year + 1, end)
  {
    AcrossYears(begin, today.year - 1, today);
    AcrossYears(end, today.year + 1, today);
  }

  lemma MonthRange(begin: Month, end: Month, today: Date)
    requires Exists(today)
    ensures var b, e := MonthDay(begin, 1), MonthDay(end, DaysInMonth(today.year, end));
            InCycle(b, e, Of(today)) || LeapsOver(b, e, today) <==> MonthInCycle(begin, end, today.month)
  {
  }

  /** For weekdays, a day of the year before is past and one of the year after is to come. */
  lemma NthRange(begin: Bound, end: Bound, today: Date)
    requires IsBound(begin) && IsBound(end) && begin.day > 0 && end.day > 0 && Exists(today)
    ensures var (bYear, eYear) := Years(begin, end, today);
            Compared(BeginDay(bYear, begin), EndDay(eYear, end), bYear, begin.month == end.month && begin.day > end.day, Serial(today))
            <==> InNthRange(begin, end, today)
  {
    if begin.month <= end.month {
      TodayInYear(today);
    } else if begin.month > today.month {
      BeginsBefore(begin, today);
    } else {
      EndsAfter(end, today);
    }
  }

  lemma BeginsBefore(b: Bound, today: Date)
    requires IsBound(b) && b.day > 0 && Exists(today)
    ensures BeginDay(today.year - 1, b) < Serial(today)
  {
    var y := today.year - 1;
    BoundInYear(y, b);
    if IsNth(b) {
      AcrossYears(MonthDay(b.month, DaysInMonth(y, b.month)), y, today);
    } else {
      AcrossYears(MonthDay(b.month, b.day), y, today);
    }
  }

  lemma EndsAfter(e: Bound, today: Date)
    requires IsBound(e) && e.day > 0 && Exists(today)
    ensures EndDay(today.year + 1, e) > Serial(today)
  {
    var y := today.year + 1;
    BoundInYear(y, e);
    AcrossYears(MonthDay(e.month, 1), y, today);
  }

  /** The date part. */
  method InDateRange(nth: bool, begin: Bound, end: Bound, today: Date) returns (r: bool)
    requires IsBound(begin) && IsBound(end) && (!nth ==> !IsNth(begin) && !IsNth(end)) && Exists(today)
    ensures r <==> InDates(nth, begin, end, today)
  {
    var b, e := begin, end;
    if !nth && b.day == 0 && e.day == 0 {
      MonthRange(b.month, e.month, today);
      b := b.(day := 1);
      e := e.(day := DaysInMonth(today.year, e.month));
    }
    if (!nth && b.day > 0) || (nth && b.day > 0 && e.day > 0) {
      if nth {
        NthRange(b, e, today);
      } else {
        YearRange(MonthDay(b.month, b.day), MonthDay(e.month, e.day), today);
      }
      r := CompareDays(b, e, today);
    } else {
      r := true;
    }
  }

  method CompareDays(b: Bound, e: Bound, today: Date) returns (r: bool)
    requires (IsNth(b) ==> 1 <= b.day <= 8) && (IsNth(e) ==> 1 <= e.day <= 8)
    ensures var (bYear, eYear) := Years(b, e, today);
            r <==> Compared(BeginDay(bYear, b), EndDay(eYear, e), bYear, b.month == e.month && b.day > e.day, Serial(today))
  {
    var edgeCase := false;
    var bYear, eYear := today.year, today.year;
    if b.month == e.month {
      if b.day > e.day {
        edgeCase := true;
      }
    } else if b.month > e.month {
      if b.month > today.month {
        bYear := today.year - 1;
      } else {
        eYear := today.year + 1;
      }
    }
    var begin, end, t := BeginDay(bYear, b), EndDay(eYear, e), Serial(today);
    if edgeCase {
      var yearEnd, yearBegin := DayOf(bYear, MonthDay(12, 31)), DayOf(bYear, MonthDay(1, 1));
      r := (begin <= t && t <= yearEnd) || (yearBegin <= t && t <= end);
    } else {
      r := begin <= t && t <= end;
    }
  }

  /** The date test is the cyclic interval exactly if it is not 1 March of a year without the
      29 February at which the range ends; the two differ, for instance, on 1 March 2023. */
  lemma CyclicUnlessLeapsOver(begin: MonthDay, end: MonthDay, today: Date)
    requires IsReal(begin) && IsReal(end) && begin.day > 0 && Exists(today)
    ensures (InYearRange(begin, end, today) <==> InCycle(begin, end, Of(today))) <==> !LeapsOver(begin, end, today)
    ensures LeapsOver(MonthDay(2, 1), MonthDay(2, 29), Date(2023, 3, 1))
  {
  }

  /** The interval by the places of the days in a year with all of them. */
  lemma CycleByPlaces(begin: MonthDay, end: MonthDay, d: MonthDay)
    requires IsReal(begin) && IsReal(end) && IsReal(d) && begin.day > 0 && end.day > 0 && d.day > 0
    ensures var b, e, t := Serial(Date(2000, begin.month, begin.day)), Serial(Date(2000, end.month, end.day)), Serial(Date(2000, d.month, d.day));
            InCycle(begin, end, d) <==> if b <= e then b <= t <= e else b <= t || t <= e
  {
    SameYear(begin, Date(2000, end.month, end.day));
    SameYear(begin, Date(2000, d.month, d.day));
    SameYear(d, Date(2000, end.month, end.day));
  }

  /** The cyclic interval of two days of a year. */
  predicate DayInCycle(begin: int, end: int, t: int) {
    if begin <= end then begin <= t <= end else begin <= t || t <= end
  }

  /** The day that the end of a range stands for: in week 5 the last such weekday of its month. */
  function LastDay(year: int, e: Bound): int
    requires IsNth(e) ==> 1 <= e.day <= 8
  {
    if IsNth(e) then BeginDay(year, e) else EndDay(year, e)
  }

  predicate InMonth(year: int, m: Month, t: int) {
    DayOf(year, MonthDay(m, 1)) <= t < DayOf(year, MonthDay(m, 1)) + DaysInMonth(year, m)
  }

  lemma MonthsInOrder(year: int, m: Month, s: int, n: Month, t: int)
    requires InMonth(year, m, s) && InMonth(year, n, t)
    ensures (m < n ==> s < t) && (n < m ==> t < s)
  {
    if m < n {
      MonthsApart(year, m, n);
    } else if n < m {
      MonthsApart(year, n, m);
    }
  }

  /** The bound is a day that the year has. */
  predicate Has(year: int, b: Bound) {
    IsBound(b) && b.day > 0 && (IsNth(b) || b.day <= DaysInMonth(year, b.month))
  }

  lemma InItsMonth(year: int, b: Bound)
    requires Has(year, b)
    ensures InMonth(year, b.month, BeginDay(year, b)) && InMonth(year, b.month, LastDay(year, b))
  {
    BoundInYear(year, b);
  }

  /** Between different months, the weekday test is the cyclic interval up to the day that the end
      stands for, exactly if it is not one of the seven days after that, in a month that has no fifth
      such weekday. */
  lemma NthBetweenMonths(begin: Bound, end: Bound, today: Date)
    requires Has(today.year, begin) && Has(today.year, end) && Exists(today) && begin.month != end.month
    ensures var b, e, t := BeginDay(today.year, begin), LastDay(today.year, end), Serial(today);
            (InNthRange(begin, end, today) <==> DayInCycle(b, e, t))
            <==> !(e < t <= EndDay(today.year, end) && (begin.month < end.month || today.month < begin.month))
    ensures EndDay(today.year, end) - LastDay(today.year, end)
            == if end.week == 5 && !HasFifth(today.year, end.month, end.day) then 7 else 0
  {
    var y, b, e, t := today.year, BeginDay(today.year, begin), LastDay(today.year, end), Serial(today);
    InItsMonth(y, begin);
    InItsMonth(y, end);
    assert InMonth(y, today.month, t);
    MonthsInOrder(y, begin.month, b, end.month, e);
    MonthsInOrder(y, today.month, t, begin.month, b);
    MonthsInOrder(y, end.month, e, today.month, t);
  }

  /** Within one month too, the cyclic interval is measured up to the day that the end stands for. If
      the day numbers are in order when the days are, the test differs from it just as between
      different months; otherwise on most days. */
  lemma NthWithinMonth(begin: Bound, end: Bound, today: Date)
    requires IsBound(begin) && IsBound(end) && begin.day > 0 && end.day > 0 && begin.month == end.month
    ensures var b, l, e, t := BeginDay(today.year, begin), LastDay(today.year, end), EndDay(today.year, end), Serial(today);
            (InNthRange(begin, end, today) <==> DayInCycle(b, l, t))
            <==> if begin.day > end.day then (if b > l then !(l < t <= e && t < b) else b <= t <= l)
                 else if b <= l then !(l < t <= e)
                 else l < t && (t < b || t <= e)
  {
    BoundInYear(today.year, end);
  }

  /** From the first Saturday to the last Sunday of October, which is later in every year: all days
      of the other months are in the range. */
  lemma OctoberIsAllYear(today: Date)
    requires Exists(today) && today.month != 10
    ensures InNthRange(Bound(10, 7, 1), Bound(10, 1, 5), today)
    ensures BeginDay(today.year, Bound(10, 7, 1)) < EndDay(today.year, Bound(10, 1, 5))
    ensures !DayInCycle(BeginDay(today.year, Bound(10, 7, 1)), LastDay(today.year, Bound(10, 1, 5)), Serial(today))
  {
    var y, begin, end := today.year, Bound(10, 7, 1), Bound(10, 1, 5);
    InItsMonth(y, begin);
    InItsMonth(y, end);
    FifthIsLast(y, end);
    assert InMonth(y, today.month, Serial(today));
    MonthsInOrder(y, today.month, Serial(today), 10, BeginDay(y, begin));
    MonthsInOrder(y, today.month, Serial(today), 10, LastDay(y, end));
  }

  /** From January, or from the first of the weekday in February, to the last of a weekday in February,
      of a year without 29 February: 1 March is in the range. */
  lemma FebruaryRunsOver(year: int, weekday: nat)
    requires !Leap(year) && 1 <= weekday <= 8
    ensures InNthRange(Bound(1, 1, 1), Bound(2, weekday, 5), Date(year, 3, 1))
    ensures InNthRange(Bound(2, weekday, 1), Bound(2, weekday, 5), Date(year, 3, 1))
    ensures LastDay(year, Bound(2, weekday, 5)) < Serial(Date(year, 3, 1)) <= EndDay(year, Bound(2, weekday, 5))
  {
    var begin, end := Bound(1, 1, 1), Bound(2, weekday, 5);
    InItsMonth(year, begin);
    InItsMonth(year, Bound(2, weekday, 1));
    FifthIsLast(year, end);
    FifthRunsOver(year, end);
    assert InMonth(year, 3, Serial(Date(year, 3, 1)));
    MonthsInOrder(year, 1, BeginDay(year, begin), 3, Serial(Date(year, 3, 1)));
    MonthsInOrder(year, 2, BeginDay(year, Bound(2, weekday, 1)), 3, Serial(Date(year, 3, 1)));
  }

  // ----- The time test.

  datatype Clock = Clock(hours: nat, minutes: nat)

  predicate IsClock(c: Clock) {
    c.hours < 24 && c.minutes < 60
  }

  function Minutes(c: Clock): nat {
    60 * c.hours + c.minutes
  }

  predicate IsGiven(begin: Clock, end: Clock) {
    begin.hours != 0 || begin.minutes != 0 || end.hours != 0 || end.minutes != 0
  }

  /** The time part: no range at all, from midnight to midnight, is the whole day. */
  predicate InTimeRange(begin: Clock, end: Clock, now: nat) {
    var b := if IsGiven(begin, end) then Minutes(begin) else 0;
    var e := if IsGiven(begin, end) then Minutes(end) else 23 * 60 + 59;
    if begin.hours > end.hours then !(e <= now && now <= b) else b <= now && now <= e
  }

  predicate TimeInCycle(begin: nat, end: nat, now: nat) {
    if begin <= end then begin <= now <= end else begin <= now || now <= end
  }

  /** The time test is the cyclic interval exactly if it does not wrap, or wraps from a later hour and
      it is neither of the two minutes themselves, or wraps within an hour and it lies between. */
  lemma TimeCyclicIff(begin: Clock, end: Clock, now: nat)
    requires IsClock(begin) && IsClock(end) && now < 24 * 60
    ensures begin != Clock(0, 0) || end != Clock(0, 0) ==>
            var b, e := 60 * begin.hours + begin.minutes, 60 * end.hours + end.minutes;
            (InTimeRange(begin, end, now) <==> TimeInCycle(b, e, now))
            <==> (b <= e || (if begin.hours > end.hours then now != b && now != e else e < now < b))
    ensures InTimeRange(Clock(0, 0), Clock(0, 0), now)
  {
  }

  /** From 22:00 to 06:00, 22:00 itself is left out; from 10:30 to 10:15 nothing is in the range. */
  lemma TimeSurprises(now: nat)
    requires now < 24 * 60
    ensures !InTimeRange(Clock(22, 0), Clock(6, 0), 22 * 60) && TimeInCycle(22 * 60, 6 * 60, 22 * 60)
    ensures !InTimeRange(Clock(10, 30), Clock(10, 15), now)
  {
  }

  method IsInTimeRange(begin: Clock, end: Clock, now: nat) returns (r: bool)
    ensures r <==> InTimeRange(begin, end, now)
  {
    var b: nat, e: nat := 0, 23 * 60 + 59;
    if begin.hours != 0 || begin.minutes != 0 || end.hours != 0 || end.minutes != 0 {
      b, e := Minutes(begin), Minutes(end);
    }
    if begin.hours > end.hours {
      r := !(e <= now && now <= b);
    } else {
      r := b <= now && now <= e;
    }
  }

  // ----- The whole test.

  /** kSunday to kSaturday. */
  function DayBit(w: Weekday): bv8 {
    if w == 0 then 1 else if w == 1 then 2 else if w == 2 then 4 else if w == 3 then 8
    else if w == 4 then 16 else if w == 5 then 32 else 64
  }

  predicate OnDay(dow: bv8, w: Weekday) {
    dow == 0 || dow & DayBit(w) != 0
  }

  /** One mask for each day of the week, the empty one for all days, and the rest made of these. */
  lemma Masks(w: Weekday)
    ensures OnDay(0, w)
    ensures (OnDay(1, w) <==> w == 0) && (OnDay(2, w) <==> w == 1) && (OnDay(4, w) <==> w == 2) && (OnDay(8, w) <==> w == 3)
    ensures (OnDay(16, w) <==> w == 4) && (OnDay(32, w) <==> w == 5) && (OnDay(64, w) <==> w == 6)
  {
  }

  lemma MasksJoined(a: bv8, b: bv8, w: Weekday)
    requires a != 0 && b != 0
    ensures OnDay(a | b, w) <==> OnDay(a, w) || OnDay(b, w)
  {
  }

  /** One end of a range as it is given; what is not given is 0. */
  datatype End = End(month: nat, day: nat, week: nat)

  /** What the date test is made for. */
  datatype Dates = AnyDate | Dates(begin: Bound, end: Bound)

  /** The n-th weekday of every month: only the week of the beginning is given. */
  predicate EveryMonth(nth: bool, begin: End, end: End) {
    nth && begin.week > 0 && begin.day == 0 && begin.month == 0 && end == End(0, 0, 0)
  }

  /** The ranges that the date library has days for: real months, days and numbers of weekdays, and an
      end to a beginning that is a day of the year. For every month, the days of the week stand in for
      the number of the weekday. */
  predicate AreEnds(nth: bool, begin: End, end: End, dow: bv8) {
    && begin.month <= 12 && end.month <= 12
    && (EveryMonth(nth, begin, end) ==> dow <= 8)
    && (begin.month > 0 && end.month > 0 ==> IsBound(AsBound(nth, begin)) && IsBound(AsBound(nth, end)))
    && (!nth && begin.month > 0 && begin.day > 0 ==> end.month > 0)
  }

  function AsBound(nth: bool, e: End): Bound
    requires 1 <= e.month <= 12
  {
    Bound(e.month, e.day, if nth then e.week else 0)
  }

  function Given(nth: bool, begin: End, end: End, dow: bv8, today: Date): (dates: Dates)
    requires AreEnds(nth, begin, end, dow)
    ensures dates.Dates? ==> IsBound(dates.begin) && IsBound(dates.end)
    ensures dates.Dates? && !nth ==> !IsNth(dates.begin) && !IsNth(dates.end)
  {
    if EveryMonth(nth, begin, end) then
      var bound := Bound(today.month, dow as nat, begin.week);
      if dow == 0 then AnyDate else Dates(bound, bound)
    else if begin.month == 0 || end.month == 0 then AnyDate
    else Dates(AsBound(nth, begin), AsBound(nth, end))
  }

  /** With both months given the range is the one given, with the weeks only if they are asked for; with
      the week of the beginning alone, it is that week of the month of today. */
  lemma GivenIs(nth: bool, begin: End, end: End, dow: bv8, today: Date)
    requires AreEnds(nth, begin, end, dow)
    ensures Given(nth, begin, end, dow, today)
            == if begin.month > 0 && end.month > 0 && nth then
                 Dates(Bound(begin.month, begin.day, begin.week), Bound(end.month, end.day, end.week))
               else if begin.month > 0 && end.month > 0 then
                 Dates(Bound(begin.month, begin.day, 0), Bound(end.month, end.day, 0))
               else if nth && begin == End(0, 0, begin.week) && begin.week > 0 && end == End(0, 0, 0) && dow != 0 then
                 Dates(Bound(today.month, dow as nat, begin.week), Bound(today.month, dow as nat, begin.week))
               else AnyDate
  {
  }

  /** The test takes the days of the week for the number of a weekday: of the masks that are numbers,
      only Sunday and Monday are their own. For these the restriction is active on the n-th such day
      of each month; for all others it never is. */
  lemma OnlySundayAndMonday(week: nat, dow: bv8, today: Date)
    requires 1 <= week <= 4 && 1 <= dow <= 8 && Exists(today)
    ensures var b := Bound(today.month, dow as nat, week);
            OnDay(dow, WeekdayOf(Serial(today))) && InNthRange(b, b, today)
            <==> dow <= 2 && Serial(today) == BeginDay(today.year, b)
  {
    var b := Bound(today.month, dow as nat, week);
    WeeksOn(FirstOf(today.year, today.month, b.day), week - 1);
    MaskIsNumber(dow, b.day);
  }

  lemma MaskIsNumber(dow: bv8, n: nat)
    requires 1 <= dow <= 8 && n == dow as nat
    ensures 1 <= n <= 8 && (OnDay(dow, Numbered(n)) <==> dow <= 2)
  {
    assert dow == 1 || dow == 2 || dow == 3 || dow == 4 || dow == 5 || dow == 6 || dow == 7 || dow == 8;
  }

  /** is_conditional_active, at a local date and minute of the day. */
  method IsActive(nth: bool, begin: End, end: End, from: Clock, to: Clock, dow: bv8, today: Date, now: nat) returns (r: bool)
    requires AreEnds(nth, begin, end, dow) && Exists(today) && IsClock(from) && IsClock(to) && now < 24 * 60
    ensures var dates := Given(nth, begin, end, dow, today);
            r <==>
            && OnDay(dow, WeekdayOf(Serial(today))) && InTimeRange(from, to, now)
            && (dates.Dates? ==> InDates(nth, dates.begin, dates.end, today))
  {
    var dowInRange := OnDay(dow, WeekdayOf(Serial(today)));
    var timeInRange := IsInTimeRange(from, to, now);
    var dates := FindDates(nth, begin, end, dow, today);
    if dates.AnyDate? {
      return dowInRange && timeInRange;
    }
    var dateInRange := InDateRange(nth, dates.begin, dates.end, today);
    return dowInRange && dateInRange && timeInRange;
  }

  /** Filling in the month, the day and the week that are not given. */
  method FindDates(nth: bool, begin: End, end: End, dow: bv8, today: Date) returns (dates: Dates)
    requires AreEnds(nth, begin, end, dow)
    ensures dates == Given(nth, begin, end, dow, today)
            || (nth && dates.AnyDate? && (begin.day == 0 || end.day == 0) && !EveryMonth(nth, begin, end))
  {
    var b, e := begin, end;
    if nth && begin.week > 0 && begin.day == 0 && begin.month == 0 {
      b := b.(month := today.month);
    }
    if nth && end.week > 0 && end.day == 0 && end.month == 0 {
      e := e.(month := today.month);
    }
    if nth && begin.week > 0 && begin.day == 0 && begin.month == 0 && end.week == 0 && end.day == 0 && end.month == 0 {
      e := e.(month := b.month, day := dow as nat, week := b.week);
      b := b.(day := dow as nat);
    }
    if b.month > 0 && ((!nth && (b.day > 0 || e.month > 0)) || (nth && b.day > 0 && e.month > 0 && e.day > 0)) {
      return Dates(AsBound(nth, b), AsBound(nth, e));
    }
    return AnyDate;
  }
}
