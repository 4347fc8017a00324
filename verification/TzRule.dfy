/** Daylight-saving rules of the time-zone database: a rule applies once a year, at a moment
    given by its MonthDayTime, in every year of an inclusive range. */
module TzRule {
  import opened Calendar

  /** date::year is a 16-bit integer whose least value is excluded. */
  type Year = y: int | -32767 <= y <= 32767

  /** The four ways a rule names its day. */
  datatype On =
    | MonthDay(month: Month, day: Day)
    | LastDow(month: Month, dow: Weekday)
    | OnOrBefore(month: Month, day: Day, dow: Weekday)
    | OnOrAfter(month: Month, day: Day, dow: Weekday)

  /** MonthDayTime::day, which the sort order reads: a "last Sunday" sorts as the 31st. */
  function OnDay(on: On): Day {
    if on.LastDow? then 31 else on.day
  }

  /** weekday - weekday counts the days, 0 to 6, from the second to the first. */
  function DaysBack(serial: int, w: Weekday): (n: int)
    ensures 0 <= n <= 6
  {
    (WeekdayOf(serial) - w) % 7
  }

  function DaysAhead(serial: int, w: Weekday): (n: int)
    ensures 0 <= n <= 6
  {
    (w - WeekdayOf(serial)) % 7
  }

  /** MonthDayTime::to_sys_days. */
  function ToSerial(on: On, y: int): int {
    match on
    case MonthDay(m, d) => Serial(Date(y, m, d))
    case LastDow(m, w) =>
      var last := Serial(Date(y, m, DaysInMonth(y, m)));
      last - DaysBack(last, w)
    case OnOrBefore(m, d, w) =>
      var x := Serial(Date(y, m, d));
      x - DaysBack(x, w)
    case OnOrAfter(m, d, w) =>
      var x := Serial(Date(y, m, d));
      x + DaysAhead(x, w)
  }

  /** MonthDayTime::canonicalize: the month and day that the rule names in year y. The year of
      the resolved date is dropped. */
  function Canonicalize(on: On, y: int): On {
    if on.MonthDay? then on
    else
      var ymd := FromSerial(ToSerial(on, y));
      MonthDay(ymd.month, ymd.day)
  }

  /** The guard for the two cases in which the resolved date leaves year y: a day-on-or-before
      that falls back out of January, a day-on-or-after that runs past 31 December. */
  predicate LeavesYear(on: On, y: int) {
    match on
    case OnOrBefore(m, d, w) => m == 1 && d <= DaysBack(Serial(Date(y, 1, d)), w)
    case OnOrAfter(m, d, w) => m == 12 && d + DaysAhead(Serial(Date(y, 12, d)), w) > 31
    case _ => false
  }

  lemma BackToWeekday(serial: int, w: Weekday)
    ensures WeekdayOf(serial - DaysBack(serial, w)) == w
  {
    var v, q := WeekdayOf(serial), (serial + 6) / 7;
    var b := (v - w) / 7;
    assert serial - DaysBack(serial, w) + 6 == 7 * (q + b) + w;
  }

  lemma AheadToWeekday(serial: int, w: Weekday)
    ensures WeekdayOf(serial + DaysAhead(serial, w)) == w
  {
    var v, q := WeekdayOf(serial), (serial + 6) / 7;
    var b := (w - v) / 7;
    assert serial + DaysAhead(serial, w) + 6 == 7 * (q - b) + w;
  }

  /** What the four forms say: a date; the weekday in the last seven days of the month, in the seven days
      up to a date, or in those from a date on. */
  lemma NamedDay(on: On, y: int)
    ensures match on
      case MonthDay(m, d) => ToSerial(on, y) == Serial(Date(y, m, d))
      case LastDow(m, w) =>
        && WeekdayOf(ToSerial(on, y)) == w
        && Serial(Date(y, m, DaysInMonth(y, m))) - 7 < ToSerial(on, y) <= Serial(Date(y, m, DaysInMonth(y, m)))
      case OnOrBefore(m, d, w) =>
        WeekdayOf(ToSerial(on, y)) == w && Serial(Date(y, m, d)) - 7 < ToSerial(on, y) <= Serial(Date(y, m, d))
      case OnOrAfter(m, d, w) =>
        WeekdayOf(ToSerial(on, y)) == w && Serial(Date(y, m, d)) <= ToSerial(on, y) < Serial(Date(y, m, d)) + 7
  {
    match on
    case MonthDay(_, _) =>
    case LastDow(m, w) => BackToWeekday(Serial(Date(y, m, DaysInMonth(y, m))), w);
    case OnOrBefore(m, d, w) => BackToWeekday(Serial(Date(y, m, d)), w);
    case OnOrAfter(m, d, w) => AheadToWeekday(Serial(Date(y, m, d)), w);
  }

  lemma OneSuchDay(s: int, t: int)
    requires WeekdayOf(s) == WeekdayOf(t) && s - 7 < t < s + 7
    ensures s == t
  {
    var p, q := (s + 6) / 7, (t + 6) / 7;
    assert s - t == 7 * (p - q);
  }

  /** The last Sunday of March 2024 is the 31st, and so it is shown. */
  lemma LastSundayOfMarch2024()
    ensures ToSerial(LastDow(3, 0), 2024) == Serial(Date(2024, 3, 31))
    ensures Canonicalize(LastDow(3, 0), 2024) == MonthDay(3, 31)
  {
    NamedDay(LastDow(3, 0), 2024);
    assert WeekdayOf(Serial(Date(2024, 3, 31))) == 0;
    OneSuchDay(ToSerial(LastDow(3, 0), 2024), Serial(Date(2024, 3, 31)));
    CanonicalDate(LastDow(3, 0), 2024, Date(2024, 3, 31));
  }

  /** A serial day of year y resolves to a date of year y. */
  lemma ResolvedYear(serial: int, y: int)
    requires YearStart(y) <= serial < YearStart(y + 1)
    ensures FromSerial(serial).year == y
  {
    var d := FromSerial(serial);
    if d.year < y {
      YearStartMonotone(d.year, y);
    } else if y < d.year {
      YearStep(y);
      YearStartMonotone(y, d.year);
    }
  }

  lemma LeavesYearIsExact(on: On, y: int)
    requires !on.MonthDay?
    ensures !LeavesYear(on, y) <==> YearStart(y) <= ToSerial(on, y) < YearStart(y) + YearLength(y)
  {
  }

  lemma ShiftedYear(a: Date, y: int)
    requires Exists(a) && a.year != y
    ensures Serial(a) != Serial(Date(y, a.month, a.day))
  {
    if a.year < y {
      YearStartMonotone(a.year, y);
    } else {
      YearStartMonotone(y, a.year);
    }
  }

  /** canonicalize keeps the moment a rule stands for in year y exactly when the resolved date
      does not leave year y; the month and day it shows are kept always. */
  lemma CanonicalizeKeepsMoment(on: On, y: int)
    ensures ToSerial(Canonicalize(on, y), y) == ToSerial(on, y) <==> !LeavesYear(on, y)
    ensures Canonicalize(Canonicalize(on, y), y) == Canonicalize(on, y)
  {
    if !on.MonthDay? {
      LeavesYearIsExact(on, y);
      YearStep(y);
      var s := ToSerial(on, y);
      var d := FromSerial(s);
      if LeavesYear(on, y) {
        YearStep(d.year);
        assert d.year != y;
        ShiftedYear(d, y);
      } else {
        ResolvedYear(s, y);
      }
    }
  }

  /** time is the time of day and its reference (local, standard or UTC), which no code here reads. */
  datatype Rule = Rule(name: int, start: Year, end: Year, on: On, time: int, save: int, abbrev: string)

  predicate InOrder(r: Rule) {
    r.start <= r.end
  }

  /** The Rule constructor that takes over everything but the years. */
  function Restricted(r: Rule, start: Year, end: Year): Rule {
    r.(start := start, end := end)
  }

  predicate TupleLess(x: Rule, y: Rule) {
    x.name < y.name || (x.name == y.name &&
    (x.start < y.start || (x.start == y.start &&
    (x.on.month < y.on.month || (x.on.month == y.on.month && x.end < y.end)))))
  }

  /** operator<: by name, starting year, month, ending year, and last by day. */
  predicate Less(x: Rule, y: Rule) {
    if TupleLess(x, y) then true
    else if TupleLess(y, x) then false
    else OnDay(x.on) < OnDay(y.on)
  }

  predicate AtMost(x: Rule, y: Rule) {
    !Less(y, x)
  }

  predicate Sorted(rs: seq<Rule>) {
    forall p, q :: 0 <= p < q < |rs| ==> AtMost(rs[p], rs[q])
  }

  /** What rules are sorted by, first things first; the last weekday of a month counts as its 31st day. */
  function SortKey(r: Rule): seq<int> {
    [r.name, r.start, r.on.month, r.end, if r.on.LastDow? then 31 else r.on.day]
  }

  ghost predicate Lexicographic(a: seq<int>, b: seq<int>) {
    exists k :: 0 <= k < |a| && k < |b| && a[..k] == b[..k] && a[k] < b[k]
  }

  /** The sort order is the lexicographic one of the keys. */
  lemma LessIsLexicographic(x: Rule, y: Rule)
    ensures Less(x, y) <==> Lexicographic(SortKey(x), SortKey(y))
  {
    var (a, b) := (SortKey(x), SortKey(y));
    assert a[0] < b[0] ==> a[..0] == b[..0];
    assert a[0] == b[0] ==> a[..1] == b[..1];
    assert a[0] == b[0] && a[1] == b[1] ==> a[..2] == b[..2];
    assert a[0] == b[0] && a[1] == b[1] && a[2] == b[2] ==> a[..3] == b[..3];
    assert a[0] == b[0] && a[1] == b[1] && a[2] == b[2] && a[3] == b[3] ==> a[..4] == b[..4];
    if k :| 0 <= k < 5 && a[..k] == b[..k] && a[k] < b[k] {
      assert forall j :: 0 <= j < k ==> a[j] == a[..k][j] == b[..k][j] == b[j];
    }
  }

  predicate SameYears(x: Rule, y: Rule) {
    x.start == y.start && x.end == y.end
  }

  predicate InForce(r: Rule, name: int, y: int) {
    r.name == name && r.start <= y <= r.end
  }

  // ----- What a table means.

  /** Three ways to look at the day of a rule in force: as given, as the month and day that it
      resolves to in the year, or as the serial day itself. */
  datatype View = Given | Resolved | Moment

  datatype When = Named(on: On) | OnSerial(serial: int)

  function Seen(on: On, v: View, y: int): When {
    match v
    case Given => Named(on)
    case Resolved => Named(Canonicalize(on, y))
    case Moment => OnSerial(ToSerial(on, y))
  }

  /** What a rule in force in year y does: when it starts, the time of day, the saving and the
      letters. */
  datatype Effect = Effect(when: When, time: int, save: int, abbrev: string)

  function EffectIn(r: Rule, v: View, y: int): Effect {
    Effect(Seen(r.on, v, y), r.time, r.save, r.abbrev)
  }

  /** How often the table applies an effect under a name in a year. */
  ghost function Count(rs: seq<Rule>, v: View, name: int, y: int, effect: Effect): nat {
    if rs == [] then 0
    else (if InForce(rs[0], name, y) && EffectIn(rs[0], v, y) == effect then 1 else 0)
         + Count(rs[1..], v, name, y, effect)
  }

  /** An effect is counted exactly if a rule of the name whose range holds the year has its time of day,
      its saving and its letters, and its day as it is looked at. */
  lemma {:induction false} CountedIff(rs: seq<Rule>, v: View, name: int, y: int, effect: Effect)
    ensures Count(rs, v, name, y, effect) > 0 <==>
            exists r :: r in rs && r.name == name && r.start <= y <= r.end && ShowsAs(r, v, y, effect)
  {
    if rs != [] {
      CountedIff(rs[1..], v, name, y, effect);
      assert forall r :: r in rs <==> r == rs[0] || r in rs[1..];
    }
  }

  ghost predicate ShowsAs(r: Rule, v: View, y: int, effect: Effect) {
    && effect.time == r.time && effect.save == r.save && effect.abbrev == r.abbrev
    && match v
       case Given => effect.when == Named(r.on)
       case Resolved => effect.when == Named(Canonicalize(r.on, y))
       case Moment => effect.when == OnSerial(ToSerial(r.on, y))
  }

  /** Some range of the name begins in y, or ends right before it. */
  ghost predicate EdgeAt(rs: seq<Rule>, name: int, y: int) {
    exists r | r in rs :: r.name == name && (r.start == y || r.end + 1 == y)
  }

  /** The ranges of the name have edges on both sides of year y. */
  ghost predicate Singled(rs: seq<Rule>, name: int, y: int) {
    EdgeAt(rs, name, y) && EdgeAt(rs, name, y + 1)
  }

  /** Some rule of the name in force in y resolves to a day of another year. */
  ghost predicate SomeLeaves(rs: seq<Rule>, name: int, y: int) {
    exists r | r in rs :: InForce(r, name, y) && LeavesYear(r.on, y)
  }

  lemma {:induction false} CountPositive(rs: seq<Rule>, v: View, name: int, y: int, effect: Effect)
    ensures Count(rs, v, name, y, effect) > 0 <==> exists r | r in rs :: InForce(r, name, y) && EffectIn(r, v, y) == effect
  {
    if rs != [] {
      CountPositive(rs[1..], v, name, y, effect);
      assert forall r :: r in rs <==> r == rs[0] || r in rs[1..];
    }
  }

  lemma {:induction false} CountConcat(a: seq<Rule>, b: seq<Rule>, v: View, name: int, y: int, effect: Effect)
    ensures Count(a + b, v, name, y, effect) == Count(a, v, name, y, effect) + Count(b, v, name, y, effect)
  {
    if a == [] {
      assert a + b == b;
    } else {
      assert (a + b)[1..] == a[1..] + b;
      CountConcat(a[1..], b, v, name, y, effect);
    }
  }

  lemma CountAround(a: seq<Rule>, r: Rule, b: seq<Rule>, v: View, name: int, y: int, effect: Effect)
    ensures Count(a + [r] + b, v, name, y, effect) == Count([r], v, name, y, effect) + Count(a + b, v, name, y, effect)
  {
    CountConcat(a + [r], b, v, name, y, effect);
    CountConcat(a, [r], v, name, y, effect);
    CountConcat(a, b, v, name, y, effect);
  }

  lemma CanonicalDate(on: On, y: int, d: Date)
    requires !on.MonthDay? && Exists(d) && ToSerial(on, y) == Serial(d)
    ensures Canonicalize(on, y) == MonthDay(d.month, d.day)
  {
    SerialInjective(FromSerial(ToSerial(on, y)), d);
  }

  /** The Sunday on or before 1 January, in a year that begins on a Monday such as 2024, is the last
      day of the year before; canonicalised, it becomes the last day of the year itself. */
  lemma SundayBeforeNewYear(y: int)
    requires WeekdayOf(YearStart(y)) == 1
    ensures var on := OnOrBefore(1, 1, 0);
            && LeavesYear(on, y) && ToSerial(on, y) == Serial(Date(y - 1, 12, 31))
            && Canonicalize(on, y) == MonthDay(12, 31)
  {
    DayBeforeNewYear(y);
    CanonicalDate(OnOrBefore(1, 1, 0), y, Date(y - 1, 12, 31));
  }

  lemma DayBeforeNewYear(y: int)
    requires WeekdayOf(YearStart(y)) == 1
    ensures LeavesYear(OnOrBefore(1, 1, 0), y) && ToSerial(OnOrBefore(1, 1, 0), y) == Serial(Date(y - 1, 12, 31))
  {
    YearStep(y - 1);
    assert Serial(Date(y, 1, 1)) == YearStart(y) && DaysBack(YearStart(y), 0) == 1;
  }

  /** One such day: 1 January 2024 as a Sunday or before is 31 December 2023, and becomes that of 2024. */
  lemma NewYear2024()
    ensures var on := OnOrBefore(1, 1, 0);
            ToSerial(on, 2024) == Serial(Date(2023, 12, 31)) && Canonicalize(on, 2024) == MonthDay(12, 31)
  {
    SundayBeforeNewYear(2024);
  }

  /** In a table that has such a rule for that year alone, the moment is lost. */
  lemma RuleOfOneYear(r: Rule)
    requires r.start == r.end && LeavesYear(r.on, r.start)
    ensures Singled([r], r.name, r.start) && SomeLeaves([r], r.name, r.start)
  {
    assert r in [r] && InForce(r, r.name, r.start);
  }

  lemma TakenApart(b: seq<Rule>, k: nat)
    requires k < |b|
    ensures b == b[..k] + [b[k]] + b[k + 1..]
  {
  }

  lemma CountWithout(b: seq<Rule>, k: nat, v: View, name: int, y: int, effect: Effect)
    requires k < |b|
    ensures Count(b, v, name, y, effect) == Count([b[k]], v, name, y, effect) + Count(b[..k] + b[k + 1..], v, name, y, effect)
  {
    TakenApart(b, k);
    CountAround(b[..k], b[k], b[k + 1..], v, name, y, effect);
  }

  lemma MultisetAround(a: seq<Rule>, r: Rule, b: seq<Rule>)
    ensures multiset(a + [r] + b) == multiset(a + b) + multiset{r}
  {
  }

  lemma RestPermuted(a: seq<Rule>, b: seq<Rule>, k: nat)
    requires a != [] && k < |b| && b[k] == a[0] && multiset(a) == multiset(b)
    ensures multiset(a[1..]) == multiset(b[..k] + b[k + 1..])
  {
    TakenApart(b, k);
    MultisetAround(b[..k], b[k], b[k + 1..]);
    TakenApart(a, 0);
    MultisetAround(a[..0], a[0], a[1..]);
    assert a[..0] + a[1..] == a[1..];
    assert multiset(a[1..]) == multiset(a) - multiset{a[0]};
    assert multiset(b[..k] + b[k + 1..]) == multiset(b) - multiset{b[k]};
  }

  /** The meaning does not depend on the order of the rules. */
  lemma {:induction false} CountPermuted(a: seq<Rule>, b: seq<Rule>, v: View, name: int, y: int, effect: Effect)
    requires multiset(a) == multiset(b)
    ensures Count(a, v, name, y, effect) == Count(b, v, name, y, effect)
    decreases |a|
  {
    if a == [] {
      assert |multiset(b)| == 0;
      assert b == [];
    } else {
      assert a[0] in multiset(b);
      var k :| 0 <= k < |b| && b[k] == a[0];
      RestPermuted(a, b, k);
      CountWithout(b, k, v, name, y, effect);
      CountWithout(a, 0, v, name, y, effect);
      assert a[..0] + a[1..] == a[1..];
      CountPermuted(a[1..], b[..k] + b[k + 1..], v, name, y, effect);
    }
  }
}
