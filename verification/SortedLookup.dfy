/** Lookups in the sorted tables of a tile: the next departure of a transit line and the access
    restrictions of an edge. */
module SortedLookup {
  /** Counts in a tile header have 24 bits. */
  const COUNT_LIMIT := 0x100_0000

  const MAX_DEPARTURE_TIME := 131071

  // ----- Departures.

  datatype Kind = Fixed | Frequency(end: nat, every: nat)

  datatype Departure = Departure(line: nat, kind: Kind, time: nat, trip: nat, schedule: nat, wheelchair: bool, bicycle: bool)

  /** Active days from the tile's creation on, up to an end day, and days of the week after that. */
  datatype Schedule = Schedule(days: bv64, daysOfWeek: bv32, endDay: nat)

  datatype Query = Query(line: nat, now: nat, day: nat, dow: bv32, dateBeforeTile: bool, wheelchair: bool, bicycle: bool)

  /** operator< on departures. */
  predicate Less(a: Departure, b: Departure) {
    if a.line != b.line then a.line < b.line
    else if a.kind.Fixed? != b.kind.Fixed? then a.kind.Fixed?
    else if a.time != b.time then a.time < b.time
    else a.trip < b.trip
  }

  /** By line, fixed departures first, then by time and trip. */
  lemma LessIsByKeys(a: Departure, b: Departure)
    ensures var x, y := [a.line, if a.kind.Fixed? then 0 else 1, a.time, a.trip], [b.line, if b.kind.Fixed? then 0 else 1, b.time, b.trip];
            Less(a, b) <==> exists k :: 0 <= k < 4 && x[k] < y[k] && forall j :: 0 <= j < k ==> x[j] == y[j]
  {
    var x, y := [a.line, if a.kind.Fixed? then 0 else 1, a.time, a.trip], [b.line, if b.kind.Fixed? then 0 else 1, b.time, b.trip];
    assert x[0] < y[0] || (x[0] == y[0] && (x[1] < y[1] || (x[1] == y[1] && (x[2] < y[2] || (x[2] == y[2] && x[3] < y[3]))))) <==> Less(a, b);
  }

  ghost predicate Sorted(table: seq<Departure>) {
    forall i, j :: 0 <= i < j < |table| ==> !Less(table[j], table[i])
  }

  ghost predicate OnlyFixed(table: seq<Departure>, line: nat) {
    forall i :: 0 <= i < |table| && table[i].line == line ==> table[i].kind.Fixed?
  }

  /** TransitSchedule::IsValid; end days have six bits. */
  predicate IsActive(s: Schedule, q: Query)
    requires s.endDay < 64
  {
    if !q.dateBeforeTile && q.day <= s.endDay then s.days & (1 << q.day) != 0 else s.daysOfWeek & q.dow != 0
  }

  /** A departure is passed over, taken, or refers to a schedule that is not there. */
  datatype Verdict = Skip | Take | NoSchedule

  ghost predicate SchedulesFit(schedules: seq<Schedule>) {
    forall i :: 0 <= i < |schedules| ==> schedules[i].endDay < 64
  }

  function Judge(d: Departure, schedules: seq<Schedule>, q: Query): Verdict
    requires SchedulesFit(schedules)
  {
    if (q.wheelchair && !d.wheelchair) || (q.bicycle && !d.bicycle) then Skip
    else if d.schedule >= |schedules| then NoSchedule
    else if IsActive(schedules[d.schedule], q) then Take
    else Skip
  }

  // ----- What a query asks for, condition by condition.

  /** The schedule has the day set, or past its end day and for dates before the tile a day of the week. */
  ghost predicate RunsOn(s: Schedule, q: Query) {
    if q.dateBeforeTile || q.day > s.endDay then s.daysOfWeek & q.dow != 0
    else q.day < 64 && s.days & (1 << q.day) != 0
  }

  ghost predicate Accessible(d: Departure, q: Query) {
    (q.wheelchair ==> d.wheelchair) && (q.bicycle ==> d.bicycle)
  }

  ghost predicate Suits(d: Departure, schedules: seq<Schedule>, q: Query) {
    Accessible(d, q) && d.schedule < |schedules| && RunsOn(schedules[d.schedule], q)
  }

  lemma ActiveIs(s: Schedule, q: Query)
    requires s.endDay < 64
    ensures IsActive(s, q) <==> RunsOn(s, q)
  {
  }

  lemma JudgeIs(d: Departure, schedules: seq<Schedule>, q: Query)
    requires SchedulesFit(schedules)
    ensures Judge(d, schedules, q) == Take <==> Suits(d, schedules, q)
    ensures Judge(d, schedules, q) == NoSchedule <==> Accessible(d, q) && d.schedule >= |schedules|
  {
    if d.schedule < |schedules| {
      ActiveIs(schedules[d.schedule], q);
    }
  }

  /** On a line of fixed departures: the earliest departure of the line that is not before now and suits
      the query, none if there is none, or the exception of one whose schedule is not there. */
  ghost predicate IsEarliest(table: seq<Departure>, schedules: seq<Schedule>, q: Query, r: Outcome) {
    match r
    case NoDeparture =>
      forall d | d in table && d.line == q.line && q.now <= d.time :: !Suits(d, schedules, q)
    case Next(d) =>
      && d in table && d.line == q.line && q.now <= d.time && Suits(d, schedules, q)
      && forall e | e in table && e.line == q.line && q.now <= e.time && Suits(e, schedules, q) :: d.time <= e.time
    case Thrown =>
      exists d :: d in table && d.line == q.line && q.now <= d.time && Accessible(d, q) && d.schedule >= |schedules|
  }

  /** What is answered for a departure: itself if it is fixed; of a frequency, the first of its times that
      is not before now or not before its end. */
  ghost predicate Serves(d: Departure, base: Departure, q: Query) {
    match base.kind
    case Fixed => d == base && q.now <= d.time
    case Frequency(end, every) =>
      && d == base.(time := d.time) && (q.now <= d.time || end <= d.time)
      && exists k: nat :: d.time == base.time + k * every && (k > 0 ==> d.time - every < q.now && d.time - every < end)
  }

  ghost predicate IsServed(table: seq<Departure>, schedules: seq<Schedule>, q: Query, d: Departure) {
    exists base :: base in table && base.line == q.line && Suits(base, schedules, q) && Serves(d, base, q)
  }

  lemma SoundIsServed(table: seq<Departure>, schedules: seq<Schedule>, q: Query, d: Departure)
    requires SchedulesFit(schedules) && Sound(table, schedules, q, d)
    ensures IsServed(table, schedules, q, d)
  {
    var i :| 0 <= i < |table| && table[i].line == q.line && Judge(table[i], schedules, q) == Take && AnsweredBy(d, table[i], q);
    JudgeIs(table[i], schedules, q);
    assert table[i] in table && Serves(d, table[i], q);
  }

  /** Two fixed departures of a line, the earlier one on schedule 0, which runs on day 0 only, the later
      one on schedule 1, which runs on day 1 only: on day 0 it is the earlier one. */
  lemma RunsToday(r: Outcome)
    requires var early, late := Departure(1, Fixed, 30000, 0, 0, false, false), Departure(1, Fixed, 40000, 1, 1, false, false);
             IsEarliest([early, late], [Schedule(1, 0, 10), Schedule(2, 0, 10)], Query(1, 20000, 0, 0, false, false, false), r)
    ensures r == Next(Departure(1, Fixed, 30000, 0, 0, false, false))
  {
    var early, late := Departure(1, Fixed, 30000, 0, 0, false, false), Departure(1, Fixed, 40000, 1, 1, false, false);
    var table, schedules, q := [early, late], [Schedule(1, 0, 10), Schedule(2, 0, 10)], Query(1, 20000, 0, 0, false, false, false);
    assert table[0] == early && table[1] == late && early in table;
    assert Suits(early, schedules, q);
    assert !Suits(late, schedules, q);
  }

  lemma EarliestIs(table: seq<Departure>, schedules: seq<Schedule>, q: Query, r: Outcome)
    requires SchedulesFit(schedules) && OnlyFixed(table, q.line)
    requires r.NoDeparture? ==> forall i :: 0 <= i < |table| ==> !Decides(table[i], schedules, q)
    requires !r.NoDeparture? ==> exists i: nat :: Decided(r, table, schedules, q, i)
    requires r.Next? ==> IsNext(table, schedules, q, r.d)
    ensures IsEarliest(table, schedules, q, r)
  {
    forall d | d in table
      ensures Judge(d, schedules, q) == Take <==> Suits(d, schedules, q)
      ensures Judge(d, schedules, q) == NoSchedule <==> Accessible(d, q) && d.schedule >= |schedules|
      ensures d.line == q.line ==> d.kind.Fixed? && (Workable(d, q) <==> q.now <= d.time)
    {
      JudgeIs(d, schedules, q);
    }
    match r
    case NoDeparture =>
    case Next(_) =>
      forall e | e in table && e.line == q.line && q.now <= e.time && Suits(e, schedules, q)
        ensures r.d.time <= e.time
      {
        var j :| 0 <= j < |table| && table[j] == e;
      }
    case Thrown =>
      var i: nat :| Decided(r, table, schedules, q, i);
      assert table[i] in table && Decides(table[i], schedules, q);
  }

  function LastTime(d: Departure): nat {
    if d.kind.Fixed? then d.time else d.kind.end
  }

  /** A departure of the line that is not over. */
  predicate Workable(d: Departure, q: Query) {
    d.line == q.line && q.now <= LastTime(d)
  }

  /** Along a line, departures last longer and longer. */
  ghost predicate EndsOrdered(table: seq<Departure>, line: nat) {
    forall i, j :: 0 <= i < j < |table| && table[i].line == line && table[j].line == line ==>
                     LastTime(table[i]) <= LastTime(table[j])
  }

  lemma FixedEndsOrdered(table: seq<Departure>, line: nat)
    requires Sorted(table) && OnlyFixed(table, line)
    ensures EndsOrdered(table, line)
  {
    forall i, j | 0 <= i < j < |table| && table[i].line == line && table[j].line == line
      ensures LastTime(table[i]) <= LastTime(table[j])
    {
      assert !Less(table[j], table[i]);
    }
  }

  lemma LinesInOrder(table: seq<Departure>, i: nat, j: nat)
    requires Sorted(table) && i <= j < |table|
    ensures table[i].line <= table[j].line
  {
    assert i < j ==> !Less(table[j], table[i]);
  }

  /** What the binary search comes to from a stretch that is left, when it has found something or not. */
  function Search(table: seq<Departure>, q: Query, low: nat, high: int, found: nat): nat
    requires high < |table|
    decreases high - low + 1
  {
    if low > high then found
    else
      var mid := (low + high) / 2;
      if Workable(table[mid], q) then Search(table, q, low, mid - 1, mid)
      else if q.line < table[mid].line then Search(table, q, low, mid - 1, found)
      else Search(table, q, mid + 1, high, found)
  }

  /** The search comes to what it has found before, or to something workable of the stretch. */
  lemma {:induction false} SearchRange(table: seq<Departure>, q: Query, low: nat, high: int, found: nat)
    requires high < |table|
    ensures var r := Search(table, q, low, high, found); r == found || (low <= r <= high && Workable(table[r], q))
    decreases high - low + 1
  {
    if low <= high {
      var mid := (low + high) / 2;
      if Workable(table[mid], q) {
        SearchRange(table, q, low, mid - 1, mid);
      } else if q.line < table[mid].line {
        SearchRange(table, q, low, mid - 1, found);
      } else {
        SearchRange(table, q, mid + 1, high, found);
      }
    }
  }

  /** The places that halving passes on its way to f, whatever the table holds. */
  function PathTo(low: nat, high: int, f: int): set<int>
    decreases high - low + 1
  {
    if low > high then {}
    else
      var mid := (low + high) / 2;
      if f < mid then {mid} + PathTo(low, mid - 1, f)
      else if f > mid then {mid} + PathTo(mid + 1, high, f)
      else {}
  }

  /** All places behind f on that way, if they belong to the line, are workable. */
  predicate Leads(table: seq<Departure>, q: Query, path: set<int>, f: nat) {
    forall m | m in path && f < m < |table| && table[m].line == q.line :: Workable(table[m], q)
  }

  /** The same, place by place. */
  predicate Free(table: seq<Departure>, q: Query, low: nat, high: int, f: nat)
    requires high < |table|
    decreases high - low + 1
  {
    if low > high then true
    else
      var mid := (low + high) / 2;
      if f < mid then (table[mid].line == q.line ==> Workable(table[mid], q)) && Free(table, q, low, mid - 1, f)
      else if f > mid then Free(table, q, mid + 1, high, f)
      else true
  }

  lemma {:induction false} FreeLeads(table: seq<Departure>, q: Query, low: nat, high: int, f: nat)
    requires high < |table|
    ensures Free(table, q, low, high, f) <==> Leads(table, q, PathTo(low, high, f), f)
    decreases high - low + 1
  {
    if low <= high {
      var mid := (low + high) / 2;
      if f < mid {
        FreeLeads(table, q, low, mid - 1, f);
      } else if f > mid {
        FreeLeads(table, q, mid + 1, high, f);
      }
    }
  }

  ghost predicate NoneBefore(table: seq<Departure>, q: Query, low: nat, f: nat) {
    forall i :: low <= i < f && i < |table| ==> !Workable(table[i], q)
  }

  /** One step of the search at mid, with what it does on the rest. */
  lemma SearchStep(table: seq<Departure>, q: Query, low: nat, high: int, found: nat, mid: nat)
    requires low <= high < |table| && mid == (low + high) / 2
    ensures low <= mid <= high
    ensures Search(table, q, low, high, found)
            == if Workable(table[mid], q) || q.line < table[mid].line
               then Search(table, q, low, mid - 1, if Workable(table[mid], q) then mid else found)
               else Search(table, q, mid + 1, high, found)
  {
  }

  lemma FreeStep(table: seq<Departure>, q: Query, low: nat, high: int, f: nat, mid: nat)
    requires low <= high < |table| && mid == (low + high) / 2
    ensures Free(table, q, low, high, f)
            <==> if f < mid then (table[mid].line == q.line ==> Workable(table[mid], q)) && Free(table, q, low, mid - 1, f)
                 else f > mid ==> Free(table, q, mid + 1, high, f)
  {
  }

  lemma {:induction false} SearchFree(table: seq<Departure>, q: Query, low: nat, high: int, found: nat, f: nat)
    requires Sorted(table) && low <= f <= high < |table| && high < found && Workable(table[f], q) && NoneBefore(table, q, low, f)
    ensures Search(table, q, low, high, found) == f <==> Free(table, q, low, high, f)
    decreases high - low + 1, 2
  {
    var mid := (low + high) / 2;
    SearchStep(table, q, low, high, found, mid);
    FreeStep(table, q, low, high, f, mid);
    if f == mid {
      SearchRange(table, q, low, mid - 1, mid);
    } else if f < mid {
      NotBehind(table, q, mid, high, found, f);
      SearchFreeLeft(table, q, low, high, if Workable(table[mid], q) then mid else found, f, mid);
    } else {
      SearchFreeRight(table, q, low, high, found, f, mid);
    }
  }

  lemma {:induction false} SearchFreeRight(table: seq<Departure>, q: Query, low: nat, high: int, found: nat, f: nat, mid: nat)
    requires Sorted(table) && low <= mid < f <= high < |table| && high < found && Workable(table[f], q) && NoneBefore(table, q, low, f)
    ensures !Workable(table[mid], q) && table[mid].line <= q.line
    ensures Search(table, q, mid + 1, high, found) == f <==> Free(table, q, mid + 1, high, f)
    decreases high - low + 1, 0
  {
    LinesInOrder(table, mid, f);
    SearchFree(table, q, mid + 1, high, found, f);
  }

  lemma {:induction false} SearchFreeLeft(table: seq<Departure>, q: Query, low: nat, high: int, found: nat, f: nat, mid: nat)
    requires Sorted(table) && low <= f < mid <= high < |table| && mid <= found && Workable(table[f], q) && NoneBefore(table, q, low, f)
    ensures Search(table, q, low, mid - 1, found) == f <==> Free(table, q, low, mid - 1, f)
    decreases high - low + 1, 1
  {
    SearchFree(table, q, low, mid - 1, found, f);
  }

  lemma NotBehind(table: seq<Departure>, q: Query, mid: nat, high: int, found: nat, f: nat)
    requires Sorted(table) && f < mid <= high < |table| && high < found && table[f].line == q.line
    ensures table[mid].line >= q.line && Search(table, q, mid + 1, high, found) != f
  {
    LinesInOrder(table, f, mid);
    SearchRange(table, q, mid + 1, high, found);
  }

  /** The search finds the first workable departure exactly if the way to it is free. */
  lemma SearchReaches(table: seq<Departure>, q: Query, f: nat)
    requires Sorted(table) && IsFirst(table, q, f)
    ensures Search(table, q, 0, |table| - 1, |table|) == f <==> Leads(table, q, PathTo(0, |table| - 1, f), f)
  {
    SearchFree(table, q, 0, |table| - 1, |table|, f);
    FreeLeads(table, q, 0, |table| - 1, f);
  }

  ghost predicate IsFirst(table: seq<Departure>, q: Query, f: nat) {
    f < |table| && Workable(table[f], q) && forall i :: 0 <= i < f ==> !Workable(table[i], q)
  }

  /** The search comes to a workable departure or to the end, to the first one exactly if halving
      meets only workable ones of the line behind it. */
  ghost predicate Comes(table: seq<Departure>, q: Query, r: nat) {
    && r <= |table| && (r < |table| ==> Workable(table[r], q))
    && forall f: nat :: IsFirst(table, q, f) ==> (r == f <==> Leads(table, q, PathTo(0, |table| - 1, f), f))
  }

  /** Where ends are ordered the workable departures are those of the line from place r on. */
  ghost predicate FindsFirst(table: seq<Departure>, q: Query, r: nat) {
    && r <= |table| && (r < |table| ==> Workable(table[r], q))
    && (EndsOrdered(table, q.line) ==>
          forall i :: 0 <= i < |table| ==> (Workable(table[i], q) <==> r <= i && table[i].line == q.line))
  }

  /** Where ends are ordered, the way is always free. */
  lemma ComesToFirst(table: seq<Departure>, q: Query, r: nat)
    requires Sorted(table) && Comes(table, q, r)
    ensures FindsFirst(table, q, r)
  {
    if EndsOrdered(table, q.line) && exists i :: 0 <= i < |table| && Workable(table[i], q) {
      var i :| 0 <= i < |table| && Workable(table[i], q);
      var f := FirstWorkable(table, q, i);
      assert forall j :: f <= j < |table| && table[j].line == q.line ==> Workable(table[j], q);
      assert Leads(table, q, PathTo(0, |table| - 1, f), f);
    }
  }

  lemma SearchComes(table: seq<Departure>, q: Query)
    requires Sorted(table)
    ensures var r := Search(table, q, 0, |table| - 1, |table|); Comes(table, q, r) && FindsFirst(table, q, r)
  {
    var r := Search(table, q, 0, |table| - 1, |table|);
    SearchRange(table, q, 0, |table| - 1, |table|);
    forall f: nat | IsFirst(table, q, f)
      ensures r == f <==> Leads(table, q, PathTo(0, |table| - 1, f), f)
    {
      SearchReaches(table, q, f);
    }
    ComesToFirst(table, q, r);
  }

  lemma {:induction false} FirstWorkable(table: seq<Departure>, q: Query, i: nat) returns (f: nat)
    requires i < |table| && Workable(table[i], q)
    ensures f <= i && IsFirst(table, q, f)
  {
    if j :| 0 <= j < i && Workable(table[j], q) {
      f := FirstWorkable(table, q, j);
    } else {
      f := i;
    }
  }

  /** The binary search for a departure to begin with. */
  method FindWorkable(table: seq<Departure>, q: Query) returns (found: nat)
    requires Sorted(table) && |table| < COUNT_LIMIT
    ensures Comes(table, q, found) && FindsFirst(table, q, found)
  {
    found := Halve(table, q);
    SearchComes(table, q);
  }

  /** The loop of the binary search. */
  method Halve(table: seq<Departure>, q: Query) returns (found: nat)
    ensures found == Search(table, q, 0, |table| - 1, |table|)
  {
    var low, high := 0, |table| - 1;
    found := |table|;
    ghost var goal := Search(table, q, low, high, found);
    while low <= high
      invariant 0 <= low <= high + 1 <= |table|
      invariant Search(table, q, low, high, found) == goal
    {
      var mid := (low + high) / 2;
      SearchStep(table, q, low, high, found, mid);
      var d := table[mid];
      if q.line == d.line && ((d.kind.Fixed? && q.now <= d.time) || (d.kind.Frequency? && q.now <= d.kind.end)) {
        found := mid;
        high := mid - 1;
      } else if q.line < d.line {
        high := mid - 1;
      } else {
        low := mid + 1;
      }
    }
  }

  function Running(time: nat, end: nat): Departure {
    Departure(1, Frequency(end, 10), time, time, 0, true, true)
  }

  /** Ends of frequencies are not ordered by the sort order: one that still runs is missed if the
      search comes to one first that does not. */
  lemma RunningIsMissed()
    ensures var table, q := [Running(0, 100), Running(1, 50), Running(2, 50)], Query(1, 60, 0, 0, false, false, false);
            Sorted(table) && IsFirst(table, q, 0) && PathTo(0, 2, 0) == {1} && Search(table, q, 0, 2, 3) == 3
  {
  }

  datatype Outcome = NoDeparture | Next(d: Departure) | Thrown

  /** The first workable departure that is not passed over. */
  ghost predicate FirstAt(table: seq<Departure>, schedules: seq<Schedule>, q: Query, i: nat)
    requires SchedulesFit(schedules)
  {
    && i < |table| && Decides(table[i], schedules, q)
    && forall j :: 0 <= j < i ==> !Decides(table[j], schedules, q)
  }

  predicate Decides(d: Departure, schedules: seq<Schedule>, q: Query)
    requires SchedulesFit(schedules)
  {
    Workable(d, q) && Judge(d, schedules, q) != Skip
  }

  /** No need to wait on: it is not before now, or the frequency has run out. */
  predicate IsOver(time: int, base: Departure, q: Query)
    requires base.kind.Frequency?
  {
    q.now <= time || base.kind.end <= time
  }

  /** A departure made from a frequency: the fewest whole intervals after its start that are no
      earlier than now, unless the frequency runs out before. */
  ghost predicate MadeFrom(d: Departure, base: Departure, q: Query) {
    && base.kind.Frequency? && d == base.(time := d.time)
    && (exists k: nat :: d.time == base.time + k * base.kind.every && (k > 0 ==> !IsOver(d.time - base.kind.every, base, q)))
    && IsOver(d.time, base, q)
  }

  /** The answer for a departure that can be taken. */
  ghost predicate AnsweredBy(d: Departure, base: Departure, q: Query) {
    if base.kind.Fixed? then d == base && q.now <= d.time else MadeFrom(d, base, q)
  }

  ghost predicate Sound(table: seq<Departure>, schedules: seq<Schedule>, q: Query, d: Departure)
    requires SchedulesFit(schedules)
  {
    exists i :: 0 <= i < |table| && table[i].line == q.line && Judge(table[i], schedules, q) == Take && AnsweredBy(d, table[i], q)
  }

  /** r is the answer that the departure asks for; a time that does not fit is an exception. */
  ghost predicate IsAnswer(r: Outcome, base: Departure, verdict: Verdict, q: Query) {
    match r
    case NoDeparture => false
    case Next(d) => verdict == Take && AnsweredBy(d, base, q)
    case Thrown =>
      || verdict == NoSchedule
      || exists d :: AnsweredBy(d, base, q) && base.kind.Frequency? && d.time > MAX_DEPARTURE_TIME
  }

  ghost predicate Decided(r: Outcome, table: seq<Departure>, schedules: seq<Schedule>, q: Query, i: nat)
    requires SchedulesFit(schedules)
  {
    FirstAt(table, schedules, q, i) && IsAnswer(r, table[i], Judge(table[i], schedules, q), q)
  }

  /** From place from on, the departure at i is the first of the line that is not passed over. */
  ghost predicate FirstFrom(table: seq<Departure>, schedules: seq<Schedule>, q: Query, from: nat, i: nat)
    requires SchedulesFit(schedules)
  {
    && from <= i < |table| && table[i].line == q.line && Judge(table[i], schedules, q) != Skip
    && forall j :: from <= j < i ==> Judge(table[j], schedules, q) == Skip
  }

  /** r is the answer of the scan that begins at from. */
  ghost predicate Scanned(r: Outcome, table: seq<Departure>, schedules: seq<Schedule>, q: Query, from: nat)
    requires SchedulesFit(schedules)
  {
    if r.NoDeparture? then
      forall j :: from <= j < |table| && table[j].line == q.line ==> Judge(table[j], schedules, q) == Skip
    else exists i: nat :: FirstFrom(table, schedules, q, from, i) && IsAnswer(r, table[i], Judge(table[i], schedules, q), q)
  }

  /** What the caller wants: the least time of the departures of the line that can be taken. */
  ghost predicate IsNext(table: seq<Departure>, schedules: seq<Schedule>, q: Query, d: Departure)
    requires SchedulesFit(schedules)
  {
    && d in table && Workable(d, q) && Judge(d, schedules, q) == Take
    && forall j :: 0 <= j < |table| && Workable(table[j], q) && Judge(table[j], schedules, q) == Take ==> d.time <= table[j].time
  }

  lemma FirstIsNext(table: seq<Departure>, schedules: seq<Schedule>, q: Query, i: nat)
    requires SchedulesFit(schedules) && Sorted(table) && OnlyFixed(table, q.line)
    requires FirstAt(table, schedules, q, i) && Judge(table[i], schedules, q) == Take
    ensures IsNext(table, schedules, q, table[i])
  {
    forall j | 0 <= j < |table| && Workable(table[j], q) && Judge(table[j], schedules, q) == Take
      ensures table[i].time <= table[j].time
    {
      assert Decides(table[j], schedules, q);
      if i < j {
        assert !Less(table[j], table[i]);
      }
    }
  }

  /** The intervals of a frequency lead to a time that need not be waited on exactly if they are not
      0, or if there is nothing to wait for. */
  lemma FrequencyEnds(base: Departure, q: Query)
    requires base.kind.Frequency?
    ensures (exists n: nat :: IsOver(base.time + n * base.kind.every, base, q)) <==> CanWait(base, q)
  {
    if base.kind.every > 0 {
      AtLeastOne(q.now, base.kind.every);
      assert IsOver(base.time + q.now * base.kind.every, base, q);
    } else if IsOver(base.time, base, q) {
      assert IsOver(base.time + 0 * base.kind.every, base, q);
    }
  }

  lemma AtLeastOne(n: nat, every: nat)
    requires every > 0
    ensures n * every >= n
  {
  }

  predicate CanWait(base: Departure, q: Query) {
    base.kind.Frequency? ==> base.kind.every > 0 || IsOver(base.time, base, q)
  }

  /** An interval of 0 in the middle of its period is waited on for ever. */
  lemma ZeroIntervalRunsOn(n: nat)
    ensures var base, q := Departure(1, Frequency(100, 0), 10, 0, 0, true, true), Query(1, 60, 0, 0, false, false, false);
            Workable(base, q) && !IsOver(base.time + n * base.kind.every, base, q)
  {
    assert n * 0 == 0;
  }

  /** GetNextDeparture. On any line the answer is that for the first departure that is not passed
      over, from the place on that the search comes to. Where ends are ordered, it is that for the
      first departure that decides; on a line of fixed departures that is the next one. A tile with
      departures has schedules. */
  method GetNextDeparture(table: seq<Departure>, schedules: seq<Schedule>, q: Query) returns (r: Outcome)
    requires Sorted(table) && |table| < COUNT_LIMIT && SchedulesFit(schedules) && (table != [] ==> schedules != [])
    requires forall i :: 0 <= i < |table| && table[i].line == q.line ==> CanWait(table[i], q)
    ensures r.Next? ==> IsServed(table, schedules, q, r.d)
    ensures exists from: nat :: Comes(table, q, from) && Scanned(r, table, schedules, q, from)
    ensures EndsOrdered(table, q.line) ==>
              if r.NoDeparture? then forall i :: 0 <= i < |table| ==> !Decides(table[i], schedules, q)
              else exists i: nat :: Decided(r, table, schedules, q, i)
    ensures OnlyFixed(table, q.line) ==> IsEarliest(table, schedules, q, r)
  {
    r := NextDeparture(table, schedules, q);
    if r.Next? {
      SoundIsServed(table, schedules, q, r.d);
    }
    if OnlyFixed(table, q.line) {
      FixedEndsOrdered(table, q.line);
      EarliestIs(table, schedules, q, r);
    }
  }

  method NextDeparture(table: seq<Departure>, schedules: seq<Schedule>, q: Query) returns (r: Outcome)
    requires Sorted(table) && |table| < COUNT_LIMIT && SchedulesFit(schedules) && (table != [] ==> schedules != [])
    requires forall i :: 0 <= i < |table| && table[i].line == q.line ==> CanWait(table[i], q)
    ensures r.Next? ==> Sound(table, schedules, q, r.d)
    ensures exists from: nat :: Comes(table, q, from) && Scanned(r, table, schedules, q, from)
    ensures EndsOrdered(table, q.line) ==>
              if r.NoDeparture? then forall i :: 0 <= i < |table| ==> !Decides(table[i], schedules, q)
              else exists i: nat :: Decided(r, table, schedules, q, i)
    ensures OnlyFixed(table, q.line) && r.Next? ==> IsNext(table, schedules, q, r.d)
  {
    var found := FindWorkable(table, q);
    ghost var first := found;
    while found < |table| && table[found].line == q.line
      invariant first <= found <= |table|
      invariant forall j :: first <= j < found ==> Judge(table[j], schedules, q) == Skip
    {
      var d := table[found];
      assert first < found ==> !Less(d, table[first]);
      var verdict := Judge(d, schedules, q);
      if !verdict.Skip? {
        r := Answer(d, verdict, q);
        assert FirstFrom(table, schedules, q, first, found);
        assert Scanned(r, table, schedules, q, first);
        if EndsOrdered(table, q.line) {
          assert Decided(r, table, schedules, q, found);
        }
        if OnlyFixed(table, q.line) && r.Next? {
          FixedEndsOrdered(table, q.line);
          FirstIsNext(table, schedules, q, found);
        }
        return;
      }
      found := found + 1;
    }
    r := NoDeparture;
    NoneIsLeft(table, schedules, q, first, found);
  }

  lemma NoneIsLeft(table: seq<Departure>, schedules: seq<Schedule>, q: Query, first: nat, found: nat)
    requires Sorted(table) && SchedulesFit(schedules) && FindsFirst(table, q, first)
    requires first <= found <= |table| && (found < |table| ==> table[found].line != q.line)
    requires forall j :: first <= j < found ==> Judge(table[j], schedules, q) == Skip
    ensures Scanned(NoDeparture, table, schedules, q, first)
    ensures EndsOrdered(table, q.line) ==> forall i :: 0 <= i < |table| ==> !Decides(table[i], schedules, q)
  {
    forall i | found <= i < |table|
      ensures table[i].line != q.line
    {
      if first < found {
        assert !Less(table[found], table[first]) && (found < i ==> !Less(table[i], table[found]));
      }
    }
  }

  method Answer(d: Departure, verdict: Verdict, q: Query) returns (r: Outcome)
    requires !verdict.Skip? && CanWait(d, q) && (d.kind.Fixed? ==> q.now <= d.time)
    ensures IsAnswer(r, d, verdict, q)
  {
    if verdict.NoSchedule? {
      return Thrown;
    }
    if d.kind.Fixed? {
      return Next(d);
    }
    var time := FirstInterval(d, q);
    if time > MAX_DEPARTURE_TIME {
      assert AnsweredBy(d.(time := time), d, q);
      return Thrown;
    }
    return Next(d.(time := time));
  }

  method FirstInterval(base: Departure, q: Query) returns (time: nat)
    requires base.kind.Frequency? && CanWait(base, q)
    ensures MadeFrom(base.(time := time), base, q)
  {
    time := base.time;
    ghost var k: nat := 0;
    while time < q.now && time < base.kind.end
      invariant time == base.time + k * base.kind.every
      invariant k > 0 ==> !IsOver(time - base.kind.every, base, q)
      decreases base.kind.end - time
    {
      time := time + base.kind.every;
      k := k + 1;
    }
  }

  // ----- Access restrictions.

  datatype Restriction = Restriction(edge: nat, modes: bv32, kind: nat, value: nat)

  /** operator< on access restrictions. */
  predicate LessRestriction(a: Restriction, b: Restriction) {
    if a.edge != b.edge then a.edge < b.edge
    else if a.modes != b.modes then a.modes < b.modes
    else if a.kind != b.kind then a.kind < b.kind
    else a.value < b.value
  }

  ghost predicate SortedRestrictions(table: seq<Restriction>) {
    forall i, j :: 0 <= i < j < |table| ==> !LessRestriction(table[j], table[i])
  }

  predicate Applies(r: Restriction, edge: nat, access: bv32) {
    r.edge == edge && r.modes & access != 0
  }

  /** Those of the first n of the table that apply, in the order of the table. */
  function Applying(table: seq<Restriction>, edge: nat, access: bv32, n: nat): seq<Restriction>
    requires n <= |table|
  {
    if n == 0 then []
    else Applying(table, edge, access, n - 1) + if Applies(table[n - 1], edge, access) then [table[n - 1]] else []
  }

  /** The entries of the table for the edge and one of the modes, as often as they are there, and no
      others. */
  ghost predicate AreThose(r: seq<Restriction>, table: seq<Restriction>, edge: nat, access: bv32) {
    forall x :: multiset(r)[x] == if x.edge == edge && x.modes & access != 0 then multiset(table)[x] else 0
  }

  lemma OneMoreEntry(r: seq<Restriction>, table: seq<Restriction>, x: Restriction, y: Restriction, xFits: bool, yFits: bool)
    requires (x == y ==> xFits == yFits) && multiset(r)[y] == if yFits then multiset(table)[y] else 0
    ensures multiset(r + if xFits then [x] else [])[y] == if yFits then multiset(table + [x])[y] else 0
  {
  }

  lemma {:induction false} ApplyingCounts(table: seq<Restriction>, edge: nat, access: bv32, n: nat, y: Restriction)
    requires n <= |table|
    ensures multiset(Applying(table, edge, access, n))[y] == if Applies(y, edge, access) then multiset(table[..n])[y] else 0
  {
    if n > 0 {
      ApplyingCounts(table, edge, access, n - 1, y);
      var x := table[n - 1];
      OneMoreEntry(Applying(table, edge, access, n - 1), table[..n - 1], x, y, Applies(x, edge, access), Applies(y, edge, access));
      assert table[..n] == table[..n - 1] + [x];
    }
  }

  lemma ApplyingAre(table: seq<Restriction>, edge: nat, access: bv32)
    ensures AreThose(Applying(table, edge, access, |table|), table, edge, access)
  {
    assert table[..|table|] == table;
    forall x
      ensures multiset(Applying(table, edge, access, |table|))[x] == if Applies(x, edge, access) then multiset(table)[x] else 0
    {
      ApplyingCounts(table, edge, access, |table|, x);
    }
  }

  lemma StillSorted(r: seq<Restriction>, x: Restriction)
    requires SortedRestrictions(r) && forall y :: y in r ==> !LessRestriction(x, y)
    ensures SortedRestrictions(r + [x])
  {
  }

  lemma {:induction false} ApplyingFrom(table: seq<Restriction>, edge: nat, access: bv32, n: nat, y: Restriction)
    requires n <= |table| && y in Applying(table, edge, access, n)
    ensures exists i :: 0 <= i < n && table[i] == y
  {
    if y != table[n - 1] {
      ApplyingFrom(table, edge, access, n - 1, y);
    }
  }

  lemma {:induction false} ApplyingSorted(table: seq<Restriction>, edge: nat, access: bv32, n: nat)
    requires n <= |table| && SortedRestrictions(table)
    ensures SortedRestrictions(Applying(table, edge, access, n))
  {
    if n > 0 {
      ApplyingSorted(table, edge, access, n - 1);
      var rest := Applying(table, edge, access, n - 1);
      forall y | y in rest
        ensures !LessRestriction(table[n - 1], y)
      {
        ApplyingFrom(table, edge, access, n - 1, y);
      }
      StillSorted(rest, table[n - 1]);
    }
  }

  lemma {:induction false} NoneApply(table: seq<Restriction>, edge: nat, access: bv32, m: nat, n: nat)
    requires m <= n <= |table| && forall i :: m <= i < n ==> table[i].edge != edge
    ensures Applying(table, edge, access, n) == Applying(table, edge, access, m)
  {
    if m < n {
      NoneApply(table, edge, access, m, n - 1);
    }
  }

  lemma EdgesAround(table: seq<Restriction>, mid: nat)
    requires SortedRestrictions(table) && mid < |table|
    ensures forall i :: 0 <= i < mid ==> table[i].edge <= table[mid].edge
    ensures forall i :: mid < i < |table| ==> table[i].edge >= table[mid].edge
  {
    assert forall i :: 0 <= i < mid ==> !LessRestriction(table[mid], table[i]);
    assert forall i :: mid < i < |table| ==> !LessRestriction(table[i], table[mid]);
  }

  /** The binary search: everything before what it finds belongs to smaller edges. */
  method FindEdge(table: seq<Restriction>, edge: nat) returns (found: nat)
    requires SortedRestrictions(table) && |table| < COUNT_LIMIT
    ensures found <= |table|
    ensures forall i :: 0 <= i < found ==> table[i].edge != edge
    ensures found < |table| ==> table[found].edge == edge
  {
    var low, high := 0, |table| - 1;
    found := |table|;
    while low <= high
      invariant 0 <= low <= high + 1 <= |table|
      invariant found == |table| || (found == high + 1 && table[found].edge == edge)
      invariant forall i :: 0 <= i < low ==> table[i].edge < edge
      invariant forall i :: high < i < |table| ==> table[i].edge >= edge && (found == |table| ==> table[i].edge > edge)
    {
      var mid := (low + high) / 2;
      EdgesAround(table, mid);
      if edge == table[mid].edge {
        found := mid;
        high := mid - 1;
      } else if edge < table[mid].edge {
        high := mid - 1;
      } else {
        low := mid + 1;
      }
    }
  }

  /** GetAccessRestrictions: the search and the scan find all entries that apply, in sorted order. */
  method GetAccessRestrictions(table: seq<Restriction>, edge: nat, access: bv32) returns (r: seq<Restriction>)
    requires SortedRestrictions(table) && |table| < COUNT_LIMIT
    ensures AreThose(r, table, edge, access) && SortedRestrictions(r)
  {
    r := Restrictions(table, edge, access);
    ApplyingAre(table, edge, access);
    ApplyingSorted(table, edge, access, |table|);
  }

  method Restrictions(table: seq<Restriction>, edge: nat, access: bv32) returns (r: seq<Restriction>)
    requires SortedRestrictions(table) && |table| < COUNT_LIMIT
    ensures r == Applying(table, edge, access, |table|)
  {
    var found := FindEdge(table, edge);
    NoneApply(table, edge, access, 0, found);
    r := [];
    ghost var first := found;
    while found < |table| && table[found].edge == edge
      invariant first <= found <= |table| && r == Applying(table, edge, access, found)
      invariant first < |table| ==> table[first].edge == edge
    {
      ApplyingNext(table, edge, access, found);
      if table[found].modes & access != 0 {
        r := r + [table[found]];
      }
      found := found + 1;
    }
    NoneAfter(table, edge, access, found, first);
  }

  lemma ApplyingNext(table: seq<Restriction>, edge: nat, access: bv32, n: nat)
    requires n < |table| && table[n].edge == edge
    ensures Applying(table, edge, access, n + 1)
            == if table[n].modes & access != 0 then Applying(table, edge, access, n) + [table[n]]
               else Applying(table, edge, access, n)
  {
  }

  lemma NoneAfter(table: seq<Restriction>, edge: nat, access: bv32, found: nat, first: nat)
    requires SortedRestrictions(table) && first <= found <= |table| && (first < |table| ==> table[first].edge == edge)
    requires found < |table| ==> table[found].edge != edge
    ensures Applying(table, edge, access, |table|) == Applying(table, edge, access, found)
  {
    if found < |table| {
      EdgesAround(table, first);
      EdgesAround(table, found);
    }
    NoneApply(table, edge, access, found, |table|);
  }
}
