/** Stepping through the (rule, year) pairs of one name on a normalised table: find_next_rule,
    find_previous_rule and find_first_std_rule. */
module TzEnumerate {
  import opened Calendar
  import opened TzRule
  import opened TzSplit
  import opened TzRuleTable

  /** A place in the table and a year its rule is in force. */
  datatype Pair = Pair(at: nat, year: int)

  datatype Step = End | At(pair: Pair)

  ghost predicate IsPair(rs: seq<Rule>, p: Pair) {
    p.at < |rs| && rs[p.at].start <= p.year <= rs[p.at].end
  }

  ghost predicate PairOf(rs: seq<Rule>, name: int, p: Pair) {
    IsPair(rs, p) && rs[p.at].name == name
  }

  /** The order of the steps: by year, and within a year by place. */
  predicate Earlier(p: Pair, q: Pair) {
    p.year < q.year || (p.year == q.year && p.at < q.at)
  }

  lemma EarlierIsLexicographic(p: Pair, q: Pair)
    ensures Earlier(p, q) <==> Lexicographic([p.year, p.at as int], [q.year, q.at as int])
  {
    var (a, b) := ([p.year, p.at as int], [q.year, q.at as int]);
    assert a[0] < b[0] ==> a[..0] == b[..0];
    assert a[0] == b[0] ==> a[..1] == b[..1];
    if k :| 0 <= k < 2 && a[..k] == b[..k] && a[k] < b[k] {
      assert forall j :: 0 <= j < k ==> a[j] == a[..k][j] == b[..k][j] == b[j];
    }
  }

  /** q comes right after p among the pairs of p's name. */
  ghost predicate Follows(rs: seq<Rule>, p: Pair, q: Pair) {
    && IsPair(rs, p) && PairOf(rs, rs[p.at].name, q) && Earlier(p, q)
    && forall r | PairOf(rs, rs[p.at].name, r) && Earlier(p, r) :: r == q || Earlier(q, r)
  }

  ghost predicate IsLast(rs: seq<Rule>, p: Pair) {
    IsPair(rs, p) && forall r | PairOf(rs, rs[p.at].name, r) :: r == p || Earlier(r, p)
  }

  ghost predicate IsFirst(rs: seq<Rule>, p: Pair) {
    IsPair(rs, p) && forall r | PairOf(rs, rs[p.at].name, r) :: r == p || Earlier(p, r)
  }

  lemma Between(rs: seq<Rule>, p: nat, q: nat)
    requires Normalised(rs) && p <= q < |rs|
    ensures rs[p].name <= rs[q].name && InOrder(rs[p]) && InOrder(rs[q])
    ensures rs[p].name == rs[q].name ==> p == q || EqualOrApart(rs[p], rs[q])
  {
    assert rs[p] in rs && rs[q] in rs;
  }

  lemma SameNameBetween(rs: seq<Rule>, p: nat, r: nat, q: nat)
    requires Normalised(rs) && p <= r <= q < |rs| && rs[p].name == rs[q].name
    ensures rs[r].name == rs[p].name
  {
    Between(rs, p, r);
    Between(rs, r, q);
  }

  /** find_next_rule(r, y). */
  method FindNext(rs: seq<Rule>, p: Pair) returns (next: Step)
    requires Normalised(rs) && IsPair(rs, p)
    ensures next.End? ==> IsLast(rs, p)
    ensures next.At? ==> Follows(rs, p, next.pair)
  {
    var r, y := p.at, p.year;
    if y == rs[r].end {
      if r == |rs| - 1 || rs[r].name != rs[r + 1].name {
        LastOfName(rs, p);
        return End;
      }
      r := r + 1;
      Between(rs, p.at, r);
      if y == rs[r].end {
        NextInYear(rs, p);
        return At(Pair(r, y));
      }
      NextRange(rs, p);
      return At(Pair(r, rs[r].start));
    }
    if r == |rs| - 1 || rs[r].name != rs[r + 1].name || rs[r].end < rs[r + 1].end {
      while r > 0 && rs[r].name == rs[r - 1].name && rs[r].start == rs[r - 1].start
        invariant r <= p.at
        invariant forall q :: r <= q <= p.at ==> rs[q].name == rs[p.at].name && rs[q].start == rs[p.at].start
      {
        r := r - 1;
      }
      NextYear(rs, p, r);
      return At(Pair(r, y + 1));
    }
    Between(rs, r, r + 1);
    NextInYear(rs, p);
    return At(Pair(r + 1, y));
  }

  /** find_next_rule(first, last, r, y), on the stretch [first, last) of one name. */
  method FindNextIn(rs: seq<Rule>, first: nat, last: nat, p: Pair) returns (next: Step)
    requires Normalised(rs) && first <= p.at < last <= |rs| && IsPair(rs, p)
    requires forall q :: 0 <= q < |rs| ==> (rs[q].name == rs[p.at].name <==> first <= q < last)
    ensures next.End? ==> IsLast(rs, p)
    ensures next.At? ==> Follows(rs, p, next.pair)
  {
    var r, y := p.at, p.year;
    if y == rs[r].end {
      if r == last - 1 {
        LastOfName(rs, p);
        return End;
      }
      r := r + 1;
      Between(rs, p.at, r);
      if y == rs[r].end {
        NextInYear(rs, p);
        return At(Pair(r, y));
      }
      NextRange(rs, p);
      return At(Pair(r, rs[r].start));
    }
    if r == last - 1 || rs[r].end < rs[r + 1].end {
      while r > first && rs[r].start == rs[r - 1].start
        invariant first <= r <= p.at
        invariant forall q :: r <= q <= p.at ==> rs[q].name == rs[p.at].name && rs[q].start == rs[p.at].start
      {
        r := r - 1;
      }
      NextYear(rs, p, r);
      return At(Pair(r, y + 1));
    }
    Between(rs, r, r + 1);
    NextInYear(rs, p);
    return At(Pair(r + 1, y));
  }

  /** find_previous_rule(r, y). The source calls std::terminate on the first pair of a name,
      which its callers must avoid; End stands for that. */
  method FindPrevious(rs: seq<Rule>, p: Pair) returns (prev: Step)
    requires Normalised(rs) && IsPair(rs, p)
    ensures prev.End? ==> IsFirst(rs, p)
    ensures prev.At? ==> Follows(rs, prev.pair, p)
  {
    var r, y := p.at, p.year;
    if y == rs[r].start {
      if r == 0 || rs[r].name != rs[r - 1].name {
        FirstOfName(rs, p);
        return End;
      }
      PreviousRange(rs, p);
      r := r - 1;
      if y == rs[r].start {
        return At(Pair(r, y));
      }
      return At(Pair(r, rs[r].end));
    }
    if r == 0 || rs[r].name != rs[r - 1].name || rs[r - 1].start < rs[r].start {
      while r < |rs| - 1 && rs[r].name == rs[r + 1].name && rs[r].start == rs[r + 1].start
        invariant p.at <= r < |rs|
        invariant forall q :: p.at <= q <= r ==> rs[q].name == rs[p.at].name && rs[q].start == rs[p.at].start
      {
        r := r + 1;
      }
      Between(rs, p.at, r);
      NextYear(rs, Pair(r, y - 1), p.at);
      return At(Pair(r, y - 1));
    }
    Between(rs, r - 1, r);
    NextInYear(rs, Pair(r - 1, y));
    return At(Pair(r - 1, y));
  }

  lemma PreviousRange(rs: seq<Rule>, p: Pair)
    requires Normalised(rs) && IsPair(rs, p) && p.year == rs[p.at].start
    requires p.at > 0 && rs[p.at].name == rs[p.at - 1].name
    ensures var r := p.at - 1; Follows(rs, Pair(r, if p.year == rs[r].start then p.year else rs[r].end), p)
  {
    var r := p.at - 1;
    Between(rs, r, p.at);
    if p.year == rs[r].start {
      NextInYear(rs, Pair(r, p.year));
    } else {
      NextRange(rs, Pair(r, rs[r].end));
    }
  }

  // ----- The four ways the order goes on.

  lemma LastOfName(rs: seq<Rule>, p: Pair)
    requires Normalised(rs) && IsPair(rs, p) && p.year == rs[p.at].end
    requires p.at == |rs| - 1 || rs[p.at].name != rs[p.at + 1].name
    ensures IsLast(rs, p)
  {
    forall r | PairOf(rs, rs[p.at].name, r)
      ensures r == p || Earlier(r, p)
    {
      if r.at > p.at {
        SameNameBetween(rs, p.at, p.at + 1, r.at);
        assert false;
      }
      Between(rs, r.at, p.at);
    }
  }

  lemma FirstOfName(rs: seq<Rule>, p: Pair)
    requires Normalised(rs) && IsPair(rs, p) && p.year == rs[p.at].start
    requires p.at == 0 || rs[p.at].name != rs[p.at - 1].name
    ensures IsFirst(rs, p)
  {
    forall r | PairOf(rs, rs[p.at].name, r)
      ensures r == p || Earlier(p, r)
    {
      if r.at < p.at {
        assert false;
      }
      Between(rs, p.at, r.at);
    }
  }

  lemma NextInYear(rs: seq<Rule>, p: Pair)
    requires Normalised(rs) && IsPair(rs, p) && p.at + 1 < |rs|
    requires rs[p.at].name == rs[p.at + 1].name && rs[p.at + 1].start <= p.year <= rs[p.at + 1].end
    ensures Follows(rs, p, Pair(p.at + 1, p.year))
  {
  }

  lemma NextRange(rs: seq<Rule>, p: Pair)
    requires Normalised(rs) && IsPair(rs, p) && p.at + 1 < |rs| && p.year == rs[p.at].end
    requires rs[p.at].name == rs[p.at + 1].name && p.year != rs[p.at + 1].end
    ensures Follows(rs, p, Pair(p.at + 1, rs[p.at + 1].start))
  {
    var q := Pair(p.at + 1, rs[p.at + 1].start);
    Between(rs, p.at, p.at + 1);
    forall r | PairOf(rs, rs[p.at].name, r) && Earlier(p, r)
      ensures r == q || Earlier(q, r)
    {
      if r.at <= p.at {
        Between(rs, r.at, p.at);
      } else {
        Between(rs, p.at + 1, r.at);
      }
    }
  }

  /** After the last rule of a run with equal years comes its first, one year on. */
  lemma NextYear(rs: seq<Rule>, p: Pair, f: nat)
    requires Normalised(rs) && IsPair(rs, p) && p.year < rs[p.at].end
    requires p.at == |rs| - 1 || rs[p.at].name != rs[p.at + 1].name || rs[p.at].start != rs[p.at + 1].start
             || rs[p.at].end < rs[p.at + 1].end
    requires f <= p.at && rs[f].name == rs[p.at].name && rs[f].start == rs[p.at].start
    requires f == 0 || rs[f].name != rs[f - 1].name || rs[f].start != rs[f - 1].start
    ensures Follows(rs, p, Pair(f, p.year + 1))
  {
    var q := Pair(f, p.year + 1);
    Between(rs, f, p.at);
    forall r | PairOf(rs, rs[p.at].name, r) && Earlier(p, r)
      ensures r == q || Earlier(q, r)
    {
      if r.at < f {
        var b: nat := f - 1;
        SameNameBetween(rs, r.at, b, f);
        Between(rs, r.at, b);
        Between(rs, b, f);
      } else if p.at < r.at {
        SameNameBetween(rs, p.at, p.at + 1, r.at);
        Between(rs, p.at, p.at + 1);
        Between(rs, p.at + 1, r.at);
      } else {
        Between(rs, f, r.at);
      }
    }
  }

  // ----- What follows for whole walks.

  /** Going on is a partial function with a partial inverse: a pair follows at most one pair and
      is followed by at most one, the last pair by none, and the first follows none. So
      FindPrevious undoes FindNext and FindNext undoes FindPrevious. */
  lemma FollowsIsOneToOne(rs: seq<Rule>, p: Pair, q: Pair, p': Pair, q': Pair)
    requires Follows(rs, p, q) && Follows(rs, p', q')
    ensures p == p' ==> q == q'
    ensures q == q' ==> p == p'
    ensures !IsLast(rs, p) && !IsFirst(rs, q)
  {
    assert PairOf(rs, rs[q.at].name, p) && PairOf(rs, rs[q'.at].name, p');
    if q == q' && p != p' {
      assert false;
    }
  }

  /** A walk from the first pair of a name to its last, each pair following the one before. */
  ghost predicate Walk(rs: seq<Rule>, ps: seq<Pair>) {
    && ps != [] && IsFirst(rs, ps[0]) && IsLast(rs, ps[|ps| - 1])
    && forall j :: 0 < j < |ps| ==> Follows(rs, ps[j - 1], ps[j])
  }

  lemma {:induction false} WalkClimbs(rs: seq<Rule>, ps: seq<Pair>, i: nat, j: nat)
    requires Walk(rs, ps) && i < j < |ps|
    ensures IsPair(rs, ps[i]) && IsPair(rs, ps[j])
    ensures Earlier(ps[i], ps[j]) && rs[ps[i].at].name == rs[ps[j].at].name
    decreases j
  {
    assert Follows(rs, ps[j - 1], ps[j]);
    if i < j - 1 {
      WalkClimbs(rs, ps, i, j - 1);
    }
  }

  lemma {:induction false} WalkReaches(rs: seq<Rule>, ps: seq<Pair>, j: nat, r: Pair)
    requires Walk(rs, ps) && j < |ps| && PairOf(rs, rs[ps[0].at].name, r)
    requires r == ps[j] || Earlier(ps[j], r)
    ensures r in ps
    decreases |ps| - j
  {
    if j > 0 {
      WalkClimbs(rs, ps, 0, j);
    }
    if r != ps[j] {
      if j + 1 < |ps| {
        assert Follows(rs, ps[j], ps[j + 1]);
        WalkReaches(rs, ps, j + 1, r);
      } else {
        assert false;
      }
    }
  }

  /** The walk meets every pair of the name once, year by year and within a year in the order of
      the table. */
  lemma WalkVisitsAllOnce(rs: seq<Rule>, ps: seq<Pair>)
    requires Walk(rs, ps)
    ensures forall r :: r in ps <==> PairOf(rs, rs[ps[0].at].name, r)
    ensures forall i, j :: 0 <= i < j < |ps| ==> Earlier(ps[i], ps[j])
  {
    forall i, j | 0 <= i < j < |ps|
      ensures Earlier(ps[i], ps[j])
    {
      WalkClimbs(rs, ps, i, j);
    }
    forall r
      ensures r in ps <==> PairOf(rs, rs[ps[0].at].name, r)
    {
      if PairOf(rs, rs[ps[0].at].name, r) {
        WalkReaches(rs, ps, 0, r);
      } else if r in ps {
        var j :| 0 <= j < |ps| && ps[j] == r;
        if j > 0 {
          WalkClimbs(rs, ps, 0, j);
        }
        assert false;
      }
    }
  }

  // ----- When that is the order of time.

  ghost function MomentOf(rs: seq<Rule>, p: Pair): int
    requires p.at < |rs|
  {
    ToSerial(rs[p.at].on, p.year)
  }

  /** No rule of the name names a day of another year. */
  ghost predicate StayInYears(rs: seq<Rule>, name: int) {
    forall p: Pair :: PairOf(rs, name, p) ==> !LeavesYear(rs[p.at].on, p.year)
  }

  /** In each year, the rules of the name are in the table in the order of their days. */
  ghost predicate DaysInOrder(rs: seq<Rule>, name: int) {
    forall p, q: Pair :: PairOf(rs, name, p) && PairOf(rs, name, q) && p.year == q.year && p.at < q.at ==>
                           MomentOf(rs, p) <= MomentOf(rs, q)
  }

  ghost predicate InTimeOrder(rs: seq<Rule>, ps: seq<Pair>)
    requires forall p | p in ps :: p.at < |rs|
  {
    forall i, j :: 0 <= i < j < |ps| ==> MomentOf(rs, ps[i]) <= MomentOf(rs, ps[j])
  }

  lemma StaysInItsYear(on: On, y: int)
    requires !LeavesYear(on, y)
    ensures YearStart(y) <= ToSerial(on, y) < YearStart(y) + YearLength(y)
  {
    if !on.MonthDay? {
      LeavesYearIsExact(on, y);
    }
  }

  lemma TwoInTimeOrder(rs: seq<Rule>, name: int, p: Pair, q: Pair)
    requires StayInYears(rs, name) && DaysInOrder(rs, name) && PairOf(rs, name, p) && PairOf(rs, name, q) && Earlier(p, q)
    ensures MomentOf(rs, p) <= MomentOf(rs, q)
  {
    if p.year < q.year {
      StaysInItsYear(rs[p.at].on, p.year);
      StaysInItsYear(rs[q.at].on, q.year);
      YearStartMonotone(p.year, q.year);
    }
  }

  /** Where no day leaves its year, the walk is in the order of time exactly if in each year the table is. */
  lemma WalkInTimeOrder(rs: seq<Rule>, ps: seq<Pair>)
    requires Walk(rs, ps) && StayInYears(rs, rs[ps[0].at].name)
    ensures (forall p | p in ps :: p.at < |rs|) && (InTimeOrder(rs, ps) <==> DaysInOrder(rs, rs[ps[0].at].name))
  {
    var name := rs[ps[0].at].name;
    WalkVisitsAllOnce(rs, ps);
    assert forall p | p in ps :: PairOf(rs, name, p);
    if DaysInOrder(rs, name) {
      forall i, j | 0 <= i < j < |ps|
        ensures ps[i] in ps && ps[j] in ps && MomentOf(rs, ps[i]) <= MomentOf(rs, ps[j])
      {
        TwoInTimeOrder(rs, name, ps[i], ps[j]);
      }
    }
    if InTimeOrder(rs, ps) {
      forall p, q: Pair | PairOf(rs, name, p) && PairOf(rs, name, q) && p.year == q.year && p.at < q.at
        ensures MomentOf(rs, p) <= MomentOf(rs, q)
      {
        var i :| 0 <= i < |ps| && ps[i] == p;
        var j :| 0 <= j < |ps| && ps[j] == q;
        assert j < i ==> Earlier(ps[j], ps[i]);
      }
    }
  }

  /** Two rules that the sort order puts the wrong way round, in years in which 8 March is a Monday, such
      as 2021: the Sunday on or after 8 March is the 14th, and sorts before the 10th. */
  lemma SundayAfterTenth(y: int, x: Rule, r: Rule)
    requires WeekdayOf(Serial(Date(y, 3, 8))) == 1
    requires x.on == OnOrAfter(3, 8, 0) && r == x.(on := MonthDay(3, 10)) && x.start <= y <= x.end
    ensures Less(x, r) && ToSerial(r.on, y) < ToSerial(x.on, y) == Serial(Date(y, 3, 14))
    ensures Normalised([x, r]) && !DaysInOrder([x, r], x.name)
  {
    assert DaysAhead(Serial(Date(y, 3, 8)), 0) == 6;
    var rs := [x, r];
    assert PairOf(rs, x.name, Pair(0, y)) && PairOf(rs, x.name, Pair(1, y));
    assert MomentOf(rs, Pair(1, y)) < MomentOf(rs, Pair(0, y));
  }

  /** The walk so far, from the first pair of the name up to p. */
  ghost predicate Walked(rs: seq<Rule>, ps: seq<Pair>, first: nat, p: Pair) {
    && ps != [] && ps[0].at == first && IsFirst(rs, ps[0]) && ps[|ps| - 1] == p && IsPair(rs, p)
    && forall j :: 0 < j < |ps| ==> Follows(rs, ps[j - 1], ps[j])
  }

  lemma WalkBegins(rs: seq<Rule>, first: nat)
    requires Normalised(rs) && first < |rs| && (first > 0 ==> rs[first - 1].name != rs[first].name)
    ensures Walked(rs, [Pair(first, rs[first].start)], first, Pair(first, rs[first].start))
  {
    Between(rs, first, first);
    FirstOfName(rs, Pair(first, rs[first].start));
  }

  lemma WalkGoesOn(rs: seq<Rule>, ps: seq<Pair>, first: nat, p: Pair, next: Pair)
    requires Walked(rs, ps, first, p) && Follows(rs, p, next)
    ensures Walked(rs, ps + [next], first, next)
  {
  }

  /** Iterating find_next_rule over the whole table, from the first rule of a name and its starting
      year until it returns nothing: terminates, and has then visited every pair of the name, each
      once, year by year and within a year in the order of the table. */
  method WalkName(rs: seq<Rule>, first: nat) returns (ps: seq<Pair>)
    requires Normalised(rs) && first < |rs| && (first > 0 ==> rs[first - 1].name != rs[first].name)
    ensures Walk(rs, ps) && ps[0] == Pair(first, rs[first].start)
    ensures forall r :: r in ps <==> PairOf(rs, rs[first].name, r)
    ensures forall i, j :: 0 <= i < j < |ps| ==> Earlier(ps[i], ps[j])
  {
    WalkBegins(rs, first);
    var p := Pair(first, rs[first].start);
    ps := [p];
    while true
      invariant Walked(rs, ps, first, p) && ps[0] == Pair(first, rs[first].start)
      decreases 32767 - p.year, |rs| - p.at
    {
      var next := FindNext(rs, p);
      if next.End? {
        break;
      }
      WalkGoesOn(rs, ps, first, p, next.pair);
      p := next.pair;
      ps := ps + [p];
    }
    WalkVisitsAllOnce(rs, ps);
  }

  /** The same with the find_next_rule that is given the run of rules of the name. */
  method WalkNameIn(rs: seq<Rule>, first: nat, last: nat) returns (ps: seq<Pair>)
    requires Normalised(rs) && first < last <= |rs|
    requires forall q :: 0 <= q < |rs| ==> (rs[q].name == rs[first].name <==> first <= q < last)
    ensures Walk(rs, ps) && ps[0] == Pair(first, rs[first].start)
    ensures forall r :: r in ps <==> PairOf(rs, rs[first].name, r)
    ensures forall i, j :: 0 <= i < j < |ps| ==> Earlier(ps[i], ps[j])
  {
    WalkBegins(rs, first);
    var p := Pair(first, rs[first].start);
    ps := [p];
    while true
      invariant first <= p.at < last && Walked(rs, ps, first, p) && ps[0] == Pair(first, rs[first].start)
      decreases 32767 - p.year, |rs| - p.at
    {
      var next := FindNextIn(rs, first, last, p);
      if next.End? {
        break;
      }
      WalkGoesOn(rs, ps, first, p, next.pair);
      p := next.pair;
      ps := ps + [p];
    }
    WalkVisitsAllOnce(rs, ps);
  }

  datatype Found = NoStandard | Standard(at: nat)

  /** find_first_std_rule: the same steps, here looking for the first pair without daylight saving.
      NoStandard stands for the exception. */
  method FindFirstStandard(rs: seq<Rule>, first: nat, last: nat) returns (found: Found)
    requires Normalised(rs) && first < last <= |rs|
    requires forall q :: 0 <= q < |rs| ==> (rs[q].name == rs[first].name <==> first <= q < last)
    ensures found.Standard? ==> first <= found.at < last && rs[found.at].save == 0
    ensures found.Standard? ==>
              exists y :: IsPair(rs, Pair(found.at, y)) &&
                forall r | PairOf(rs, rs[first].name, r) && Earlier(r, Pair(found.at, y)) :: rs[r.at].save != 0
    ensures found.NoStandard? <==> forall q :: first <= q < last ==> rs[q].save != 0
  {
    WalkBegins(rs, first);
    var p := Pair(first, rs[first].start);
    while rs[p.at].save != 0
      invariant first <= p.at < last && IsPair(rs, p)
      invariant forall r | PairOf(rs, rs[first].name, r) && Earlier(r, p) :: rs[r.at].save != 0
      decreases 32767 - p.year, |rs| - p.at
    {
      var next := FindNextIn(rs, first, last, p);
      if next.End? {
        forall q | first <= q < last
          ensures rs[q].save != 0
        {
          assert rs[q] in rs;
          assert PairOf(rs, rs[first].name, Pair(q, rs[q].start));
        }
        return NoStandard;
      }
      forall r | PairOf(rs, rs[first].name, r) && Earlier(r, next.pair)
        ensures rs[r.at].save != 0
      {
        assert r == p || Earlier(r, p) || Earlier(p, r);
      }
      p := next.pair;
    }
    return Standard(p.at);
  }
}
