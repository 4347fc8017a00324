/** The vector of rules that the database initialisation sorts and then normalises in place. */
module TzRuleTable {
  import opened Calendar
  import opened TzRule
  import opened TzSplit
  import opened TzMeaning

  lemma PrependSorted(x: Rule, s: seq<Rule>)
    requires Sorted(s) && forall y | y in s :: AtMost(x, y)
    ensures Sorted([x] + s)
  {
  }

  function InsertSorted(r: Rule, s: seq<Rule>): (t: seq<Rule>)
    requires Sorted(s)
    ensures Sorted(t) && multiset(t) == multiset(s) + multiset{r}
  {
    if s == [] then [r]
    else
      HeadIsLeast(s);
      if AtMost(r, s[0]) then
        PrependSorted(r, s);
        [r] + s
      else
        var rest := InsertSorted(r, s[1..]);
        MembersAfter(s[1..], r, rest);
        PrependSorted(s[0], rest);
        PrependMultiset(s, r, rest);
        [s[0]] + rest
  }

  lemma HeadIsLeast(s: seq<Rule>)
    requires Sorted(s) && s != []
    ensures Sorted(s[1..]) && forall x | x in s :: x == s[0] || AtMost(s[0], x)
    ensures forall x | x in s[1..] :: AtMost(s[0], x)
  {
  }

  lemma MembersAfter(s: seq<Rule>, r: Rule, t: seq<Rule>)
    requires multiset(t) == multiset(s) + multiset{r}
    ensures forall x | x in t :: x in s || x == r
  {
    assert forall x | x in t :: x in multiset(t);
  }

  lemma PrependMultiset(s: seq<Rule>, r: Rule, t: seq<Rule>)
    requires s != [] && multiset(t) == multiset(s[1..]) + multiset{r}
    ensures multiset([s[0]] + t) == multiset(s) + multiset{r}
  {
    assert s == [s[0]] + s[1..];
  }

  /** A sorting algorithm; callers know only that its result is a sorted permutation. */
  function SortedCopy(s: seq<Rule>): (t: seq<Rule>)
    ensures Sorted(t) && multiset(t) == multiset(s)
  {
    if s == [] then []
    else
      assert s == [s[0]] + s[1..];
      InsertSorted(s[0], SortedCopy(s[1..]))
  }

  /** The table after normalisation: names in order, and any two rules of one name with equal
      or disjoint years, earlier years first. */
  ghost predicate Normalised(rs: seq<Rule>) {
    && AllInOrder(rs)
    && forall p, q :: 0 <= p < q < |rs| ==>
         rs[p].name < rs[q].name || (rs[p].name == rs[q].name && EqualOrApart(rs[p], rs[q]))
  }

  lemma SliceOfSlice(s: seq<Rule>, a: nat, b: nat, c: nat, d: nat)
    requires a <= b <= |s| && c <= d <= b - a
    ensures s[a..b][c..d] == s[a + c..a + d]
  {
    var t := s[a..b];
    assert |t[c..d]| == |s[a + c..a + d]|;
    assert forall j :: 0 <= j < d - c ==> t[c..d][j] == t[c + j] == s[a + (c + j)] == s[a + c..a + d][j];
  }

  function TableAfterSplit(rs: seq<Rule>, i: nat, k: nat): seq<Rule>
    requires i < k < |rs|
    requires InOrder(rs[i]) && InOrder(rs[k]) && Splittable(rs[i], rs[k])
  {
    rs[..i] + [First(rs[i], rs[k])] + rs[i + 1..k] + Shared(rs[i], rs[k]) + [Second(rs[i], rs[k])]
    + Tail(rs[i], rs[k]) + rs[k + 1..]
  }

  // ----- The insertions and assignments of each branch of Rule::split, in the branch's own order.

  function Inserted(s: seq<Rule>, at: nat, r: Rule): (t: seq<Rule>)
    requires at <= |s|
    ensures |t| == |s| + 1 && t[at] == r
    ensures forall j :: 0 <= j < at ==> t[j] == s[j]
    ensures forall j :: at < j < |t| ==> t[j] == s[j - 1]
  {
    s[..at] + [r] + s[at..]
  }

  function WithEnd(s: seq<Rule>, at: nat, end: Year): seq<Rule>
    requires at < |s|
  {
    s[at := s[at].(end := end)]
  }

  ghost predicate CanSplit(rs: seq<Rule>, i: nat, k: nat) {
    i < k < |rs| && InOrder(rs[i]) && InOrder(rs[k]) && Splittable(rs[i], rs[k])
  }

  /** The table in five parts around places i and k. */
  lemma FiveParts(rs: seq<Rule>, i: nat, k: nat)
    requires i < k < |rs|
    ensures rs == rs[..i] + [rs[i]] + rs[i + 1..k] + [rs[k]] + rs[k + 1..]
  {
  }

  lemma SplitTogetherLonger(rs: seq<Rule>, i: nat, k: nat)
    requires CanSplit(rs, i, k) && rs[i].start == rs[k].start && rs[k].end < rs[i].end
    ensures WithEnd(Inserted(rs, k + 1, Restricted(rs[i], rs[k].end + 1, rs[i].end)), i, rs[k].end)
            == TableAfterSplit(rs, i, k)
  {
    var (a, m, b) := (rs[..i], rs[i + 1..k], rs[k + 1..]);
    var tail := Restricted(rs[i], rs[k].end + 1, rs[i].end);
    FiveParts(rs, i, k);
    assert Inserted(rs, k + 1, tail) == a + [rs[i]] + m + [rs[k]] + [tail] + b;
    assert TableAfterSplit(rs, i, k) == a + [First(rs[i], rs[k])] + m + [] + [rs[k]] + [tail] + b;
  }

  lemma SplitTogetherShorter(rs: seq<Rule>, i: nat, k: nat)
    requires CanSplit(rs, i, k) && rs[i].start == rs[k].start && rs[k].end >= rs[i].end
    ensures WithEnd(Inserted(rs, k + 1, Restricted(rs[k], rs[i].end + 1, rs[k].end)), k, rs[i].end)
            == TableAfterSplit(rs, i, k)
  {
    var (a, m, b) := (rs[..i], rs[i + 1..k], rs[k + 1..]);
    var tail := Restricted(rs[k], rs[i].end + 1, rs[k].end);
    FiveParts(rs, i, k);
    assert Inserted(rs, k + 1, tail) == a + [rs[i]] + m + [rs[k]] + [tail] + b;
    assert TableAfterSplit(rs, i, k) == a + [rs[i]] + m + [] + [Second(rs[i], rs[k])] + [tail] + b;
  }

  lemma SplitInsideLonger(rs: seq<Rule>, i: nat, k: nat)
    requires CanSplit(rs, i, k) && rs[i].start < rs[k].start && rs[k].end < rs[i].end
    ensures var r1 := Inserted(rs, k, Restricted(rs[i], rs[k].start, rs[k].end));
            var r2 := Inserted(r1, k + 2, Restricted(rs[i], rs[k].end + 1, rs[i].end));
            WithEnd(r2, i, rs[k].start - 1) == TableAfterSplit(rs, i, k)
  {
    var (a, m, b) := (rs[..i], rs[i + 1..k], rs[k + 1..]);
    var (shared, tail) := (Restricted(rs[i], rs[k].start, rs[k].end), Restricted(rs[i], rs[k].end + 1, rs[i].end));
    FiveParts(rs, i, k);
    TwoInserted(a, rs[i], m, rs[k], b, shared, tail);
    assert TableAfterSplit(rs, i, k) == a + [First(rs[i], rs[k])] + m + [shared] + [rs[k]] + ([tail] + b);
  }

  lemma SplitInsideShorter(rs: seq<Rule>, i: nat, k: nat)
    requires CanSplit(rs, i, k) && rs[i].start < rs[k].start && rs[k].end > rs[i].end
    ensures var r1 := Inserted(rs, k, Restricted(rs[i], rs[k].start, rs[i].end));
            var r2 := Inserted(r1, k + 2, Restricted(rs[k], rs[i].end + 1, rs[k].end));
            WithEnd(WithEnd(r2, k + 1, rs[i].end), i, rs[k].start - 1) == TableAfterSplit(rs, i, k)
  {
    var (a, m, b) := (rs[..i], rs[i + 1..k], rs[k + 1..]);
    var (shared, tail) := (Restricted(rs[i], rs[k].start, rs[i].end), Restricted(rs[k], rs[i].end + 1, rs[k].end));
    FiveParts(rs, i, k);
    InsertedAndEnded(a, rs[i], m, rs[k], b, shared, tail, rs[k].start - 1, rs[i].end);
    ShorterPieces(rs, i, k);
  }

  lemma InsertedAndEnded(a: seq<Rule>, x: Rule, m: seq<Rule>, y: Rule, b: seq<Rule>, shared: Rule, tail: Rule, xEnd: Year, yEnd: Year)
    ensures var k := |a| + 1 + |m|;
            var r1 := Inserted(a + [x] + m + [y] + b, k, shared);
            WithEnd(WithEnd(Inserted(r1, k + 2, tail), k + 1, yEnd), |a|, xEnd)
            == a + [x.(end := xEnd)] + m + [shared] + [y.(end := yEnd)] + ([tail] + b)
  {
    TwoInserted(a, x, m, y, b, shared, tail);
    TwoEnds(a, x, m, shared, y, [tail] + b, xEnd, yEnd);
  }

  lemma ShorterPieces(rs: seq<Rule>, i: nat, k: nat)
    requires CanSplit(rs, i, k) && rs[i].start < rs[k].start && rs[k].end > rs[i].end
    ensures var (a, m, b) := (rs[..i], rs[i + 1..k], rs[k + 1..]);
            var (shared, tail) := (Restricted(rs[i], rs[k].start, rs[i].end), Restricted(rs[k], rs[i].end + 1, rs[k].end));
            TableAfterSplit(rs, i, k)
            == a + [rs[i].(end := rs[k].start - 1)] + m + [shared] + [rs[k].(end := rs[i].end)] + ([tail] + b)
  {
    var tail := Restricted(rs[k], rs[i].end + 1, rs[k].end);
    Regrouped(rs[..i] + [First(rs[i], rs[k])] + rs[i + 1..k] + Shared(rs[i], rs[k]) + [Second(rs[i], rs[k])], [tail], rs[k + 1..]);
  }

  lemma Regrouped(a: seq<Rule>, b: seq<Rule>, c: seq<Rule>)
    ensures a + (b + c) == a + b + c
  {
  }

  lemma TwoInserted(a: seq<Rule>, x: Rule, m: seq<Rule>, y: Rule, b: seq<Rule>, shared: Rule, tail: Rule)
    ensures var r1 := Inserted(a + [x] + m + [y] + b, |a| + 1 + |m|, shared);
            Inserted(r1, |a| + 1 + |m| + 2, tail) == a + [x] + m + [shared] + [y] + ([tail] + b)
  {
    var r1 := Inserted(a + [x] + m + [y] + b, |a| + 1 + |m|, shared);
    assert r1 == a + [x] + m + [shared] + [y] + b;
  }

  lemma TwoEnds(a: seq<Rule>, x: Rule, m: seq<Rule>, shared: Rule, y: Rule, b: seq<Rule>, xEnd: Year, yEnd: Year)
    ensures WithEnd(WithEnd(a + [x] + m + [shared] + [y] + b, |a| + |m| + 2, yEnd), |a|, xEnd)
            == a + [x.(end := xEnd)] + m + [shared] + [y.(end := yEnd)] + b
  {
    var t := WithEnd(a + [x] + m + [shared] + [y] + b, |a| + |m| + 2, yEnd);
    assert t == a + [x] + m + [shared] + [y.(end := yEnd)] + b;
  }

  lemma SplitInsideEqual(rs: seq<Rule>, i: nat, k: nat)
    requires CanSplit(rs, i, k) && rs[i].start < rs[k].start && rs[k].end == rs[i].end
    ensures WithEnd(Inserted(rs, k, Restricted(rs[i], rs[k].start, rs[i].end)), i, rs[k].start - 1)
            == TableAfterSplit(rs, i, k)
  {
    var (a, m, b) := (rs[..i], rs[i + 1..k], rs[k + 1..]);
    var shared := Restricted(rs[i], rs[k].start, rs[i].end);
    FiveParts(rs, i, k);
    assert Inserted(rs, k, shared) == a + [rs[i]] + m + [shared] + [rs[k]] + b;
    assert TableAfterSplit(rs, i, k) == a + [First(rs[i], rs[k])] + m + [shared] + [rs[k]] + [] + b;
  }

  /** The same table with its segment [i, e) laid out around places i and k. */
  lemma Layout(rs: seq<Rule>, i: nat, k: nat, e: nat)
    requires i < k < e <= |rs|
    requires InOrder(rs[i]) && InOrder(rs[k]) && Splittable(rs[i], rs[k])
    ensures rs[..i] + AfterSplit(rs[i..e], k - i) + rs[e..] == TableAfterSplit(rs, i, k)
  {
    var a, b := rs[i], rs[k];
    SliceOfSlice(rs, i, e, 1, k - i);
    SliceOfSlice(rs, i, e, k - i + 1, e - i);
    AfterSplitParts(rs[i..e], k - i, a, b, rs[i + 1..k], rs[k + 1..e]);
    PartsInTable(rs[..i], [First(a, b)] + rs[i + 1..k], Shared(a, b), [Second(a, b)], Tail(a, b), rs[k + 1..e], rs[e..]);
    TableParts(rs[..i], First(a, b), rs[i + 1..k], Shared(a, b), [Second(a, b)], Tail(a, b), rs[k + 1..]);
    TailJoins(rs, k + 1, e);
  }

  lemma AfterSplitParts(s: seq<Rule>, k: nat, a: Rule, b: Rule, m: seq<Rule>, c: seq<Rule>)
    requires 0 < k < |s| && s[0] == a && s[k] == b && InOrder(a) && InOrder(b) && Splittable(a, b)
    requires m == s[1..k] && c == s[k + 1..]
    ensures AfterSplit(s, k) == ([First(a, b)] + m) + Shared(a, b) + [Second(a, b)] + Tail(a, b) + c
  {
  }

  lemma PartsInTable(front: seq<Rule>, a: seq<Rule>, b: seq<Rule>, c: seq<Rule>, d: seq<Rule>, x: seq<Rule>, y: seq<Rule>)
    ensures front + (a + b + c + d + x) + y == front + a + b + c + d + (x + y)
  {
    assert front + (a + b + c + d + x) == front + a + b + c + d + x;
  }

  lemma TableParts(front: seq<Rule>, f: Rule, m: seq<Rule>, b: seq<Rule>, c: seq<Rule>, d: seq<Rule>, x: seq<Rule>)
    ensures front + ([f] + m) + b + c + d + x == front + [f] + m + b + c + d + x
  {
    assert front + ([f] + m) == front + [f] + m;
  }

  lemma TailJoins(rs: seq<Rule>, k: nat, e: nat)
    requires k <= e <= |rs|
    ensures rs[k..] == rs[k..e] + rs[e..]
  {
  }

  /** The invariant of both loops: done holds the rules whose pass is over. */
  ghost predicate InProgress(orig: seq<Rule>, done: seq<Rule>, s: seq<Rule>, name: int) {
    && AllInOrder(done) && AllInOrder(s) && OneName(done, name) && OneName(s, name) && Sorted(s)
    && Finished(done, s) && MonthsBefore(done, s)
    && SameForever(done + s, orig)
    && |done| + |s| + Slack(done + s) == |orig| + Slack(orig)
  }

  /** The result for one name. */
  ghost predicate CutApart(cut: seq<Rule>, orig: seq<Rule>, name: int) {
    && AllInOrder(cut) && OneName(cut, name)
    && (forall p, q :: 0 <= p < q < |cut| ==> EqualOrApart(cut[p], cut[q]))
    && SameForever(cut, orig) && MonthsInOrder(cut)
  }

  lemma CutKeeps(done: seq<Rule>, s: seq<Rule>, k: nat, t: seq<Rule>, name: int)
    requires SplitThenSorted(s, k, t) && s[0].name == name
    ensures AllInOrder(t) && OneName(t, name)
    ensures SameForever(done + t, done + s)
    ensures |t| + Slack(done + t) == |s| + Slack(done + s)
  {
    assert s[0] in s && s[k] in s;
    forall x | x in t
      ensures InOrder(x) && x.name == name
    {
      PieceOrigins(s, k, t, x);
    }
    forall v, n, y, effect
      ensures Count(done + t, v, n, y, effect) == Count(done + s, v, n, y, effect)
    {
      SplitKeepsEffects(s, k, v, n, y, effect);
      CountPermuted(t, AfterSplit(s, k), v, n, y, effect);
      CountConcat(done, t, v, n, y, effect);
      CountConcat(done, s, v, n, y, effect);
    }
    forall n, y
      ensures EdgeAt(done + t, n, y) <==> EdgeAt(done + s, n, y)
    {
      SplitKeepsEdges(s, k, n, y);
      EdgesPermuted(t, AfterSplit(s, k), n, y);
      EdgesConcat(done, t, n, y);
      EdgesConcat(done, s, n, y);
    }
    CutKeepsSlack(done, s, k, t);
  }

  lemma CutKeepsSlack(done: seq<Rule>, s: seq<Rule>, k: nat, t: seq<Rule>)
    requires 0 < k < |s| && Splittable(s[0], s[k]) && InOrder(s[0]) && InOrder(s[k])
    requires multiset(t) == multiset(AfterSplit(s, k))
    ensures |t| + Slack(done + t) == |s| + Slack(done + s)
  {
    SplitUsesSlack(s, k);
    SlackPermuted(t, AfterSplit(s, k));
    SlackConcat(done, t);
    SlackConcat(done, s);
    assert |multiset(t)| == |multiset(AfterSplit(s, k))|;
  }

  lemma CutTurnKeeps(orig: seq<Rule>, done: seq<Rule>, s: seq<Rule>, k: nat, t: seq<Rule>, name: int)
    requires InProgress(orig, done, s, name) && Visited(s, k) && SplitThenSorted(s, k, t)
    ensures InProgress(orig, done, t, name) && Visited(t, k + 1)
    ensures |done| + |t| <= |orig| + Slack(orig)
  {
    CutKeepsProgress(orig, done, s, k, t, name);
    VisitedAfterSplit(s, k, t);
    SlackNonNegative(done + t);
  }

  lemma CutKeepsProgress(orig: seq<Rule>, done: seq<Rule>, s: seq<Rule>, k: nat, t: seq<Rule>, name: int)
    requires InProgress(orig, done, s, name) && SplitThenSorted(s, k, t)
    ensures InProgress(orig, done, t, name)
  {
    assert s[0] in s;
    CutKeeps(done, s, k, t, name);
    CutKeepsOrder(done, s, k, t);
  }

  lemma CutKeepsOrder(done: seq<Rule>, s: seq<Rule>, k: nat, t: seq<Rule>)
    requires SplitThenSorted(s, k, t) && AllInOrder(done) && Finished(done, s) && MonthsBefore(done, s)
    ensures Finished(done, t) && MonthsBefore(done, t)
  {
    FinishedAfterSplit(done, s, k, t);
    MonthsAfterSplit(done, s, k, t);
  }

  lemma VisitedOneMore(s: seq<Rule>, k: nat)
    requires Visited(s, k) && k < |s| && AllInOrder(s) && s[0].start <= s[k].start && !Overlaps(s[0], s[k])
    ensures Visited(s, k + 1)
  {
    assert s[0] in s && s[k] in s;
    assert Settled(s[0], s[k]);
  }

  lemma PassKeeps(orig: seq<Rule>, done: seq<Rule>, s: seq<Rule>, name: int)
    requires s != [] && InProgress(orig, done, s, name) && Visited(s, |s|)
    ensures InProgress(orig, done + [s[0]], s[1..], name)
    ensures |done| + |s| <= |orig| + Slack(orig)
  {
    SlackNonNegative(done + s);
    PassFinishes(done, s);
    MonthsPass(done, s, name);
    HeadMoves(done, s);
  }

  lemma HeadMoves(done: seq<Rule>, s: seq<Rule>)
    requires s != []
    ensures done + [s[0]] + s[1..] == done + s
    ensures s[0] in s && forall x | x in s[1..] :: x in s
  {
  }

  lemma ReadyToCut(orig: seq<Rule>, done: seq<Rule>, s: seq<Rule>, k: nat, name: int)
    requires InProgress(orig, done, s, name) && 0 < k < |s|
    ensures Sorted(s) && AllInOrder(s) && OneName(s, s[0].name)
    ensures s[0].start <= s[k].start && InOrder(s[0]) && InOrder(s[k])
  {
    assert s[0] in s && s[k] in s && AtMost(s[0], s[k]);
  }

  lemma NoTurnKeeps(orig: seq<Rule>, done: seq<Rule>, s: seq<Rule>, k: nat, name: int)
    requires InProgress(orig, done, s, name) && Visited(s, k) && k < |s| && s[0].start <= s[k].start && !Overlaps(s[0], s[k])
    ensures Visited(s, k + 1) && |done| + |s| <= |orig| + Slack(orig)
  {
    VisitedOneMore(s, k);
    SlackNonNegative(done + s);
  }

  lemma InProgressEnds(orig: seq<Rule>, done: seq<Rule>, s: seq<Rule>, name: int)
    requires InProgress(orig, done, s, name) && |s| <= 1
    ensures CutApart(done + s, orig, name)
  {
    LastOneFinishes(done, s);
    if s != [] {
      MonthsPass(done, s, name);
      assert done + s == done + [s[0]];
    } else {
      assert done + s == done;
    }
  }

  lemma FrontJoins(pre: seq<Rule>, done: seq<Rule>, s: seq<Rule>, post: seq<Rule>)
    requires s != []
    ensures pre + done + s + post == pre + (done + [s[0]]) + s[1..] + post
  {
  }

  lemma Middle(pre: seq<Rule>, s: seq<Rule>, post: seq<Rule>)
    ensures var all := pre + s + post;
            all[..|pre|] == pre && all[|pre|..|pre| + |s|] == s && all[|pre| + |s|..] == post
    ensures forall p :: 0 <= p < |s| ==> (pre + s + post)[|pre| + p] == s[p]
  {
  }

  lemma Joined(pre: seq<Rule>, done: seq<Rule>, s: seq<Rule>, post: seq<Rule>)
    ensures pre + done + s + post == pre + (done + s) + post
  {
  }

  /** No rule starts after hi, at most the first rule of a name ends before lo, and a rule of a single
      year names its month and day. */
  ghost predicate Tidy(rs: seq<Rule>, lo: int, hi: int) {
    && (forall r | r in rs :: r.start <= hi && IsSettled(r))
    && (forall p, q :: 0 <= p < q < |rs| && rs[p].name == rs[q].name ==> rs[q].end >= lo)
    && (forall p, q :: 0 <= p < q < |rs| ==> MonthsAgree(rs[p], rs[q]))
  }

  /** Rules of the same several years are in the order of their months. */
  predicate MonthsAgree(x: Rule, y: Rule) {
    x.name == y.name && SameYears(x, y) && x.start < x.end ==> x.on.month <= y.on.month
  }

  predicate IsSettled(r: Rule) {
    r.start == r.end ==> r.on.MonthDay?
  }

  /** The first n rules are those that end before year y. */
  ghost predicate EndEarly(s: seq<Rule>, n: nat, y: int) {
    n <= |s| && (forall p :: 0 <= p < n ==> s[p].end < y) && (n < |s| ==> s[n].end >= y)
  }

  /** How many of them are erased: all but the last, or all if the next rule is in force before y. */
  function Erased(s: seq<Rule>, n: nat, y: int): (a: nat)
    requires n <= |s|
    ensures a <= n
  {
    if n <= 1 then 0 else if n == |s| || s[n].start >= y then n - 1 else n
  }

  lemma TrimmedRules(s: seq<Rule>, n: nat, b: nat, g: seq<Rule>, lo: int, hi: int)
    requires AllSettled(s)
    requires EndEarly(s, n, lo) && Erased(s, n, lo) <= b <= |s| && g == s[Erased(s, n, lo)..b]
    requires forall p :: Erased(s, n, lo) <= p < b ==> s[p].start <= hi
    ensures Tidy(g, lo, hi)
  {
    var a := Erased(s, n, lo);
    forall r | r in g
      ensures r.start <= hi && IsSettled(r)
    {
      var p := InSlice(s, a, b, r);
    }
    forall p, q | 0 <= p < q < |g|
      ensures g[q].end >= lo && MonthsAgree(g[p], g[q])
    {
      TwoLeft(s, n, lo, a + p, a + q);
    }
  }

  lemma InSlice(s: seq<Rule>, a: nat, b: nat, r: Rule) returns (p: nat)
    requires a <= b <= |s| && r in s[a..b]
    ensures a <= p < b && s[p] == r && r in s
  {
    var q :| 0 <= q < b - a && s[a..b][q] == r;
    p := a + q;
  }

  lemma TwoLeft(s: seq<Rule>, n: nat, lo: int, p: nat, q: nat)
    requires AllSettled(s) && EndEarly(s, n, lo) && Erased(s, n, lo) <= p < q < |s|
    ensures s[q].end >= lo && MonthsAgree(s[p], s[q])
  {
    EndsLate(s, n, lo, q);
  }

  /** Behind the first rule that is kept, no rule ends early. */
  lemma EndsLate(s: seq<Rule>, n: nat, lo: int, q: nat)
    requires AllSettled(s) && EndEarly(s, n, lo) && Erased(s, n, lo) < q < |s|
    ensures s[q].end >= lo
  {
    assert s[q] in s;
    assert q == n || EqualOrApart(s[n], s[q]);
  }

  /** The rules of one name once the single years are settled. */
  ghost predicate AllSettled(s: seq<Rule>) {
    && AllInOrder(s) && (forall p, q :: 0 <= p < q < |s| ==> EqualOrApart(s[p], s[q]))
    && (forall r | r in s :: IsSettled(r)) && (forall p, q :: 0 <= p < q < |s| ==> MonthsAgree(s[p], s[q]))
    && (forall p :: 0 <= p < |s| ==> s[p].name == s[0].name)
  }

  lemma SettledRules(orig: seq<Rule>, cut: seq<Rule>, settled: seq<Rule>, name: int)
    requires CutApart(cut, orig, name) && SettledCopy(cut, settled)
    ensures AllSettled(settled)
  {
    forall r | r in settled
      ensures InOrder(r) && IsSettled(r)
    {
      var p :| 0 <= p < |settled| && settled[p] == r;
      assert r == Settle(cut[p]) && cut[p] in cut;
    }
    forall p, q | 0 <= p < q < |settled|
      ensures EqualOrApart(settled[p], settled[q]) && MonthsAgree(settled[p], settled[q])
    {
      assert settled[p] == Settle(cut[p]) && settled[q] == Settle(cut[q]) && EqualOrApart(cut[p], cut[q]);
    }
  }

  lemma TrimIsRight(s: seq<Rule>, n: nat, m: nat, g: seq<Rule>, lo: int, hi: int)
    requires AllSettled(s) && EndEarly(s, n, lo) && lo <= hi
    requires var rest := s[Erased(s, n, lo)..];
             m <= |rest| && g == rest[..m] && forall p :: 0 <= p < |rest| ==> (p < m <==> rest[p].start <= hi)
    ensures Kept(s, Erased(s, n, lo), Erased(s, n, lo) + m, g, lo, hi) && Tidy(g, lo, hi) && Remembers(g, s, lo)
  {
    TrimRemembers(s, n, m, g, lo, hi);
    var a := Erased(s, n, lo);
    forall p | a <= p < |s|
      ensures p < a + m <==> s[p].start <= hi
    {
      assert s[p] == s[a..][p - a];
    }
    TrimmedRules(s, n, a + m, g, lo, hi);
  }

  /** The last of the early rules stays, or the one behind it reaches up to the supported years. */
  lemma TrimRemembers(s: seq<Rule>, n: nat, m: nat, g: seq<Rule>, lo: int, hi: int)
    requires AllSettled(s) && EndEarly(s, n, lo) && lo <= hi
    requires var rest := s[Erased(s, n, lo)..];
             m <= |rest| && g == rest[..m] && forall p :: 0 <= p < |rest| ==> (p < m <==> rest[p].start <= hi)
    ensures Remembers(g, s, lo)
  {
    var a := Erased(s, n, lo);
    forall name, y | LastBefore(s, name, y, lo)
      ensures SomeInForce(g, name, y)
    {
      var r :| r in s && InForce(r, name, y);
      var p :| 0 <= p < |s| && s[p] == r;
      var q := StaysInForce(s, n, name, y, lo, p);
      assert s[q] == s[a..][q - a] && q - a < m;
      assert g[q - a] == s[q] && g[q - a] in g;
    }
  }

  /** A rule that is in force in that year and is not erased. */
  lemma StaysInForce(s: seq<Rule>, n: nat, name: int, y: int, lo: int, p: nat) returns (q: nat)
    requires AllSettled(s) && EndEarly(s, n, lo) && LastBefore(s, name, y, lo)
    requires p < |s| && InForce(s[p], name, y)
    ensures Erased(s, n, lo) <= q < |s| && InForce(s[q], name, y) && s[q].start < lo
  {
    assert s[p] in s;
    if p >= Erased(s, n, lo) {
      q := p;
    } else if n < |s| && s[n].start < lo {
      q := n;
      assert s[n] in s && InForce(s[n], name, lo - 1);
      assert SomeInForce(s, name, lo - 1);
    } else {
      q := n - 1;
      assert s[q] in s && InForce(s[q], name, s[q].end);
      assert SomeInForce(s, name, s[q].end);
      assert p == q || EqualOrApart(s[p], s[q]);
    }
  }

  lemma TrimmedPair(front: seq<Rule>, g: seq<Rule>, name: int, lo: int, hi: int)
    requires Tidy(front, lo, hi) && Tidy(g, lo, hi) && OneName(g, name)
    requires forall r | r in front :: r.name < name
    ensures Tidy(front + g, lo, hi)
  {
    var all := front + g;
    forall p, q | 0 <= p < q < |all| && all[p].name == all[q].name
      ensures all[q].end >= lo && MonthsAgree(all[p], all[q])
    {
      assert p < |front| ==> all[p] in front;
      assert q >= |front| ==> all[q] in g;
    }
  }

  /** The result for one name, after the single years are settled and the years trimmed. */
  ghost predicate NameDone(g: seq<Rule>, orig: seq<Rule>, name: int, lo: int, hi: int) {
    && AllInOrder(g) && OneName(g, name) && Tidy(g, lo, hi)
    && (forall p, q :: 0 <= p < q < |g| ==> EqualOrApart(g[p], g[q]))
    && AllMean(g, orig, lo, hi) && Remembers(g, orig, lo)
  }

  lemma NameIsDone(orig: seq<Rule>, cut: seq<Rule>, settled: seq<Rule>, a: nat, b: nat, g: seq<Rule>, name: int, lo: int, hi: int)
    requires CutApart(cut, orig, name)
    requires SettledCopy(cut, settled)
    requires Kept(settled, a, b, g, lo, hi) && Tidy(g, lo, hi) && Remembers(g, settled, lo)
    ensures NameDone(g, orig, name, lo, hi)
  {
    RemembersSettled(orig, cut, settled, g, lo);
    forall r | r in g
      ensures InOrder(r) && r.name == name
    {
      var p :| 0 <= p < |g| && g[p] == r;
      assert g[p] == settled[a + p] == Settle(cut[a + p]);
      assert cut[a + p] in cut;
    }
    forall p, q | 0 <= p < q < |g|
      ensures EqualOrApart(g[p], g[q])
    {
      assert g[p] == Settle(cut[a + p]) && g[q] == Settle(cut[a + q]);
      assert EqualOrApart(cut[a + p], cut[a + q]);
    }
    forall n, y | lo <= y <= hi
      ensures Means(g, orig, n, y)
    {
      SettledMeans(orig, cut, settled, name, n, y);
      KeptMeans(orig, settled, a, b, g, lo, hi, n, y);
    }
  }

  /** The outer loop has normalised the first k rules of the original into front. */
  ghost predicate NormalisedSoFar(front: seq<Rule>, k: nat, orig: seq<Rule>, lo: int, hi: int) {
    && k <= |orig| && Normalised(front) && Tidy(front, lo, hi) && Sorted(orig) && AllInOrder(orig)
    && (forall r, x | r in front + orig[..k] && x in orig[k..] :: r.name < x.name)
    && AllMean(front, orig[..k], lo, hi) && Remembers(front, orig[..k], lo)
  }

  lemma NormalisedPair(front: seq<Rule>, g: seq<Rule>, name: int)
    requires Normalised(front) && AllInOrder(g) && OneName(g, name)
    requires forall p, q :: 0 <= p < q < |g| ==> EqualOrApart(g[p], g[q])
    requires forall r | r in front :: r.name < name
    ensures Normalised(front + g)
  {
    var all := front + g;
    forall p, q | 0 <= p < q < |all|
      ensures all[p].name < all[q].name || (all[p].name == all[q].name && EqualOrApart(all[p], all[q]))
    {
      if p < |front| <= q {
        assert all[p] in front && all[q] in g;
      } else if |front| <= p {
        assert all[p] == g[p - |front|] && all[q] == g[q - |front|];
        assert all[p] in g && all[q] in g;
      }
    }
  }

  /** The first n of the rest are the rules of its first name, which have become g. */
  ghost predicate RunDone(g: seq<Rule>, rest: seq<Rule>, n: nat, lo: int, hi: int) {
    && 0 < n <= |rest| && OneName(rest[..n], rest[0].name) && NameDone(g, rest[..n], rest[0].name, lo, hi)
    && forall p :: n <= p < |rest| ==> rest[0].name < rest[p].name
  }

  lemma NameJoins(front: seq<Rule>, k: nat, g: seq<Rule>, orig: seq<Rule>, n: nat, lo: int, hi: int)
    requires NormalisedSoFar(front, k, orig, lo, hi) && RunDone(g, orig[k..], n, lo, hi)
    ensures k + n <= |orig| && NormalisedSoFar(front + g, k + n, orig, lo, hi)
    ensures orig[k..][n..] == orig[k + n..]
  {
    var (run, name) := (orig[k..][..n], orig[k].name);
    assert orig[k] in orig[k..];
    assert orig[..k + n] == orig[..k] + run && orig[k..][n..] == orig[k + n..];
    assert forall r | r in front :: r in front + orig[..k];
    assert forall r | r in orig[..k] :: r in front + orig[..k];
    NormalisedPair(front, g, name);
    TrimmedPair(front, g, name, lo, hi);
    RemembersJoin(front, orig[..k], g, run, name, lo);
    forall m, y | lo <= y <= hi
      ensures Means(front + g, orig[..k] + run, m, y)
    {
      MeansJoin(front, orig[..k], g, run, name, m, y);
    }
    BehindTheRun(front, k, g, orig, n);
  }

  lemma BehindTheRun(front: seq<Rule>, k: nat, g: seq<Rule>, orig: seq<Rule>, n: nat)
    requires n > 0 && k + n <= |orig| && OneName(g, orig[k].name) && OneName(orig[k..][..n], orig[k].name)
    requires forall r, x | r in front + orig[..k] && x in orig[k..] :: r.name < x.name
    requires forall p :: n <= p < |orig[k..]| ==> orig[k].name < orig[k..][p].name
    ensures forall r, x | r in front + g + orig[..k + n] && x in orig[k + n..] :: r.name < x.name
  {
    forall r, x | r in front + g + orig[..k + n] && x in orig[k + n..]
      ensures r.name < x.name
    {
      var p :| 0 <= p < |orig| - k - n && orig[k + n..][p] == x;
      assert x == orig[k..][n + p] && x in orig[k..];
      assert orig[k].name < x.name;
      assert orig[..k + n] == orig[..k] + orig[k..][..n];
      assert r in front + orig[..k] || r in g || r in orig[k..][..n];
    }
  }

  lemma CutRun(front: seq<Rule>, rest: seq<Rule>, n: nat)
    requires 0 < n <= |rest| && Sorted(rest) && AllInOrder(rest)
    requires forall p :: 0 <= p < n ==> rest[p].name == rest[0].name
    ensures front + rest == front + rest[..n] + rest[n..]
    ensures Sorted(rest[..n]) && AllInOrder(rest[..n]) && OneName(rest[..n], rest[0].name)
  {
    assert rest == rest[..n] + rest[n..];
    assert forall x | x in rest[..n] :: x in rest;
  }

  lemma SplitSegment(pre: seq<Rule>, s: seq<Rule>, post: seq<Rule>, k: nat)
    requires |pre| < k < |pre| + |s|
    requires InOrder(s[0]) && InOrder(s[k - |pre|]) && Splittable(s[0], s[k - |pre|])
    ensures (pre + s + post)[|pre|] == s[0] && (pre + s + post)[k] == s[k - |pre|]
    ensures TableAfterSplit(pre + s + post, |pre|, k) == pre + AfterSplit(s, k - |pre|) + post
  {
    Middle(pre, s, post);
    Layout(pre + s + post, |pre|, k, |pre| + |s|);
  }

  lemma ReplacedInside(pre: seq<Rule>, t: seq<Rule>, post: seq<Rule>, j: nat, r: Rule)
    requires |pre| <= j < |pre| + |t|
    ensures (pre + t + post)[j := r] == pre + t[j - |pre| := r] + post
  {
  }

  lemma StartsInOrder(s: seq<Rule>, a: nat)
    requires AllSettled(s) && a <= |s|
    ensures forall p, q :: 0 <= p < q < |s[a..]| ==> s[a..][p].start <= s[a..][q].start
  {
    forall p, q | 0 <= p < q < |s[a..]|
      ensures s[a..][p].start <= s[a..][q].start
    {
      assert s[a + p] in s && EqualOrApart(s[a + p], s[a + q]);
    }
  }

  lemma AfterTrimEarly(pre: seq<Rule>, s: seq<Rule>, post: seq<Rule>, a: nat)
    requires a <= |s|
    ensures var all := pre + s + post;
            all[..|pre|] + all[|pre| + a..] == pre + s[a..] + post
  {
  }

  lemma AfterTrimLate(pre: seq<Rule>, s: seq<Rule>, post: seq<Rule>, b: nat)
    requires b <= |s|
    ensures var all := pre + s + post;
            all[..|pre| + b] + all[|pre| + |s|..] == pre + s[..b] + post
  {
  }

  ghost predicate SettledUpTo(s: seq<Rule>, t: seq<Rule>, k: int) {
    |t| == |s| && forall p :: 0 <= p < |s| ==> t[p] == if p < k then Settle(s[p]) else s[p]
  }

  lemma SettleNext(s: seq<Rule>, t: seq<Rule>, k: nat)
    requires SettledUpTo(s, t, k) && k < |s|
    ensures SettledUpTo(s, t[k := Settle(t[k])], k + 1)
  {
  }

  class RuleTable {
    var rules: seq<Rule>
    const minYear: Year
    const maxYear: Year

    constructor (rules: seq<Rule>, minYear: Year, maxYear: Year)
      requires minYear <= maxYear
      ensures this.rules == rules && this.minYear == minYear && this.maxYear == maxYear
    {
      this.rules, this.minYear, this.maxYear := rules, minYear, maxYear;
    }

    /** std::sort over [i, e): unstable, so only a sorted permutation is promised. */
    method SortRange(i: nat, e: nat, ghost pre: seq<Rule>, ghost s: seq<Rule>, ghost post: seq<Rule>)
      returns (ghost t: seq<Rule>)
      requires rules == pre + s + post && i == |pre| && e == i + |s|
      modifies this
      ensures rules == pre + t + post && |t| == |s|
      ensures Sorted(t) && multiset(t) == multiset(s)
    {
      Middle(pre, s, post);
      t := SortedCopy(rules[i..e]);
      assert |multiset(t)| == |multiset(s)|;
      rules := rules[..i] + SortedCopy(rules[i..e]) + rules[e..];
    }

    /** Rule::split. */
    method Split(i: nat, k: nat, e: nat) returns (e': nat)
      requires i < k < |rules|
      requires InOrder(rules[i]) && InOrder(rules[k]) && Splittable(rules[i], rules[k])
      modifies this
      ensures e' == e + |Pieces(old(rules[i]), old(rules[k]))|
      ensures rules == TableAfterSplit(old(rules), i, k)
    {
      if rules[i].start == rules[k].start {
        e' := SplitStartingTogether(i, k, e);
      } else {
        e' := SplitStartingInside(i, k, e);
      }
    }

    method SplitStartingTogether(i: nat, k: nat, e: nat) returns (e': nat)
      requires i < k < |rules|
      requires InOrder(rules[i]) && InOrder(rules[k]) && Splittable(rules[i], rules[k])
      requires rules[i].start == rules[k].start
      modifies this
      ensures e' == e + |Pieces(old(rules[i]), old(rules[k]))|
      ensures rules == TableAfterSplit(old(rules), i, k)
    {
      if rules[k].end < rules[i].end {
        SplitTogetherLonger(rules, i, k);
        rules := Inserted(rules, k + 1, Restricted(rules[i], rules[k].end + 1, rules[i].end));
        e' := e + 1;
        rules := WithEnd(rules, i, rules[k].end);
      } else {
        SplitTogetherShorter(rules, i, k);
        rules := Inserted(rules, k + 1, Restricted(rules[k], rules[i].end + 1, rules[k].end));
        e' := e + 1;
        rules := WithEnd(rules, k, rules[i].end);
      }
    }

    method SplitStartingInside(i: nat, k: nat, e: nat) returns (e': nat)
      requires i < k < |rules|
      requires InOrder(rules[i]) && InOrder(rules[k]) && Splittable(rules[i], rules[k])
      requires rules[i].start < rules[k].start
      modifies this
      ensures e' == e + |Pieces(old(rules[i]), old(rules[k]))|
      ensures rules == TableAfterSplit(old(rules), i, k)
    {
      if rules[k].end < rules[i].end {
        e' := SplitEndingInside(i, k, e);
      } else if rules[k].end > rules[i].end {
        e' := SplitEndingOutside(i, k, e);
      } else {
        SplitInsideEqual(rules, i, k);
        rules := Inserted(rules, k, Restricted(rules[i], rules[k].start, rules[i].end));
        e' := e + 1;
        rules := WithEnd(rules, i, rules[k + 1].start - 1);
      }
    }

    method SplitEndingInside(i: nat, k: nat, e: nat) returns (e': nat)
      requires i < k < |rules|
      requires InOrder(rules[i]) && InOrder(rules[k]) && Splittable(rules[i], rules[k])
      requires rules[i].start < rules[k].start && rules[k].end < rules[i].end
      modifies this
      ensures e' == e + |Pieces(old(rules[i]), old(rules[k]))|
      ensures rules == TableAfterSplit(old(rules), i, k)
    {
      SplitInsideLonger(rules, i, k);
      rules := Inserted(rules, k, Restricted(rules[i], rules[k].start, rules[k].end));
      var k' := k + 1;
      rules := Inserted(rules, k' + 1, Restricted(rules[i], rules[k'].end + 1, rules[i].end));
      rules := WithEnd(rules, i, rules[k'].start - 1);
      e' := e + 2;
    }

    method SplitEndingOutside(i: nat, k: nat, e: nat) returns (e': nat)
      requires i < k < |rules|
      requires InOrder(rules[i]) && InOrder(rules[k]) && Splittable(rules[i], rules[k])
      requires rules[i].start < rules[k].start && rules[k].end > rules[i].end
      modifies this
      ensures e' == e + |Pieces(old(rules[i]), old(rules[k]))|
      ensures rules == TableAfterSplit(old(rules), i, k)
    {
      SplitInsideShorter(rules, i, k);
      rules := Inserted(rules, k, Restricted(rules[i], rules[k].start, rules[i].end));
      var k' := k + 1;
      rules := Inserted(rules, k' + 1, Restricted(rules[k'], rules[i].end + 1, rules[k'].end));
      e' := e + 2;
      rules := WithEnd(rules, k', rules[i].end);
      rules := WithEnd(rules, i, rules[k'].start - 1);
    }

    /** The first loop of Rule::split_overlaps(rules, i, e): cut the rules of one name. */
    method CutOverlaps(i0: nat, e0: nat, ghost pre: seq<Rule>, ghost orig: seq<Rule>, ghost post: seq<Rule>, ghost name: int)
      returns (e: nat, ghost cut: seq<Rule>)
      requires rules == pre + orig + post && i0 == |pre| && e0 == i0 + |orig|
      requires Sorted(orig) && AllInOrder(orig) && OneName(orig, name)
      modifies this
      ensures rules == pre + cut + post && e == i0 + |cut|
      ensures CutApart(cut, orig, name)
    {
      ghost var done, s := [], orig;
      ghost var bound := e0 + Slack(orig);
      var i := i0;
      e := e0;
      assert pre + [] == pre && [] + orig == orig;
      while i + 1 < e
        invariant rules == pre + done + s + post
        invariant i == |pre| + |done| && e == i + |s|
        invariant InProgress(orig, done, s, name)
        decreases bound - i
      {
        e, s := RunPass(i, e, pre, orig, done, s, post, name);
        PassKeeps(orig, done, s, name);
        FrontJoins(pre, done, s, post);
        done, s := done + [s[0]], s[1..];
        i := i + 1;
      }
      InProgressEnds(orig, done, s, name);
      cut := done + s;
      Joined(pre, done, s, post);
    }

    /** The inner loop: bring the rules behind i one after the other to terms with rule i. */
    method RunPass(i: nat, e0: nat, ghost pre: seq<Rule>, ghost orig: seq<Rule>, ghost done: seq<Rule>,
                   ghost s0: seq<Rule>, ghost post: seq<Rule>, ghost name: int)
      returns (e: nat, ghost s: seq<Rule>)
      requires rules == pre + done + s0 + post && i == |pre + done| && e0 == i + |s0| && s0 != []
      requires InProgress(orig, done, s0, name)
      modifies this
      ensures rules == pre + done + s + post && e == i + |s|
      ensures InProgress(orig, done, s, name) && Visited(s, |s|)
    {
      var k := i + 1;
      e, s := e0, s0;
      ghost var bound := |pre| + |orig| + Slack(orig);
      ghost var before := pre + done;
      while k < e
        invariant rules == before + s + post
        invariant i < k <= e && e == i + |s|
        invariant InProgress(orig, done, s, name) && Visited(s, k - i)
        decreases bound - k
      {
        e, s := TakeTurn(i, k, e, before, orig, done, s, post, name);
        k := k + 1;
      }
    }

    /** One turn of the inner loop: cut and sort when the two rules overlap. */
    method TakeTurn(i: nat, k: nat, e: nat, ghost before: seq<Rule>, ghost orig: seq<Rule>, ghost done: seq<Rule>,
                    ghost s: seq<Rule>, ghost post: seq<Rule>, ghost name: int)
      returns (e': nat, ghost t: seq<Rule>)
      requires rules == before + s + post && i == |before| && e == i + |s| && i < k < e
      requires InProgress(orig, done, s, name) && Visited(s, k - i)
      modifies this
      ensures rules == before + t + post && e' == i + |t|
      ensures InProgress(orig, done, t, name) && Visited(t, k - i + 1)
      ensures |done| + |t| <= |orig| + Slack(orig)
    {
      e', t := e, s;
      ReadyToCut(orig, done, s, k - i, name);
      Middle(before, s, post);
      assert rules[i] == s[0] && rules[k] == s[k - i];
      if Overlaps(rules[i], rules[k]) {
        e', t := CutTurn(i, k, e, before, orig, done, s, post, name);
      } else {
        NoTurnKeeps(orig, done, s, k - i, name);
      }
    }

    method CutTurn(i: nat, k: nat, e: nat, ghost before: seq<Rule>, ghost orig: seq<Rule>, ghost done: seq<Rule>,
                   ghost s: seq<Rule>, ghost post: seq<Rule>, ghost name: int)
      returns (e': nat, ghost t: seq<Rule>)
      requires rules == before + s + post && i == |before| && e == i + |s| && i < k < e
      requires InProgress(orig, done, s, name) && Visited(s, k - i) && Splittable(s[0], s[k - i])
      modifies this
      ensures rules == before + t + post && e' == i + |t|
      ensures InProgress(orig, done, t, name) && Visited(t, k - i + 1)
      ensures |done| + |t| <= |orig| + Slack(orig)
    {
      ReadyToCut(orig, done, s, k - i, name);
      e', t := CutAndSort(i, k, e, before, s, post);
      CutTurnKeeps(orig, done, s, k - i, t, name);
    }

    method CutAndSort(i: nat, k: nat, e: nat, ghost pre: seq<Rule>, ghost s: seq<Rule>, ghost post: seq<Rule>)
      returns (e': nat, ghost t: seq<Rule>)
      requires rules == pre + s + post && i == |pre| && e == i + |s| && i < k < e
      requires AllInOrder(s) && OneName(s, s[0].name) && Sorted(s) && Splittable(s[0], s[k - i])
      modifies this
      ensures rules == pre + t + post && e' == i + |t|
      ensures SplitThenSorted(s, k - i, t)
    {
      assert s[0] in s && s[k - i] in s;
      Middle(pre, s, post);
      SplitSegment(pre, s, post, k);
      e' := Split(i, k, e);
      t := SortRange(i, e', pre, AfterSplit(s, k - i), post);
    }

    /** The second loop of Rule::split_overlaps(rules, i, e): rules of a single year get the
        month and day they have in it. */
    method CanonicalizeSingleYears(j0: nat, e: nat, ghost pre: seq<Rule>, ghost s: seq<Rule>, ghost post: seq<Rule>)
      returns (ghost t: seq<Rule>)
      requires rules == pre + s + post && j0 == |pre| && e == j0 + |s|
      modifies this
      ensures rules == pre + t + post && SettledCopy(s, t)
    {
      var j := j0;
      t := s;
      while j < e
        invariant j0 <= j <= e && rules == pre + t + post && SettledUpTo(s, t, j - j0)
      {
        t := CanonicalizeNext(j, pre, s, t, post);
        j := j + 1;
      }
    }

    method CanonicalizeNext(j: nat, ghost pre: seq<Rule>, ghost s: seq<Rule>, ghost t: seq<Rule>, ghost post: seq<Rule>)
      returns (ghost t': seq<Rule>)
      requires rules == pre + t + post && |pre| <= j < |pre| + |s| && SettledUpTo(s, t, j - |pre|)
      modifies this
      ensures rules == pre + t' + post && SettledUpTo(s, t', j - |pre| + 1)
    {
      Middle(pre, t, post);
      SettleNext(s, t, j - |pre|);
      ReplacedInside(pre, t, post, j, Settle(rules[j]));
      t' := t[j - |pre| := Settle(rules[j])];
      CanonicalizeAt(j);
    }

    method CanonicalizeAt(j: nat)
      requires j < |rules|
      modifies this
      ensures rules == old(rules)[j := Settle(old(rules)[j])]
    {
      if rules[j].start == rules[j].end {
        rules := rules[j := rules[j].(on := Canonicalize(rules[j].on, rules[j].start))];
      }
    }

    /** std::upper_bound by name: the end of the run of rules named as rules[i]. */
    method EndOfName(i: nat, ghost pre: seq<Rule>, ghost rest: seq<Rule>) returns (e: nat)
      requires rules == pre + rest && i == |pre| && rest != [] && Sorted(rest)
      ensures i < e <= |rules|
      ensures forall p :: 0 <= p < e - i ==> rest[p].name == rest[0].name
      ensures forall p :: e - i <= p < |rest| ==> rest[0].name < rest[p].name
    {
      e := i + 1;
      while e < |rules| && rules[e].name == rules[i].name
        invariant i < e <= |rules|
        invariant forall p :: 0 <= p < e - i ==> rest[p].name == rest[0].name
      {
        e := e + 1;
      }
      forall p | e - i <= p < |rest|
        ensures rest[0].name < rest[p].name
      {
        assert AtMost(rest[0], rest[e - i]) && (p == e - i || AtMost(rest[e - i], rest[p]));
      }
    }

    /** The erasure of what ends before minYear, but for the last such rule. */
    method TrimEarly(i: nat, e0: nat, ghost pre: seq<Rule>, ghost s: seq<Rule>, ghost post: seq<Rule>)
      returns (e: nat, ghost n: nat)
      requires rules == pre + s + post && i == |pre| && e0 == i + |s|
      modifies this
      ensures EndEarly(s, n, minYear) && e == e0 - Erased(s, n, minYear)
      ensures rules == pre + s[Erased(s, n, minYear)..] + post
    {
      e := e0;
      var t := i;
      while t < e && rules[t].end < minYear
        invariant i <= t <= e
        invariant forall p :: 0 <= p < t - i ==> s[p].end < minYear
      {
        assert rules[t] == s[t - i];
        t := t + 1;
      }
      assert t < e ==> rules[t] == s[t - i];
      n := t - i;
      assert s[0..] == s;
      if t > i + 1 {
        if t == e || rules[t].start >= minYear {
          t := t - 1;
        }
        AfterTrimEarly(pre, s, post, t - i);
        e := e - (t - i);
        rules := rules[..i] + rules[t..];
      }
    }

    /** The erasure of what starts after maxYear. */
    method TrimLate(i: nat, e0: nat, ghost pre: seq<Rule>, ghost s: seq<Rule>, ghost post: seq<Rule>)
      returns (e: nat, ghost b: nat)
      requires rules == pre + s + post && i == |pre| && e0 == i + |s|
      requires forall p, q :: 0 <= p < q < |s| ==> s[p].start <= s[q].start
      modifies this
      ensures b <= |s| && e == i + b && rules == pre + s[..b] + post
      ensures forall p :: 0 <= p < |s| ==> (p < b <==> s[p].start <= maxYear)
    {
      e := e0;
      var t := i;
      while t < e && rules[t].start <= maxYear
        invariant i <= t <= e
        invariant forall p :: 0 <= p < t - i ==> s[p].start <= maxYear
      {
        assert rules[t] == s[t - i];
        t := t + 1;
      }
      b := t - i;
      assert b == |s| ==> s[..b] == s;
      if t != e {
        assert rules[t] == s[b];
        AfterTrimLate(pre, s, post, b);
        rules := rules[..t] + rules[e..];
        e := t;
      }
    }

    /** Both erasures: what is left is the stretch in force in the supported years. */
    method TrimYears(i: nat, e0: nat, ghost pre: seq<Rule>, ghost s: seq<Rule>, ghost post: seq<Rule>)
      returns (e: nat, ghost a: nat, ghost b: nat, ghost g: seq<Rule>)
      requires rules == pre + s + post && i == |pre| && e0 == i + |s| && AllSettled(s) && minYear <= maxYear
      modifies this
      ensures rules == pre + g + post && e == i + |g|
      ensures Kept(s, a, b, g, minYear, maxYear) && Tidy(g, minYear, maxYear) && Remembers(g, s, minYear)
    {
      ghost var n, m;
      e, n := TrimEarly(i, e0, pre, s, post);
      a := Erased(s, n, minYear);
      StartsInOrder(s, a);
      e, m := TrimLate(i, e, pre, s[a..], post);
      b, g := a + m, s[a..][..m];
      TrimIsRight(s, n, m, g, minYear, maxYear);
    }

    /** The body of the outer loop: everything Rule::split_overlaps does to the rules of one name. */
    method NormaliseName(i: nat, e0: nat, ghost pre: seq<Rule>, ghost orig: seq<Rule>, ghost post: seq<Rule>, ghost name: int)
      returns (e: nat, ghost g: seq<Rule>)
      requires rules == pre + orig + post && i == |pre| && e0 == i + |orig|
      requires Sorted(orig) && AllInOrder(orig) && OneName(orig, name) && minYear <= maxYear
      modifies this
      ensures rules == pre + g + post && e == i + |g|
      ensures NameDone(g, orig, name, minYear, maxYear)
    {
      ghost var cut, settled, a, b;
      e, cut := CutOverlaps(i, e0, pre, orig, post, name);
      settled := CanonicalizeSingleYears(i, e, pre, cut, post);
      SettledRules(orig, cut, settled, name);
      e, a, b, g := TrimYears(i, e, pre, settled, post);
      NameIsDone(orig, cut, settled, a, b, g, name, minYear, maxYear);
    }

    /** Rule::split_overlaps over the whole table. Any two rules of one name then have equal or
        disjoint years, what lies outside the supported years is erased, and rules of a single year
        are canonical. Means says what the table applies in each supported year. */
    method SplitOverlaps()
      requires Sorted(rules) && AllInOrder(rules) && minYear <= maxYear
      modifies this
      ensures Normalised(rules) && Tidy(rules, minYear, maxYear)
      ensures forall name, y | minYear <= y <= maxYear :: Means(rules, old(rules), name, y)
      ensures Remembers(rules, old(rules), minYear)
    {
      ghost var orig, front, k := rules, [], 0;
      assert orig[0..] == orig && orig[..0] == [];
      var i := 0;
      while i < |rules|
        invariant i == |front| && k <= |orig| && rules == front + orig[k..]
        invariant NormalisedSoFar(front, k, orig, minYear, maxYear)
        decreases |orig| - k
      {
        i, front, k := NextName(i, front, k, orig);
      }
      assert orig[..k] == orig && front + [] == front;
    }

    /** One turn of the outer loop. */
    method NextName(i0: nat, ghost front0: seq<Rule>, ghost k0: nat, ghost orig: seq<Rule>)
      returns (i: nat, ghost front: seq<Rule>, ghost k: nat)
      requires i0 == |front0| < |rules| && k0 <= |orig| && rules == front0 + orig[k0..] && minYear <= maxYear
      requires NormalisedSoFar(front0, k0, orig, minYear, maxYear)
      modifies this
      ensures i == |front| && k0 < k <= |orig| && rules == front + orig[k..]
      ensures NormalisedSoFar(front, k, orig, minYear, maxYear)
    {
      SortedTail(orig, k0);
      ghost var n, g;
      ghost var rest := orig[k0..];
      i, n, g := NormaliseRun(i0, front0, rest);
      NameJoins(front0, k0, g, orig, n, minYear, maxYear);
      front, k := front0 + g, k0 + n;
    }

    method NormaliseRun(i0: nat, ghost front: seq<Rule>, ghost rest: seq<Rule>) returns (i: nat, ghost n: nat, ghost g: seq<Rule>)
      requires i0 == |front| && rules == front + rest && rest != [] && Sorted(rest) && AllInOrder(rest) && minYear <= maxYear
      modifies this
      ensures RunDone(g, rest, n, minYear, maxYear)
      ensures rules == front + g + rest[n..] && i == i0 + |g|
    {
      var e := EndOfName(i0, front, rest);
      n := e - i0;
      CutRun(front, rest, n);
      i, g := NormaliseName(i0, e, front, rest[..n], rest[n..], rest[0].name);
    }
  }

  lemma SortedTail(s: seq<Rule>, k: nat)
    requires k <= |s| && Sorted(s) && AllInOrder(s)
    ensures Sorted(s[k..]) && AllInOrder(s[k..])
  {
    assert forall p :: 0 <= p < |s| - k ==> s[k..][p] == s[k + p];
    assert forall x | x in s[k..] :: x in s;
  }
}
