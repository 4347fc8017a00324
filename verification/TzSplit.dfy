/** Cutting the year ranges of same-named rules until any two are equal or disjoint
    (Rule::overlaps, Rule::split and both Rule::split_overlaps). */
module TzSplit {
  import opened Calendar
  import opened TzRule

  function Min(a: int, b: int): int {
    if a <= b then a else b
  }

  predicate AllInOrder(rs: seq<Rule>) {
    forall r | r in rs :: InOrder(r)
  }

  predicate OneName(rs: seq<Rule>, name: int) {
    forall r | r in rs :: r.name == name
  }

  /** Rule::overlaps; its assertion is the requires. */
  predicate Overlaps(x: Rule, y: Rule)
    requires x.start <= y.start
  {
    if y.start > x.end then false else !SameYears(x, y)
  }

  /** The assertion at the head of Rule::split. */
  predicate Splittable(a: Rule, k: Rule) {
    a.start <= k.start && a.end >= k.start && !SameYears(a, k)
  }

  // ----- What a split leaves of a rule a and a rule k that starts no earlier but inside a.

  /** The years of a before k, or the common years when both start together. */
  function First(a: Rule, k: Rule): Rule
    requires Splittable(a, k) && InOrder(a) && InOrder(k)
  {
    Restricted(a, a.start, if a.start < k.start then k.start - 1 else Min(a.end, k.end))
  }

  /** The years of k that a shares. */
  function Second(a: Rule, k: Rule): Rule
    requires Splittable(a, k)
  {
    Restricted(k, k.start, Min(a.end, k.end))
  }

  /** The years of a that k shares, when they are not what First keeps. */
  function Shared(a: Rule, k: Rule): seq<Rule>
    requires Splittable(a, k)
  {
    if a.start < k.start then [Restricted(a, k.start, Min(a.end, k.end))] else []
  }

  /** The years after the shared ones, with whichever rule runs longer. */
  function Tail(a: Rule, k: Rule): seq<Rule>
    requires Splittable(a, k)
  {
    if k.end < a.end then [Restricted(a, k.end + 1, a.end)]
    else if a.end < k.end then [Restricted(k, a.end + 1, k.end)]
    else []
  }

  function Pieces(a: Rule, k: Rule): seq<Rule>
    requires Splittable(a, k)
  {
    Shared(a, k) + Tail(a, k)
  }

  ghost function Slack(rs: seq<Rule>): int {
    if rs == [] then 0 else rs[0].end - rs[0].start + Slack(rs[1..])
  }

  lemma {:induction false} SlackConcat(a: seq<Rule>, b: seq<Rule>)
    ensures Slack(a + b) == Slack(a) + Slack(b)
  {
    if a == [] {
      assert a + b == b;
    } else {
      assert (a + b)[1..] == a[1..] + b;
      SlackConcat(a[1..], b);
    }
  }

  lemma SlackAround(a: seq<Rule>, r: Rule, b: seq<Rule>)
    ensures Slack(a + [r] + b) == Slack([r]) + Slack(a + b)
  {
    SlackConcat(a + [r], b);
    SlackConcat(a, [r]);
    SlackConcat(a, b);
  }

  lemma SlackWithout(b: seq<Rule>, k: nat)
    requires k < |b|
    ensures Slack(b) == Slack([b[k]]) + Slack(b[..k] + b[k + 1..])
  {
    TakenApart(b, k);
    SlackAround(b[..k], b[k], b[k + 1..]);
  }

  lemma {:induction false} SlackPermuted(a: seq<Rule>, b: seq<Rule>)
    requires multiset(a) == multiset(b)
    ensures Slack(a) == Slack(b)
    decreases |a|
  {
    if a == [] {
      assert |multiset(b)| == 0;
      assert b == [];
    } else {
      assert a[0] in multiset(b);
      var k :| 0 <= k < |b| && b[k] == a[0];
      RestPermuted(a, b, k);
      SlackPermuted(a[1..], b[..k] + b[k + 1..]);
      SlackWithout(b, k);
      SlackWithout(a, 0);
      assert a[..0] + a[1..] == a[1..];
    }
  }

  lemma {:induction false} SlackNonNegative(rs: seq<Rule>)
    requires AllInOrder(rs)
    ensures Slack(rs) >= 0
  {
    if rs != [] {
      assert rs[0] in rs;
      SlackNonNegative(rs[1..]);
    }
  }

  /** The table segment after a split, in the order the insertions leave it: s[0] was cut
      against s[k]. */
  function AfterSplit(s: seq<Rule>, k: nat): seq<Rule>
    requires 0 < k < |s| && Splittable(s[0], s[k]) && InOrder(s[0]) && InOrder(s[k])
  {
    [First(s[0], s[k])] + s[1..k] + Shared(s[0], s[k]) + [Second(s[0], s[k])] + Tail(s[0], s[k]) + s[k + 1..]
  }

  lemma AfterSplitMultiset(s: seq<Rule>, k: nat)
    requires 0 < k < |s| && Splittable(s[0], s[k]) && InOrder(s[0]) && InOrder(s[k])
    ensures s == [s[0]] + s[1..k] + [s[k]] + s[k + 1..]
    ensures multiset(s) == multiset(s[1..k] + s[k + 1..]) + multiset([s[0], s[k]])
    ensures multiset(AfterSplit(s, k)) ==
            multiset(s[1..k] + s[k + 1..]) + multiset([First(s[0], s[k]), Second(s[0], s[k])] + Pieces(s[0], s[k]))
  {
    assert s == [s[0]] + s[1..k] + [s[k]] + s[k + 1..];
  }

  /** One cut leaves every effect in every year as it was. */
  lemma CutKeepsEffects(a: Rule, k: Rule, v: View, name: int, y: int, effect: Effect)
    requires Splittable(a, k) && InOrder(a) && InOrder(k)
    ensures Count([First(a, k), Second(a, k)] + Pieces(a, k), v, name, y, effect) == Count([a, k], v, name, y, effect)
  {
    var fs, sh, tl := [First(a, k), Second(a, k)], Shared(a, k), Tail(a, k);
    CountConcat(fs, sh + tl, v, name, y, effect);
    CountConcat(sh, tl, v, name, y, effect);
    CountTwo(a, k, v, name, y, effect);
    CountTwo(First(a, k), Second(a, k), v, name, y, effect);
  }

  function One(r: Rule, v: View, name: int, y: int, effect: Effect): nat {
    if InForce(r, name, y) && EffectIn(r, v, y) == effect then 1 else 0
  }

  lemma CountTwo(a: Rule, b: Rule, v: View, name: int, y: int, effect: Effect)
    ensures Count([a, b], v, name, y, effect) == One(a, v, name, y, effect) + One(b, v, name, y, effect)
  {
    CountConcat([a], [b], v, name, y, effect);
    assert [a] + [b] == [a, b];
  }

  /** It uses up one unit of slack for each rule that it adds. */
  lemma CutUsesSlack(a: Rule, k: Rule)
    requires Splittable(a, k) && InOrder(a) && InOrder(k)
    ensures Slack([First(a, k), Second(a, k)] + Pieces(a, k)) + |Pieces(a, k)| == Slack([a, k])
  {
    var fs, sh, tl := [First(a, k), Second(a, k)], Shared(a, k), Tail(a, k);
    SlackConcat(fs, sh + tl);
    SlackConcat(sh, tl);
    SlackTwo(a, k);
    SlackTwo(First(a, k), Second(a, k));
  }

  lemma SlackTwo(a: Rule, b: Rule)
    ensures Slack([a, b]) == a.end - a.start + b.end - b.start
  {
    SlackConcat([a], [b]);
    assert [a] + [b] == [a, b];
  }

  lemma SplitKeepsEffects(s: seq<Rule>, k: nat, v: View, name: int, y: int, effect: Effect)
    requires 0 < k < |s| && Splittable(s[0], s[k]) && InOrder(s[0]) && InOrder(s[k])
    ensures Count(AfterSplit(s, k), v, name, y, effect) == Count(s, v, name, y, effect)
  {
    var rest := s[1..k] + s[k + 1..];
    var pair, cut := [s[0], s[k]], [First(s[0], s[k]), Second(s[0], s[k])] + Pieces(s[0], s[k]);
    AfterSplitMultiset(s, k);
    CutKeepsEffects(s[0], s[k], v, name, y, effect);
    CountPermuted(s, rest + pair, v, name, y, effect);
    CountPermuted(AfterSplit(s, k), rest + cut, v, name, y, effect);
    CountConcat(rest, pair, v, name, y, effect);
    CountConcat(rest, cut, v, name, y, effect);
  }

  lemma SplitUsesSlack(s: seq<Rule>, k: nat)
    requires 0 < k < |s| && Splittable(s[0], s[k]) && InOrder(s[0]) && InOrder(s[k])
    ensures Slack(AfterSplit(s, k)) + |AfterSplit(s, k)| == Slack(s) + |s|
  {
    var rest := s[1..k] + s[k + 1..];
    var pair, cut := [s[0], s[k]], [First(s[0], s[k]), Second(s[0], s[k])] + Pieces(s[0], s[k]);
    AfterSplitMultiset(s, k);
    CutUsesSlack(s[0], s[k]);
    SlackPermuted(s, rest + pair);
    SlackPermuted(AfterSplit(s, k), rest + cut);
    SlackConcat(rest, pair);
    SlackConcat(rest, cut);
  }

  /** A cut makes no new edges and loses none. */
  lemma CutKeepsEdges(a: Rule, k: Rule, name: int, y: int)
    requires Splittable(a, k) && InOrder(a) && InOrder(k) && a.name == k.name
    ensures EdgeAt([First(a, k), Second(a, k)] + Pieces(a, k), name, y) <==> EdgeAt([a, k], name, y)
  {
    var cut := [First(a, k), Second(a, k)] + Pieces(a, k);
    assert First(a, k) in cut && Second(a, k) in cut && forall r | r in Shared(a, k) + Tail(a, k) :: r in cut;
    assert forall r | r in cut :: r == First(a, k) || r == Second(a, k) || r in Shared(a, k) || r in Tail(a, k);
    assert a in [a, k] && k in [a, k];
    if k.end < a.end {
      assert Restricted(a, k.end + 1, a.end) in Tail(a, k);
    } else if a.end < k.end {
      assert Restricted(k, a.end + 1, k.end) in Tail(a, k);
    }
  }

  lemma EdgesConcat(a: seq<Rule>, b: seq<Rule>, name: int, y: int)
    ensures EdgeAt(a + b, name, y) <==> EdgeAt(a, name, y) || EdgeAt(b, name, y)
  {
    assert forall r :: r in a + b <==> r in a || r in b;
  }

  lemma EdgesPermuted(a: seq<Rule>, b: seq<Rule>, name: int, y: int)
    requires multiset(a) == multiset(b)
    ensures EdgeAt(a, name, y) <==> EdgeAt(b, name, y)
  {
    assert forall r :: r in a <==> r in multiset(a);
    assert forall r :: r in b <==> r in multiset(b);
  }

  lemma SplitKeepsEdges(s: seq<Rule>, k: nat, name: int, y: int)
    requires 0 < k < |s| && Splittable(s[0], s[k]) && InOrder(s[0]) && InOrder(s[k]) && s[0].name == s[k].name
    ensures EdgeAt(AfterSplit(s, k), name, y) <==> EdgeAt(s, name, y)
  {
    var rest := s[1..k] + s[k + 1..];
    var pair, cut := [s[0], s[k]], [First(s[0], s[k]), Second(s[0], s[k])] + Pieces(s[0], s[k]);
    AfterSplitMultiset(s, k);
    CutKeepsEdges(s[0], s[k], name, y);
    EdgesPermuted(s, rest + pair, name, y);
    EdgesPermuted(AfterSplit(s, k), rest + cut, name, y);
    EdgesConcat(rest, pair, name, y);
    EdgesConcat(rest, cut, name, y);
  }

  // ----- Why one pass without restarts is enough.

  /** x is settled against a: it begins after a, or it begins with a and runs at least as long. */
  predicate Settled(a: Rule, x: Rule) {
    x.start > a.end || (x.start == a.start && x.end >= a.end)
  }

  /** w proves that no rule starting with a may end later than a: it ends a's range or begins
      right behind it. */
  predicate Bounds(a: Rule, w: Rule) {
    SameYears(a, w) || w.start == a.end + 1
  }

  predicate EqualOrApart(x: Rule, y: Rule) {
    SameYears(x, y) || x.end < y.start
  }

  lemma MultisetMember(s: seq<Rule>, t: seq<Rule>, x: Rule)
    requires multiset(s) == multiset(t) && x in s
    ensures x in t
  {
    assert x in multiset(t);
  }

  /** In a sorted list, a rule stands behind at least as many places as a sub-multiset of rules
      strictly below it has members. */
  lemma StandsBehind(t: seq<Rule>, p: nat, below: seq<Rule>)
    requires p < |t| && Sorted(t)
    requires multiset(below) <= multiset(t)
    requires forall x | x in below :: Less(x, t[p])
    ensures |below| <= p
  {
    assert t == t[..p] + t[p..];
    forall x | x in multiset(below)
      ensures multiset(below)[x] <= multiset(t[..p])[x]
    {
      assert x in below;
      assert x !in t[p..];
      assert multiset(t)[x] == multiset(t[..p])[x] + multiset(t[p..])[x];
    }
    assert multiset(below) <= multiset(t[..p]);
    CardinalityMonotone(multiset(below), multiset(t[..p]));
    assert |multiset(below)| == |below| && |multiset(t[..p])| == p;
  }

  lemma CardinalityMonotone(a: multiset<Rule>, b: multiset<Rule>)
    requires a <= b
    ensures |a| <= |b|
  {
    assert b == a + (b - a);
  }

  ghost predicate SplitThenSorted(s: seq<Rule>, k: nat, t: seq<Rule>) {
    && 0 < k < |s| && AllInOrder(s) && OneName(s, s[0].name) && Sorted(s)
    && Splittable(s[0], s[k])
    && Sorted(t) && multiset(t) == multiset(AfterSplit(s, k))
  }

  lemma PieceOrigins(s: seq<Rule>, k: nat, t: seq<Rule>, x: Rule)
    requires SplitThenSorted(s, k, t) && x in t
    ensures x == First(s[0], s[k]) || x == Second(s[0], s[k]) || x in Pieces(s[0], s[k]) || x in s[1..k] || x in s[k + 1..]
    ensures InOrder(x) && x.name == s[0].name && x.start >= s[0].start
  {
    MultisetMember(t, AfterSplit(s, k), x);
    assert forall p :: 0 < p < |s| ==> AtMost(s[0], s[p]) && s[p] in s;
    assert s[0] in s;
  }

  lemma OriginsArePieces(s: seq<Rule>, k: nat, t: seq<Rule>)
    requires SplitThenSorted(s, k, t)
    ensures First(s[0], s[k]) in t && Second(s[0], s[k]) in t
    ensures forall x | x in s[1..k] || x in s[k + 1..] :: x in t
  {
    var m := AfterSplit(s, k);
    assert First(s[0], s[k]) in m && Second(s[0], s[k]) in m;
    MultisetMember(m, t, First(s[0], s[k]));
    MultisetMember(m, t, Second(s[0], s[k]));
    forall x | x in s[1..k] || x in s[k + 1..]
      ensures x in t
    {
      assert x in m;
      MultisetMember(m, t, x);
    }
  }

  /** Sorting puts a rule with the years of First back in front. */
  lemma FrontAfterSplit(s: seq<Rule>, k: nat, t: seq<Rule>)
    requires SplitThenSorted(s, k, t)
    requires forall p :: 0 < p < k ==> Settled(s[0], s[p])
    ensures t != [] && SameYears(t[0], First(s[0], s[k]))
  {
    var f := First(s[0], s[k]);
    OriginsArePieces(s, k, t);
    var q :| 0 <= q < |t| && t[q] == f;
    assert AtMost(t[0], f) by {
      assert q == 0 || AtMost(t[0], t[q]);
    }
    assert t[0] in t;
    PieceOrigins(s, k, t, t[0]);
    assert forall p :: 0 < p < |s| ==> AtMost(s[0], s[p]);
  }

  lemma BelowIsPart(s: seq<Rule>, k: nat)
    requires 0 < k < |s| && Splittable(s[0], s[k]) && InOrder(s[0]) && InOrder(s[k])
    ensures multiset([First(s[0], s[k])] + s[1..k] + [Second(s[0], s[k])]) <= multiset(AfterSplit(s, k))
  {
    var below := [First(s[0], s[k])] + s[1..k] + [Second(s[0], s[k])];
    assert multiset(AfterSplit(s, k)) == multiset(below) + multiset(Pieces(s[0], s[k])) + multiset(s[k + 1..]);
  }

  /** A rule behind place k that First does not settle is strictly above all it could tie with. */
  lemma UnsettledIsAbove(s: seq<Rule>, k: nat, u: nat, v: Rule)
    requires 0 < k < u < |s| && AllInOrder(s) && Sorted(s) && s[0] in s && s[k] in s
    requires Splittable(s[0], s[k]) && !Settled(First(s[0], s[k]), s[u])
    requires forall q :: 0 < q < k ==> Settled(s[0], s[q])
    requires v == First(s[0], s[k]) || v == Second(s[0], s[k]) || v in s[1..k]
    requires s[u].name == s[0].name == s[k].name
    ensures Less(v, s[u])
  {
    assert AtMost(s[0], s[u]) && AtMost(s[k], s[u]);
    if v in s[1..k] {
      var q :| 0 < q < k && s[q] == v;
      assert AtMost(s[q], s[u]);
    }
  }

  lemma UnsettledIsBehind(s: seq<Rule>, k: nat, t: seq<Rule>, x: Rule) returns (u: nat)
    requires SplitThenSorted(s, k, t) && x in t && !Settled(First(s[0], s[k]), x)
    requires forall q :: 0 < q < k ==> Settled(s[0], s[q])
    ensures k < u < |s| && s[u] == x
  {
    assert s[0] in s && s[k] in s;
    PieceOrigins(s, k, t, x);
    assert forall v | v in s[1..k] :: Settled(s[0], v);
    u :| k < u < |s| && s[u] == x;
  }

  /** Every rule that the pass has already visited stays settled: an unsettled one is strictly
      above First, Second and all visited rules, so sorting leaves it behind place k. */
  lemma VisitedStaySettled(s: seq<Rule>, k: nat, t: seq<Rule>, p: nat)
    requires SplitThenSorted(s, k, t)
    requires forall q :: 0 < q < k ==> Settled(s[0], s[q])
    requires 0 < p <= k && p < |t|
    ensures Settled(First(s[0], s[k]), t[p])
  {
    assert s[0] in s && s[k] in s;
    var f, g, x := First(s[0], s[k]), Second(s[0], s[k]), t[p];
    if !Settled(f, x) {
      var u := UnsettledIsBehind(s, k, t, x);
      assert s[u] in s;
      var below := [f] + s[1..k] + [g];
      forall v | v in below
        ensures Less(v, x)
      {
        UnsettledIsAbove(s, k, u, v);
      }
      BelowIsPart(s, k);
      StandsBehind(t, p, below);
      assert false;
    }
  }

  lemma SecondBounds(a: Rule, b: Rule, x: Rule)
    requires Splittable(a, b) && InOrder(a) && InOrder(b) && SameYears(x, First(a, b))
    ensures Bounds(x, Second(a, b))
    ensures a.start == b.start ==> Bounds(x, First(a, b))
    ensures a.start < b.start ==> x != Second(a, b)
  {
  }

  lemma OneOfTwoBehind(t: seq<Rule>, x: Rule, y: Rule)
    requires t != [] && multiset([x, y]) <= multiset(t)
    ensures if t[0] == x then y in t[1..] else x in t[1..]
  {
    assert t == [t[0]] + t[1..];
    assert multiset(t[1..]) == multiset(t) - multiset{t[0]};
    assert multiset([x, y])[x] >= 1 && multiset([x, y])[y] >= 1;
    assert (if t[0] == x then y else x) in multiset(t[1..]);
  }

  lemma BoundAfterSplit(s: seq<Rule>, k: nat, t: seq<Rule>)
    requires SplitThenSorted(s, k, t)
    requires forall q :: 0 < q < k ==> Settled(s[0], s[q])
    ensures t != [] && exists w :: 0 < w < |t| && Bounds(t[0], t[w])
  {
    var f, g := First(s[0], s[k]), Second(s[0], s[k]);
    assert s[0] in s && s[k] in s;
    FrontAfterSplit(s, k, t);
    BelowIsPart(s, k);
    TwoOf(f, s[1..k], g);
    OneOfTwoBehind(t, g, f);
    SecondBounds(s[0], s[k], t[0]);
    var w := if t[0] == g then f else g;
    var q :| 0 <= q < |t[1..]| && t[1..][q] == w;
    assert t[q + 1] == w;
  }

  lemma TwoOf(f: Rule, middle: seq<Rule>, g: Rule)
    ensures multiset([g, f]) <= multiset([f] + middle + [g])
  {
    assert multiset([f] + middle + [g]) == multiset{f} + multiset(middle) + multiset{g};
    assert multiset([g, f]) == multiset{g} + multiset{f};
  }

  // ----- What a finished rule keeps while later passes cut the rules behind it.

  /** Either every rule that begins with f ends with it, or some rule bounds it. */
  ghost predicate Bounded(f: Rule, s: seq<Rule>) {
    (forall x | x in s :: x.start == f.start ==> x.end == f.end) || (exists w | w in s :: Bounds(f, w))
  }

  lemma SettledAfterSplit(f: Rule, s: seq<Rule>, k: nat, t: seq<Rule>, x: Rule)
    requires SplitThenSorted(s, k, t) && x in t && InOrder(f)
    requires forall y | y in s :: Settled(f, y)
    ensures Settled(f, x)
  {
    PieceOrigins(s, k, t, x);
    assert s[0] in s && s[k] in s;
  }

  lemma BoundedAfterSplit(f: Rule, s: seq<Rule>, k: nat, t: seq<Rule>)
    requires SplitThenSorted(s, k, t) && InOrder(f)
    requires forall y | y in s :: Settled(f, y)
    requires Bounded(f, s)
    ensures Bounded(f, t)
  {
    if w :| w in s && Bounds(f, w) {
      BoundStays(f, s, k, t, w);
    } else {
      assert s[0] in s && s[k] in s;
      forall x | x in t
        ensures x.start == f.start ==> x.end == f.end
      {
        PieceOrigins(s, k, t, x);
      }
    }
  }

  lemma BoundStays(f: Rule, s: seq<Rule>, k: nat, t: seq<Rule>, w: Rule)
    requires SplitThenSorted(s, k, t) && InOrder(f)
    requires forall y | y in s :: Settled(f, y)
    requires w in s && Bounds(f, w)
    ensures exists x | x in t :: Bounds(f, x)
  {
    assert s[0] in s && s[k] in s;
    OriginsArePieces(s, k, t);
    InParts(s, k, w);
    if w == s[0] || w == s[k] {
      PiecesBound(f, s[0], s[k]);
      assert Bounds(f, if w == s[0] then First(s[0], s[k]) else Second(s[0], s[k]));
    } else {
      assert w in t;
    }
  }

  lemma InParts(s: seq<Rule>, k: nat, w: Rule)
    requires 0 < k < |s| && w in s
    ensures w == s[0] || w == s[k] || w in s[1..k] || w in s[k + 1..]
  {
    var p :| 0 <= p < |s| && s[p] == w;
    if 0 < p < k {
      assert s[1..k][p - 1] == w;
    } else if k < p {
      assert s[k + 1..][p - k - 1] == w;
    }
  }

  lemma PiecesBound(f: Rule, a: Rule, b: Rule)
    requires Splittable(a, b) && InOrder(a) && InOrder(b) && InOrder(f) && Settled(f, a) && Settled(f, b)
    ensures Bounds(f, a) ==> Bounds(f, First(a, b))
    ensures Bounds(f, b) ==> Bounds(f, Second(a, b))
  {
  }

  ghost predicate Finished(done: seq<Rule>, rest: seq<Rule>) {
    && (forall p, q :: 0 <= p < q < |done| ==> EqualOrApart(done[p], done[q]))
    && (forall f, x | f in done && x in rest :: Settled(f, x))
    && (done != [] ==> Bounded(done[|done| - 1], rest))
  }

  lemma FinishedAfterSplit(done: seq<Rule>, s: seq<Rule>, k: nat, t: seq<Rule>)
    requires SplitThenSorted(s, k, t) && AllInOrder(done)
    requires Finished(done, s)
    ensures Finished(done, t)
  {
    forall f, x | f in done && x in t
      ensures Settled(f, x)
    {
      SettledAfterSplit(f, s, k, t, x);
    }
    if done != [] {
      BoundedAfterSplit(done[|done| - 1], s, k, t);
    }
  }

  /** What the inner loop has established about the rules before place k of the segment. */
  ghost predicate Visited(s: seq<Rule>, k: nat) {
    && 0 < k <= |s|
    && (forall p :: 0 < p < k ==> Settled(s[0], s[p]))
    && ((forall p :: 0 < p < k && s[p].start == s[0].start ==> s[p].end == s[0].end)
        || exists w :: 0 < w < |s| && Bounds(s[0], s[w]))
  }

  lemma VisitedAfterSplit(s: seq<Rule>, k: nat, t: seq<Rule>)
    requires SplitThenSorted(s, k, t) && Visited(s, k)
    ensures Visited(t, k + 1)
  {
    FrontAfterSplit(s, k, t);
    forall p | 0 < p < k + 1 && p < |t|
      ensures Settled(t[0], t[p])
    {
      VisitedStaySettled(s, k, t, p);
    }
    BoundAfterSplit(s, k, t);
    assert |multiset(t)| == |multiset(AfterSplit(s, k))|;
  }

  /** A rule whose pass is over joins the finished ones. */
  lemma PassFinishes(done: seq<Rule>, s: seq<Rule>)
    requires s != [] && AllInOrder(done) && AllInOrder(s)
    requires Finished(done, s) && Visited(s, |s|)
    ensures Finished(done + [s[0]], s[1..])
  {
    var a, d := s[0], done + [s[0]];
    assert a in s;
    forall f | f in done
      ensures EqualOrApart(f, a)
    {
      if f.start == a.start {
        var p :| 0 <= p < |done| && done[p] == f;
        var last := done[|done| - 1];
        assert last in done && Settled(last, a);
        assert p == |done| - 1 || EqualOrApart(done[p], last);
        assert SameYears(f, last);
        if w :| w in s && Bounds(last, w) {
          var q :| 0 <= q < |s| && s[q] == w;
          assert q == 0 || Settled(a, s[q]);
        }
      }
    }
    forall p, q | 0 <= p < q < |d|
      ensures EqualOrApart(d[p], d[q])
    {
      if q == |done| {
        assert d[p] in done;
      }
    }
    forall f, x | f in d && x in s[1..]
      ensures Settled(f, x)
    {
      var q :| 0 < q < |s| && s[q] == x;
      assert x in s;
    }
    assert Bounded(a, s[1..]) by {
      if w :| 0 < w < |s| && Bounds(a, s[w]) {
        assert s[w] in s[1..];
      }
    }
  }

  // ----- Rules that start together stay in the order of their months.

  ghost predicate MonthsInOrder(rs: seq<Rule>) {
    forall p, q :: 0 <= p < q < |rs| && rs[p].start == rs[q].start ==> rs[p].on.month <= rs[q].on.month
  }

  ghost predicate MonthsBefore(done: seq<Rule>, rest: seq<Rule>) {
    && MonthsInOrder(done)
    && forall f, x | f in done && x in rest :: x.start == f.start ==> f.on.month <= x.on.month
  }

  /** What is cut from a rule keeps its month, and starts with a finished rule only if the rule did. */
  lemma MonthsAfterSplit(done: seq<Rule>, s: seq<Rule>, k: nat, t: seq<Rule>)
    requires SplitThenSorted(s, k, t) && AllInOrder(done) && MonthsBefore(done, s)
    requires forall f, y | f in done && y in s :: Settled(f, y)
    ensures MonthsBefore(done, t)
  {
    assert s[0] in s && s[k] in s;
    forall f, x | f in done && x in t
      ensures x.start == f.start ==> f.on.month <= x.on.month
    {
      PieceOrigins(s, k, t, x);
      assert Settled(f, s[0]) && Settled(f, s[k]);
    }
  }

  lemma MonthsPass(done: seq<Rule>, s: seq<Rule>, name: int)
    requires s != [] && Sorted(s) && OneName(s, name) && MonthsBefore(done, s)
    ensures MonthsBefore(done + [s[0]], s[1..])
  {
    assert s[0] in s;
    forall x | x in s[1..]
      ensures x.start == s[0].start ==> s[0].on.month <= x.on.month
    {
      var q :| 0 < q < |s| && s[q] == x;
      assert x in s && AtMost(s[0], s[q]);
    }
    assert forall p :: 0 <= p < |done| ==> done[p] in done;
  }

  lemma LastOneFinishes(done: seq<Rule>, s: seq<Rule>)
    requires |s| <= 1 && AllInOrder(done) && AllInOrder(s) && Finished(done, s)
    ensures forall p, q :: 0 <= p < q < |done + s| ==> EqualOrApart((done + s)[p], (done + s)[q])
  {
    if s != [] {
      PassFinishes(done, s);
      assert done + s == done + [s[0]];
    }
  }
}
