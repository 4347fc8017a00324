/** What normalising a table of rules keeps of its meaning, and what it does not. */
module TzMeaning {
  import opened Calendar
  import opened TzRule
  import opened TzSplit

  /** Two lists apply every effect equally often, under every name and in every year and however one
      looks at it, and their ranges have the same edges. */
  ghost predicate SameForever(a: seq<Rule>, b: seq<Rule>) {
    && (forall v, name, y, effect :: Count(a, v, name, y, effect) == Count(b, v, name, y, effect))
    && (forall name, y :: EdgeAt(a, name, y) <==> EdgeAt(b, name, y))
  }

  function Settle(r: Rule): Rule {
    if r.start == r.end then r.(on := Canonicalize(r.on, r.start)) else r
  }

  ghost predicate SettledCopy(s: seq<Rule>, t: seq<Rule>) {
    |t| == |s| && forall p :: 0 <= p < |s| ==> t[p] == Settle(s[p])
  }

  /** kept is the stretch [a, b) of s, and no rule outside it is in force from lo to hi. */
  ghost predicate Kept(s: seq<Rule>, a: nat, b: nat, kept: seq<Rule>, lo: int, hi: int) {
    && a <= b <= |s| && kept == s[a..b]
    && (forall p :: 0 <= p < a ==> s[p].end < lo)
    && (forall p :: b <= p < |s| ==> s[p].start > hi)
  }

  /** What a normalised table applies in year y, compared with the original. Where the ranges of
      the name have edges on both sides of y, rules show the month and day they resolve to, elsewhere
      they are as given; either way they resolve to the same month and day. The moments are the same
      exactly if no rule that shows its month and day resolves to a day of another year. */
  ghost predicate Means(g: seq<Rule>, o: seq<Rule>, name: int, y: int) {
    && SameView(g, Given, o, if Singled(o, name, y) then Resolved else Given, name, y)
    && SameView(g, Resolved, o, Resolved, name, y)
    && (SameView(g, Moment, o, Moment, name, y) <==> !(Singled(o, name, y) && SomeLeaves(o, name, y)))
  }

  ghost predicate SameView(g: seq<Rule>, gv: View, o: seq<Rule>, ov: View, name: int, y: int) {
    forall effect :: Count(g, gv, name, y, effect) == Count(o, ov, name, y, effect)
  }

  ghost predicate AllMean(g: seq<Rule>, o: seq<Rule>, lo: int, hi: int) {
    forall name, y | lo <= y <= hi :: Means(g, o, name, y)
  }

  ghost predicate SomeInForce(rs: seq<Rule>, name: int, y: int) {
    exists r | r in rs :: InForce(r, name, y)
  }

  /** y is the last year before lo in which some rule of the name is in force. */
  ghost predicate LastBefore(rs: seq<Rule>, name: int, y: int, lo: int) {
    y < lo && SomeInForce(rs, name, y) && forall z | y < z < lo :: !SomeInForce(rs, name, z)
  }

  /** Some rule of that year is kept, so that what applied before the supported years is known. */
  ghost predicate Remembers(g: seq<Rule>, o: seq<Rule>, lo: int) {
    forall name, y | LastBefore(o, name, y, lo) :: SomeInForce(g, name, y)
  }

  lemma SameInForce(a: seq<Rule>, b: seq<Rule>)
    requires SameForever(a, b)
    ensures forall name, y :: SomeInForce(a, name, y) ==> SomeInForce(b, name, y)
  {
    forall name, y | SomeInForce(a, name, y)
      ensures SomeInForce(b, name, y)
    {
      var r :| r in a && InForce(r, name, y);
      CountPositive(a, Given, name, y, EffectIn(r, Given, y));
      CountPositive(b, Given, name, y, EffectIn(r, Given, y));
    }
  }

  lemma SettledInForce(a: seq<Rule>, b: seq<Rule>)
    requires SettledCopy(a, b)
    ensures forall name, y :: SomeInForce(a, name, y) <==> SomeInForce(b, name, y)
  {
    forall name, y
      ensures SomeInForce(a, name, y) <==> SomeInForce(b, name, y)
    {
      if r :| r in a && InForce(r, name, y) {
        var p :| 0 <= p < |a| && a[p] == r;
        assert b[p] == Settle(r) && b[p] in b;
      }
      if r :| r in b && InForce(r, name, y) {
        var p :| 0 <= p < |b| && b[p] == r;
        assert r == Settle(a[p]) && a[p] in a;
      }
    }
  }

  lemma RemembersSettled(orig: seq<Rule>, cut: seq<Rule>, settled: seq<Rule>, g: seq<Rule>, lo: int)
    requires SameForever(cut, orig) && SettledCopy(cut, settled) && Remembers(g, settled, lo)
    ensures Remembers(g, orig, lo)
  {
    SameInForce(cut, orig);
    SameInForce(orig, cut);
    SettledInForce(cut, settled);
    forall name, y | LastBefore(orig, name, y, lo)
      ensures SomeInForce(g, name, y)
    {
      assert LastBefore(settled, name, y, lo);
    }
  }

  lemma RemembersJoin(front: seq<Rule>, o: seq<Rule>, g: seq<Rule>, run: seq<Rule>, runName: int, lo: int)
    requires Remembers(front, o, lo) && Remembers(g, run, lo) && OneName(g, runName) && OneName(run, runName)
    requires forall r | r in front || r in o :: r.name < runName
    ensures Remembers(front + g, o + run, lo)
  {
    assert forall r :: r in o + run <==> r in o || r in run;
    assert forall r :: r in front + g <==> r in front || r in g;
    forall name, y | LastBefore(o + run, name, y, lo)
      ensures SomeInForce(front + g, name, y)
    {
      if name == runName {
        assert forall z :: SomeInForce(o + run, name, z) <==> SomeInForce(run, name, z);
        assert LastBefore(run, name, y, lo);
      } else {
        assert forall z :: SomeInForce(o + run, name, z) <==> SomeInForce(o, name, z);
        assert LastBefore(o, name, y, lo);
      }
    }
  }

  // ----- Settling the rules of a single year.

  /** The rules of a single year are those that stand between two edges. */
  lemma SinglesAre(cut: seq<Rule>, name: int, y: int, r: Rule)
    requires AllInOrder(cut) && (forall p, q :: 0 <= p < q < |cut| ==> EqualOrApart(cut[p], cut[q]))
    requires r in cut && InForce(r, name, y) && OneName(cut, name)
    ensures r.start == r.end <==> Singled(cut, name, y)
  {
    forall x | x in cut
      ensures SameYears(x, r) || x.end < r.start || r.end < x.start
    {
      var p, q :| 0 <= p < |cut| && 0 <= q < |cut| && cut[p] == x && cut[q] == r;
    }
    if r.start == r.end {
      assert r.start == y && r.end + 1 == y + 1;
    }
    if Singled(cut, name, y) {
      var x :| x in cut && x.name == name && (x.start == y || x.end + 1 == y);
      assert InOrder(x);
      var z :| z in cut && z.name == name && (z.start == y + 1 || z.end + 1 == y + 1);
      assert InOrder(z);
    }
  }

  lemma SettledYears(r: Rule, name: int, y: int)
    ensures InForce(Settle(r), name, y) == InForce(r, name, y)
  {
  }

  lemma SettledDay(on: On, y: int)
    ensures Seen(Canonicalize(on, y), Given, y) == Seen(on, Resolved, y)
    ensures Seen(Canonicalize(on, y), Resolved, y) == Seen(on, Resolved, y)
    ensures Seen(Canonicalize(on, y), Moment, y) == Seen(on, Moment, y) <==> !LeavesYear(on, y)
  {
    CanonicalizeKeepsMoment(on, y);
  }

  /** How a rule appears once it is settled. */
  function Shown(r: Rule, v: View): View {
    if v == Given && r.start == r.end then Resolved else v
  }

  /** A settled rule in force shows the month and day, and stands for the day it stood for unless
      that was a day of another year. */
  lemma SettledEffect(r: Rule, v: View, name: int, y: int)
    requires InForce(r, name, y) && (v == Moment && r.start == r.end ==> !LeavesYear(r.on, y))
    ensures EffectIn(Settle(r), v, y) == EffectIn(r, Shown(r, v), y)
  {
    if r.start == r.end {
      SettledDay(r.on, y);
    }
  }

  lemma {:induction false} SettleKeeps(a: seq<Rule>, v: View, b: seq<Rule>, w: View, name: int, y: int, effect: Effect)
    requires SettledCopy(a, b)
    requires forall r | r in a && InForce(r, name, y) :: EffectIn(Settle(r), w, y) == EffectIn(r, v, y)
    ensures Count(b, w, name, y, effect) == Count(a, v, name, y, effect)
  {
    if a != [] {
      assert a[0] in a && forall r | r in a[1..] :: r in a;
      SettledYears(a[0], name, y);
      SettleKeeps(a[1..], v, b[1..], w, name, y, effect);
    }
  }

  /** A month and day stand for a day of the year. */
  lemma StaysInYear(on: On, y: int)
    requires on.MonthDay?
    ensures YearStart(y) <= ToSerial(on, y) < YearStart(y) + YearLength(y)
  {
  }

  lemma CanonicalIsMonthDay(on: On, y: int)
    ensures Canonicalize(on, y).MonthDay?
  {
  }

  /** A moment of another year is lost when all rules of the year show their months and days. */
  lemma MomentLost(o: seq<Rule>, g: seq<Rule>, name: int, y: int)
    requires SomeLeaves(o, name, y) && forall r | r in g && InForce(r, name, y) :: r.on.MonthDay?
    ensures !SameView(g, Moment, o, Moment, name, y)
  {
    var r :| r in o && InForce(r, name, y) && LeavesYear(r.on, y);
    var effect := EffectIn(r, Moment, y);
    LeavesYearIsExact(r.on, y);
    CountPositive(o, Moment, name, y, effect);
    CountPositive(g, Moment, name, y, effect);
    forall x | x in g && InForce(x, name, y)
      ensures EffectIn(x, Moment, y) != effect
    {
      StaysInYear(x.on, y);
    }
    assert Count(g, Moment, name, y, effect) == 0 < Count(o, Moment, name, y, effect);
  }

  /** Rules in force under the cut table show the days that rules in force in the original show. */
  lemma LeavingAreOriginal(orig: seq<Rule>, cut: seq<Rule>, name: int, y: int, r: Rule)
    requires SameForever(cut, orig) && r in cut && InForce(r, name, y) && LeavesYear(r.on, y)
    ensures SomeLeaves(orig, name, y)
  {
    var effect := EffectIn(r, Given, y);
    CountPositive(cut, Given, name, y, effect);
    CountPositive(orig, Given, name, y, effect);
    var x :| x in orig && InForce(x, name, y) && EffectIn(x, Given, y) == effect;
  }

  lemma SettledMeans(orig: seq<Rule>, cut: seq<Rule>, settled: seq<Rule>, name: int, n: int, y: int)
    requires SameForever(cut, orig) && SettledCopy(cut, settled) && AllInOrder(cut) && OneName(cut, name)
    requires forall p, q :: 0 <= p < q < |cut| ==> EqualOrApart(cut[p], cut[q])
    ensures Means(settled, orig, n, y)
  {
    var view := if Singled(orig, n, y) then Resolved else Given;
    forall r | r in cut && InForce(r, n, y)
      ensures r.start == r.end <==> Singled(orig, n, y)
      ensures EffectIn(Settle(r), Given, y) == EffectIn(r, view, y)
      ensures EffectIn(Settle(r), Resolved, y) == EffectIn(r, Resolved, y)
      ensures EffectIn(Settle(r), Moment, y) == EffectIn(r, Moment, y) || (Singled(orig, n, y) && SomeLeaves(orig, n, y))
    {
      SinglesAre(cut, n, y, r);
      SettledEffect(r, Given, n, y);
      SettledEffect(r, Resolved, n, y);
      if LeavesYear(r.on, y) {
        LeavingAreOriginal(orig, cut, n, y, r);
      }
      if !(r.start == r.end && LeavesYear(r.on, y)) {
        SettledEffect(r, Moment, n, y);
      }
    }
    forall effect
      ensures Count(settled, Given, n, y, effect) == Count(orig, view, n, y, effect)
      ensures Count(settled, Resolved, n, y, effect) == Count(orig, Resolved, n, y, effect)
      ensures !(Singled(orig, n, y) && SomeLeaves(orig, n, y)) ==>
                Count(settled, Moment, n, y, effect) == Count(orig, Moment, n, y, effect)
    {
      SettleKeeps(cut, view, settled, Given, n, y, effect);
      SettleKeeps(cut, Resolved, settled, Resolved, n, y, effect);
      if !(Singled(orig, n, y) && SomeLeaves(orig, n, y)) {
        SettleKeeps(cut, Moment, settled, Moment, n, y, effect);
      }
    }
    if Singled(orig, n, y) && SomeLeaves(orig, n, y) {
      AllShown(cut, settled, n, y);
      MomentLost(orig, settled, n, y);
    }
  }

  lemma AllShown(cut: seq<Rule>, settled: seq<Rule>, name: int, y: int)
    requires SettledCopy(cut, settled) && forall r | r in cut && InForce(r, name, y) :: r.start == r.end
    ensures forall x | x in settled && InForce(x, name, y) :: x.on.MonthDay?
  {
    forall x | x in settled && InForce(x, name, y)
      ensures x.on.MonthDay?
    {
      var p :| 0 <= p < |settled| && settled[p] == x;
      assert cut[p] in cut && x == Settle(cut[p]);
      SettledYears(cut[p], name, y);
      CanonicalIsMonthDay(cut[p].on, y);
    }
  }

  // ----- Erasing what is not in force in the supported years.

  lemma {:induction false} CountNone(s: seq<Rule>, v: View, name: int, y: int, effect: Effect)
    requires forall r | r in s :: !InForce(r, name, y)
    ensures Count(s, v, name, y, effect) == 0
  {
    if s != [] {
      assert s[0] in s;
      CountNone(s[1..], v, name, y, effect);
    }
  }

  lemma KeptKeeps(s: seq<Rule>, a: nat, b: nat, kept: seq<Rule>, lo: int, hi: int, v: View, name: int, y: int, effect: Effect)
    requires Kept(s, a, b, kept, lo, hi) && lo <= y <= hi
    ensures Count(kept, v, name, y, effect) == Count(s, v, name, y, effect)
  {
    assert s == s[..a] + (kept + s[b..]);
    CountConcat(s[..a], kept + s[b..], v, name, y, effect);
    CountConcat(kept, s[b..], v, name, y, effect);
    CountNone(s[..a], v, name, y, effect);
    CountNone(s[b..], v, name, y, effect);
  }

  lemma KeptMeans(o: seq<Rule>, s: seq<Rule>, a: nat, b: nat, kept: seq<Rule>, lo: int, hi: int, name: int, y: int)
    requires Kept(s, a, b, kept, lo, hi) && lo <= y <= hi && Means(s, o, name, y)
    ensures Means(kept, o, name, y)
  {
    forall v, effect
      ensures Count(kept, v, name, y, effect) == Count(s, v, name, y, effect)
    {
      KeptKeeps(s, a, b, kept, lo, hi, v, name, y, effect);
    }
  }

  // ----- Putting the names together.

  lemma NotOfName(a: seq<Rule>, b: seq<Rule>, name: int, y: int)
    requires forall r | r in a :: r.name != name
    ensures forall v, effect :: Count(a + b, v, name, y, effect) == Count(b, v, name, y, effect)
    ensures forall v, effect :: Count(b + a, v, name, y, effect) == Count(b, v, name, y, effect)
    ensures Singled(a + b, name, y) <==> Singled(b, name, y)
    ensures Singled(b + a, name, y) <==> Singled(b, name, y)
    ensures SomeLeaves(a + b, name, y) <==> SomeLeaves(b, name, y)
    ensures SomeLeaves(b + a, name, y) <==> SomeLeaves(b, name, y)
  {
    forall v, effect
      ensures Count(a + b, v, name, y, effect) == Count(b, v, name, y, effect) == Count(b + a, v, name, y, effect)
    {
      CountNone(a, v, name, y, effect);
      CountConcat(a, b, v, name, y, effect);
      CountConcat(b, a, v, name, y, effect);
    }
    assert forall r :: r in a + b <==> r in a || r in b;
    assert forall r :: r in b + a <==> r in a || r in b;
  }

  lemma MeansJoin(front: seq<Rule>, o: seq<Rule>, g: seq<Rule>, run: seq<Rule>, runName: int, name: int, y: int)
    requires Means(front, o, name, y) && Means(g, run, name, y) && OneName(g, runName) && OneName(run, runName)
    requires forall r | r in front || r in o :: r.name < runName
    ensures Means(front + g, o + run, name, y)
  {
    if name == runName {
      NotOfName(front, g, name, y);
      NotOfName(o, run, name, y);
    } else {
      NotOfName(g, front, name, y);
      NotOfName(run, o, name, y);
    }
  }
}
