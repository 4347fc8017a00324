/** Finding the edges that a shortcut edge stands for, by walking the graph from its begin node. */
module ShortcutRecovery {
  import opened Option

  type U32 = n: int | 0 <= n < 0x1_0000_0000

  /** Lengths in meters take 24 bits. */
  type Length = n: int | 0 <= n < 0x100_0000

  /** shortcut is the mask bit of a shortcut edge (0 on others), superseded the mask of the
      shortcuts at its begin node that an edge is part of. signature stands for the attributes
      that the edges of a shortcut share with it: access, sign, use, class, and so on. */
  datatype Edge = Edge(id: int, from: int, end: int, length: Length, shortcut: bv8, superseded: bv8,
                       isShortcut: bool, construction: bool, signature: int)

  /** The edges leaving each node whose tile is present, and the opposing edge of each edge that
      has one. */
  datatype Graph = Graph(out: map<int, seq<Edge>>, opp: map<int, Edge>)

  ghost predicate EdgeOf(g: Graph, e: Edge) {
    e.from in g.out && e in g.out[e.from]
  }

  ghost predicate Consistent(g: Graph) {
    forall n, e | n in g.out && e in g.out[n] :: e.from == n
  }

  /** The graph builder gives every edge a length of at least one meter. */
  ghost predicate NoZeroLengths(g: Graph) {
    forall n, e | n in g.out && e in g.out[n] :: e.length >= 1
  }

  /** An edge like the shortcut, and not back to where the walk has just come from. */
  predicate Continues(s: Edge, last: Edge, e: Edge) {
    last.from != e.end && !e.isShortcut && e.signature == s.signature && !e.construction
  }

  predicate StartsShortcut(s: Edge, e: Edge) {
    s.shortcut & e.superseded != 0
  }

  ghost predicate FirstStart(s: Edge, es: seq<Edge>, e: Edge) {
    exists i :: 0 <= i < |es| && es[i] == e && StartsShortcut(s, e) && forall j :: 0 <= j < i ==> !StartsShortcut(s, es[j])
  }

  ghost predicate FirstContinuing(s: Edge, last: Edge, es: seq<Edge>, e: Edge) {
    exists i :: 0 <= i < |es| && es[i] == e && Continues(s, last, e) && forall j :: 0 <= j < i ==> !Continues(s, last, es[j])
  }

  ghost predicate NoneContinues(s: Edge, last: Edge, es: seq<Edge>) {
    forall e | e in es :: !Continues(s, last, e)
  }

  function Sum(es: seq<Edge>): nat {
    if es == [] then 0 else Sum(es[..|es| - 1]) + es[|es| - 1].length
  }

  /** The tolerance after n edges: round(n * 0.5) + 1, but 1 for the first edge. */
  function Roundoff(n: nat): nat {
    if n <= 1 then 1 else (n + 1) / 2 + 1
  }

  /** The walk of n edges that the search makes: each edge is the first that fits. */
  ghost predicate Walk(g: Graph, s: Edge, es: seq<Edge>) {
    && es != [] && s.from in g.out && FirstStart(s, g.out[s.from], es[0])
    && forall i :: 0 < i < |es| ==> WalkStep(g, s, es, i)
  }

  /** Step i: the walk was not at the end of the shortcut, went on, and is not too long. */
  ghost predicate WalkStep(g: Graph, s: Edge, es: seq<Edge>, i: int)
    requires 0 < i < |es|
  {
    && es[i - 1].end != s.end && es[i - 1].end in g.out
    && FirstContinuing(s, es[i - 1], g.out[es[i - 1].end], es[i])
    && Sum(es[..i + 1]) <= s.length + Roundoff(i + 1)
  }

  /** es is a recovery of s: the walk ends with s and is not too short. The source subtracts the
      tolerance from the length in unsigned arithmetic, so that a shortcut shorter than the
      tolerance of its walk is never recovered. */
  ghost predicate Recovers(g: Graph, s: Edge, es: seq<Edge>) {
    && s.isShortcut && Walk(g, s, es) && es[|es| - 1].end == s.end
    && s.length >= Roundoff(|es|) && Sum(es) >= s.length - Roundoff(|es|)
  }

  lemma SumGrows(es: seq<Edge>, e: Edge)
    ensures Sum(es + [e]) == Sum(es) + e.length
  {
    assert (es + [e])[..|es|] == es;
  }

  lemma {:induction false} SumAtLeastCount(es: seq<Edge>)
    requires forall e | e in es :: e.length >= 1
    ensures Sum(es) >= |es|
  {
    if es != [] {
      SumAtLeastCount(es[..|es| - 1]);
      assert es[|es| - 1] in es;
    }
  }

  lemma WalkEdges(g: Graph, s: Edge, es: seq<Edge>, i: nat)
    requires Consistent(g) && Walk(g, s, es) && i < |es|
    ensures EdgeOf(g, es[i]) && (i == 0 ==> es[i].from == s.from) && (i > 0 ==> es[i].from == es[i - 1].end)
  {
    if i > 0 {
      assert WalkStep(g, s, es, i);
    }
  }

  /** The growing tolerance never outruns the walk: it is at most about twice the length long. */
  lemma WalkIsBounded(g: Graph, s: Edge, es: seq<Edge>)
    requires Consistent(g) && NoZeroLengths(g) && Walk(g, s, es)
    ensures |es| <= 2 * s.length + 3
  {
    forall e | e in es
      ensures e.length >= 1
    {
      var i :| 0 <= i < |es| && es[i] == e;
      WalkEdges(g, s, es, i);
    }
    SumAtLeastCount(es);
    if |es| > 1 {
      assert WalkStep(g, s, es, |es| - 1);
      assert es[..|es| - 1 + 1] == es;
    }
  }

  const MAX_WALK: nat := 0x4000_0000

  /** The search for s ends, long before the 32-bit count of its edges wraps. */
  ghost predicate Bounded(g: Graph, s: Edge) {
    forall es :: Walk(g, s, es) ==> |es| <= MAX_WALK
  }

  ghost predicate AllBounded(g: Graph) {
    forall s | EdgeOf(g, s) :: Bounded(g, s)
  }

  lemma NoZeroLengthsBounded(g: Graph)
    requires Consistent(g) && NoZeroLengths(g)
    ensures forall s :: Bounded(g, s)
  {
    forall s, es | Walk(g, s, es)
      ensures |es| <= MAX_WALK
    {
      WalkIsBounded(g, s, es);
    }
  }

  lemma WalkGrows(g: Graph, s: Edge, es: seq<Edge>, e: Edge)
    requires Walk(g, s, es) && es[|es| - 1].end != s.end && es[|es| - 1].end in g.out
    requires FirstContinuing(s, es[|es| - 1], g.out[es[|es| - 1].end], e)
    requires Sum(es) + e.length <= s.length + Roundoff(|es| + 1)
    ensures Walk(g, s, es + [e])
  {
    var ms := es + [e];
    SumGrows(es, e);
    forall i | 0 < i < |ms|
      ensures WalkStep(g, s, ms, i)
    {
      if i < |es| {
        assert WalkStep(g, s, es, i);
        assert ms[..i + 1] == es[..i + 1];
      } else {
        assert ms[..i + 1] == ms;
      }
    }
  }

  /** The search is deterministic: of two walks one begins with the other. */
  lemma {:induction false} WalksAgree(g: Graph, s: Edge, es: seq<Edge>, ms: seq<Edge>, i: nat)
    requires Walk(g, s, es) && Walk(g, s, ms) && i < |es| && i < |ms|
    ensures es[i] == ms[i]
    decreases i
  {
    if i > 0 {
      WalksAgree(g, s, es, ms, i - 1);
      assert WalkStep(g, s, es, i) && WalkStep(g, s, ms, i);
    }
  }

  /** So a recovery has the current walk as its beginning, until that has reached the end. */
  lemma RecoveryContinues(g: Graph, s: Edge, es: seq<Edge>, ms: seq<Edge>)
    requires Walk(g, s, es) && Recovers(g, s, ms)
    ensures |es| <= |ms| && (forall i :: 0 <= i < |es| ==> es[i] == ms[i])
    ensures es[|es| - 1].end == s.end ==> es == ms
    ensures |es| < |ms| ==> WalkStep(g, s, ms, |es|)
  {
    var k := if |es| <= |ms| then |es| else |ms|;
    forall i | 0 <= i < k
      ensures es[i] == ms[i]
    {
      WalksAgree(g, s, es, ms, i);
    }
    assert |ms| < |es| ==> WalkStep(g, s, es, |ms|);
    assert |es| < |ms| ==> WalkStep(g, s, ms, |es|);
  }

  lemma DeadEnd(g: Graph, s: Edge, es: seq<Edge>)
    requires Walk(g, s, es) && es[|es| - 1].end != s.end
    requires es[|es| - 1].end !in g.out || NoneContinues(s, es[|es| - 1], g.out[es[|es| - 1].end])
    ensures forall ms :: !Recovers(g, s, ms)
  {
    forall ms | Recovers(g, s, ms)
      ensures false
    {
      RecoveryContinues(g, s, es, ms);
    }
  }

  lemma TooLong(g: Graph, s: Edge, es: seq<Edge>, e: Edge)
    requires Walk(g, s, es) && es[|es| - 1].end != s.end && es[|es| - 1].end in g.out
    requires FirstContinuing(s, es[|es| - 1], g.out[es[|es| - 1].end], e)
    requires Sum(es) + e.length > s.length + Roundoff(|es| + 1)
    ensures forall ms :: !Recovers(g, s, ms)
  {
    forall ms | Recovers(g, s, ms)
      ensures false
    {
      RecoveryContinues(g, s, es, ms);
      assert ms[..|es| + 1] == es + [e];
      SumGrows(es, e);
    }
  }

  lemma TooShort(g: Graph, s: Edge, es: seq<Edge>)
    requires Walk(g, s, es) && es[|es| - 1].end == s.end && !Recovers(g, s, es)
    ensures forall ms :: !Recovers(g, s, ms)
  {
    forall ms | Recovers(g, s, ms)
      ensures false
    {
      RecoveryContinues(g, s, es, ms);
    }
  }

  lemma ShortWalk(g: Graph, s: Edge, es: seq<Edge>)
    requires Consistent(g) && Walk(g, s, es)
    ensures NoZeroLengths(g) ==> |es| <= 2 * s.length + 3
  {
    if NoZeroLengths(g) {
      WalkIsBounded(g, s, es);
    }
  }

  /** recover_shortcut. begin is the start node found through the opposing edge, if there is one.
      Where the source hands back the shortcut itself, the result is None. */
  method RecoverShortcut(g: Graph, s: Edge, begin: Option<int>) returns (r: Option<seq<Edge>>, edgeCount: nat)
    requires Consistent(g) && Bounded(g, s) && s.from in g.out
    requires begin.Some? ==> begin.value == s.from
    ensures r.Some? ==> Recovers(g, s, r.value) && IsPath(g, s.from, r.value, s.end) && AllAlike(g, s, r.value)
    ensures r.None? ==> begin.None? || forall es :: !Recovers(g, s, es)
    ensures begin.Some? ==> forall es :: OnlyWay(g, s, es) ==> r == Some(es)
    ensures NoZeroLengths(g) ==> edgeCount <= 2 * s.length + 4
  {
    r, edgeCount := Search(g, s, begin);
    if r.Some? {
      RecoveredEdges(g, s, r.value);
    }
    forall es | OnlyWay(g, s, es) && begin.Some?
      ensures r == Some(es)
    {
      OnlyWayIsRecovered(g, s, es);
    }
  }

  method Search(g: Graph, s: Edge, begin: Option<int>) returns (r: Option<seq<Edge>>, edgeCount: nat)
    requires Consistent(g) && Bounded(g, s) && s.from in g.out
    requires begin.Some? ==> begin.value == s.from
    ensures r.Some? ==> Recovers(g, s, r.value) && IsPath(g, s.from, r.value, s.end)
    ensures r.None? ==> begin.None? || forall es :: !Recovers(g, s, es)
    ensures NoZeroLengths(g) ==> edgeCount <= 2 * s.length + 4
  {
    edgeCount := 0;
    if !s.isShortcut || begin.None? {
      return None, edgeCount;
    }
    var first := FindStart(g.out[begin.value], s);
    if first.None? {
      return None, edgeCount;
    }
    var edges := [first.value];
    assert Walk(g, s, edges);
    var current := first.value;
    var accumulated: U32 := current.length;
    edgeCount := 1;
    var roundoff: U32 := 1;
    SumGrows([], current);
    assert [] + [current] == edges;
    while current.end != s.end
      invariant Walk(g, s, edges) && current == edges[|edges| - 1] && accumulated == Sum(edges)
      invariant edgeCount == |edges| <= MAX_WALK && roundoff == Roundoff(edgeCount)
      invariant edgeCount > 1 ==> accumulated <= s.length + roundoff
      decreases MAX_WALK - edgeCount
    {
      ShortWalk(g, s, edges);
      if current.end !in g.out {
        DeadEnd(g, s, edges);
        return None, edgeCount;
      }
      var next := FindNext(g.out[current.end], s, current);
      edgeCount := edgeCount + 1;
      roundoff := (edgeCount + 1) / 2 + 1;
      if next.None? {
        DeadEnd(g, s, edges);
        return None, edgeCount;
      }
      accumulated := accumulated + next.value.length;
      if accumulated > s.length + roundoff {
        TooLong(g, s, edges, next.value);
        return None, edgeCount;
      }
      WalkGrows(g, s, edges, next.value);
      SumGrows(edges, next.value);
      edges := edges + [next.value];
      current := next.value;
    }
    ShortWalk(g, s, edges);
    if accumulated < MinusU32(s.length, roundoff) {
      TooShort(g, s, edges);
      return None, edgeCount;
    }
    WalkIsPath(g, s, edges);
    return Some(edges), edgeCount;
  }

  /** uint32_t subtraction. */
  function MinusU32(a: U32, b: U32): U32 {
    if a >= b then a - b else a - b + 0x1_0000_0000
  }

  method FindStart(es: seq<Edge>, s: Edge) returns (r: Option<Edge>)
    ensures r.Some? ==> FirstStart(s, es, r.value)
    ensures r.None? ==> forall e :: !FirstStart(s, es, e)
  {
    var i := 0;
    while i < |es|
      invariant 0 <= i <= |es|
      invariant forall j :: 0 <= j < i ==> !StartsShortcut(s, es[j])
    {
      if StartsShortcut(s, es[i]) {
        return Some(es[i]);
      }
      i := i + 1;
    }
    return None;
  }

  method FindNext(es: seq<Edge>, s: Edge, last: Edge) returns (r: Option<Edge>)
    ensures r.Some? ==> FirstContinuing(s, last, es, r.value)
    ensures r.None? ==> NoneContinues(s, last, es)
  {
    var i := 0;
    while i < |es|
      invariant 0 <= i <= |es|
      invariant forall j :: 0 <= j < i ==> !Continues(s, last, es[j])
    {
      if Continues(s, last, es[i]) {
        return Some(es[i]);
      }
      i := i + 1;
    }
    return None;
  }

  /** Edges of the graph from one node to another, each starting where the one before ends. */
  ghost predicate IsPath(g: Graph, from: int, es: seq<Edge>, to: int) {
    && es != [] && es[0].from == from && es[|es| - 1].end == to
    && (forall e | e in es :: EdgeOf(g, e))
    && forall i :: 0 < i < |es| ==> es[i].from == es[i - 1].end
  }

  lemma WalkIsPath(g: Graph, s: Edge, es: seq<Edge>)
    requires Consistent(g) && Walk(g, s, es) && es[|es| - 1].end == s.end
    ensures IsPath(g, s.from, es, s.end)
  {
    forall i | 0 <= i < |es|
      ensures EdgeOf(g, es[i]) && (i == 0 ==> es[i].from == s.from) && (i > 0 ==> es[i].from == es[i - 1].end)
    {
      WalkEdges(g, s, es, i);
    }
  }

  /** What a recovery promises in lengths alone. */
  lemma RecoveredLength(g: Graph, s: Edge, es: seq<Edge>)
    requires Recovers(g, s, es)
    ensures |es| == 1 ==> Sum(es) >= s.length - 1
    ensures |es| >= 2 ==> s.length - (|es| + 1) / 2 - 1 <= Sum(es) <= s.length + (|es| + 1) / 2 + 1
    ensures forall i :: 0 < i < |es| ==> es[i].end != es[i - 1].from
  {
    if |es| >= 2 {
      assert WalkStep(g, s, es, |es| - 1);
      assert es[..|es| - 1 + 1] == es;
    }
    forall i | 0 < i < |es|
      ensures es[i].end != es[i - 1].from
    {
      assert WalkStep(g, s, es, i);
    }
  }

  /** In the list at place p, e is the first edge that the shortcut supersedes. */
  ghost predicate SupersededFirst(s: Edge, here: seq<Edge>, e: Edge, p: int) {
    && 0 <= p < |here| && here[p] == e && s.shortcut & e.superseded != 0
    && forall q :: 0 <= q < p ==> s.shortcut & here[q].superseded == 0
  }

  /** In the list at place p, e is the first edge that is no shortcut, not under construction, like the
      shortcut, and not back to the node before. */
  ghost predicate AlikeFirst(s: Edge, before: int, here: seq<Edge>, e: Edge, p: int) {
    && 0 <= p < |here| && here[p] == e
    && !e.isShortcut && !e.construction && e.signature == s.signature && e.end != before
    && forall q :: 0 <= q < p ==>
         here[q].isShortcut || here[q].construction || here[q].signature != s.signature || here[q].end == before
  }

  ghost predicate GoesOnAlike(g: Graph, s: Edge, es: seq<Edge>, i: int)
    requires 0 < i < |es|
  {
    && es[i - 1].end != s.end && es[i - 1].end in g.out
    && IsAlikeFirst(s, es[i - 1].from, g.out[es[i - 1].end], es[i])
  }

  ghost predicate IsAlikeFirst(s: Edge, before: int, here: seq<Edge>, e: Edge) {
    exists p :: AlikeFirst(s, before, here, e, p)
  }

  ghost predicate AllAlike(g: Graph, s: Edge, es: seq<Edge>) {
    && s.isShortcut && s.from in g.out && es != [] && (exists p :: SupersededFirst(s, g.out[s.from], es[0], p))
    && forall i :: 0 < i < |es| ==> GoesOnAlike(g, s, es, i)
  }

  /** What a recovery is, edge by edge. */
  lemma RecoveredEdges(g: Graph, s: Edge, es: seq<Edge>)
    requires Recovers(g, s, es)
    ensures AllAlike(g, s, es)
  {
    FirstIsSuperseded(s, g.out[s.from], es[0]);
    forall i | 0 < i < |es|
      ensures GoesOnAlike(g, s, es, i)
    {
      WalkGoesOnAlike(g, s, es, i);
    }
  }

  lemma WalkGoesOnAlike(g: Graph, s: Edge, es: seq<Edge>, i: int)
    requires Walk(g, s, es) && 0 < i < |es|
    ensures GoesOnAlike(g, s, es, i)
  {
    assert WalkStep(g, s, es, i);
    FirstIsAlike(s, es[i - 1], g.out[es[i - 1].end], es[i]);
  }

  lemma FirstIsSuperseded(s: Edge, here: seq<Edge>, e: Edge)
    requires FirstStart(s, here, e)
    ensures exists p :: SupersededFirst(s, here, e, p)
  {
    var p :| 0 <= p < |here| && here[p] == e && StartsShortcut(s, e) && forall j :: 0 <= j < p ==> !StartsShortcut(s, here[j]);
    assert SupersededFirst(s, here, e, p);
  }

  lemma FirstIsAlike(s: Edge, last: Edge, here: seq<Edge>, e: Edge)
    requires FirstContinuing(s, last, here, e)
    ensures IsAlikeFirst(s, last.from, here, e)
  {
    var p :| 0 <= p < |here| && here[p] == e && Continues(s, last, e) && forall j :: 0 <= j < p ==> !Continues(s, last, here[j]);
    assert AlikeFirst(s, last.from, here, e, p);
  }

  /** There is no other edge to begin with. */
  ghost predicate OnlyStart(s: Edge, here: seq<Edge>, e: Edge) {
    e in here && s.shortcut & e.superseded != 0 && forall f | f in here && f != e :: s.shortcut & f.superseded == 0
  }

  /** There is no other edge to go on with. */
  ghost predicate OnlyNext(s: Edge, before: int, here: seq<Edge>, e: Edge) {
    && e in here && !e.isShortcut && !e.construction && e.signature == s.signature && e.end != before
    && forall f | f in here && f != e :: f.isShortcut || f.construction || f.signature != s.signature || f.end == before
  }

  ghost predicate OnlyWayOn(g: Graph, s: Edge, es: seq<Edge>, i: int)
    requires 0 < i < |es|
  {
    && es[i - 1].end != s.end && es[i - 1].end in g.out && OnlyNext(s, es[i - 1].from, g.out[es[i - 1].end], es[i])
    && Sum(es[..i + 1]) <= s.length + (i + 2) / 2 + 1
  }

  /** The only way from the beginning of the shortcut to its end, within the tolerance at each step. */
  ghost predicate OnlyWay(g: Graph, s: Edge, es: seq<Edge>) {
    && s.isShortcut && s.from in g.out && es != [] && OnlyStart(s, g.out[s.from], es[0]) && es[|es| - 1].end == s.end
    && (forall i :: 0 < i < |es| ==> OnlyWayOn(g, s, es, i))
    && var tolerance := if |es| == 1 then 1 else (|es| + 1) / 2 + 1;
       tolerance <= s.length && s.length - tolerance <= Sum(es)
  }

  /** The only way is recovered. */
  lemma OnlyWayIsRecovered(g: Graph, s: Edge, es: seq<Edge>)
    requires OnlyWay(g, s, es)
    ensures Recovers(g, s, es) && forall ms :: Recovers(g, s, ms) ==> ms == es
  {
    var here := g.out[s.from];
    OnlyIsFirst(here, es[0], seq(|here|, j requires 0 <= j < |here| => StartsShortcut(s, here[j])));
    forall i | 0 < i < |es|
      ensures WalkStep(g, s, es, i)
    {
      assert OnlyWayOn(g, s, es, i);
      var next := g.out[es[i - 1].end];
      OnlyIsFirst(next, es[i], seq(|next|, j requires 0 <= j < |next| => Continues(s, es[i - 1], next[j])));
    }
    forall ms | Recovers(g, s, ms)
      ensures ms == es
    {
      RecoveryContinues(g, s, es, ms);
    }
  }

  /** The first place of an edge that alone is marked is the first marked place. */
  lemma OnlyIsFirst(here: seq<Edge>, e: Edge, marked: seq<bool>)
    requires e in here && |marked| == |here| && forall j :: 0 <= j < |here| ==> (marked[j] <==> here[j] == e)
    ensures exists p :: 0 <= p < |here| && here[p] == e && marked[p] && forall j :: 0 <= j < p ==> !marked[j]
    decreases |here|
  {
    if here[0] == e {
      assert marked[0];
    } else {
      OnlyIsFirst(here[1..], e, marked[1..]);
      var p :| 0 <= p < |here| - 1 && here[1..][p] == e && marked[1..][p] && forall j :: 0 <= j < p ==> !marked[1..][j];
      assert here[p + 1] == e && marked[p + 1];
      assert forall j :: 0 < j < p + 1 ==> marked[j] == marked[1..][j - 1];
    }
  }

  /** The wrap-around does not hurt a shortcut that is as long as its edges, none of length 0. */
  lemma ExactIsRecovered(g: Graph, s: Edge, es: seq<Edge>)
    requires Consistent(g) && NoZeroLengths(g) && s.isShortcut
    requires Walk(g, s, es) && es[|es| - 1].end == s.end && s.length == Sum(es)
    ensures Recovers(g, s, es)
  {
    forall e | e in es
      ensures e.length >= 1
    {
      var i :| 0 <= i < |es| && es[i] == e;
      WalkEdges(g, s, es, i);
    }
    SumAtLeastCount(es);
  }

  // ----- A shortcut one meter shorter than its two edges is within the tolerance, yet not recovered.

  function ShortEdge(from: int, superseded: bv8): Edge {
    Edge(from, from, from + 1, 1, 0, superseded, false, false, 7)
  }

  const SHORT := Graph(map[0 := [ShortEdge(0, 1)], 1 := [ShortEdge(1, 0)]], map[])

  const SHORT_SHORTCUT := Edge(99, 0, 2, 1, 1, 0, true, false, 7)

  lemma ShortIsNotRecovered()
    ensures Consistent(SHORT) && NoZeroLengths(SHORT)
    ensures var es := [ShortEdge(0, 1), ShortEdge(1, 0)];
            && Walk(SHORT, SHORT_SHORTCUT, es) && es[1].end == SHORT_SHORTCUT.end
            && Sum(es) == 2 && Roundoff(2) == 2
    ensures forall ms :: !Recovers(SHORT, SHORT_SHORTCUT, ms)
  {
    var s, e, f := SHORT_SHORTCUT, ShortEdge(0, 1), ShortEdge(1, 0);
    assert SHORT.out[0][0] == e && StartsShortcut(s, e);
    assert SHORT.out[1][0] == f && Continues(s, e, f);
    SumGrows([], e);
    assert [] + [e] == [e];
    SumGrows([e], f);
    assert [e] + [f] == [e, f];
    WalkGrows(SHORT, s, [e], f);
    TooShort(SHORT, s, [e, f]);
  }

  // ----- The bound on lengths is needed: edges of length 0 in a circle are walked for ever.

  function CircleEdge(from: int, to: int): Edge {
    Edge(10 * from + to, from, to, 0, 0, if from == 0 then 1 else 0, false, false, 7)
  }

  const CIRCLE := Graph(map[0 := [CircleEdge(0, 1)], 1 := [CircleEdge(1, 2)], 2 := [CircleEdge(2, 3)], 3 := [CircleEdge(3, 1)]], map[])

  const CIRCLE_SHORTCUT := Edge(99, 0, 9, 100, 1, 0, true, false, 7)

  /** The node after n steps. */
  function CircleNode(n: nat): int {
    if n == 0 then 0 else 1 + (n - 1) % 3
  }

  function CircleWalk(n: nat): (es: seq<Edge>)
    ensures |es| == n && forall i {:trigger es[i]} :: 0 <= i < n ==> es[i] == CircleEdge(CircleNode(i), CircleNode(i + 1))
  {
    if n == 0 then [] else CircleWalk(n - 1) + [CircleEdge(CircleNode(n - 1), CircleNode(n))]
  }

  lemma CircleOut(k: nat)
    ensures CircleNode(k) in CIRCLE.out
    ensures CIRCLE.out[CircleNode(k)] == [CircleEdge(CircleNode(k), CircleNode(k + 1))]
  {
  }

  /** Behind the first edge, the next one of the circle is the one that the search takes. */
  lemma CircleGoesOn(k: nat)
    requires k > 0
    ensures FirstContinuing(CIRCLE_SHORTCUT, CircleEdge(CircleNode(k - 1), CircleNode(k)), CIRCLE.out[CircleNode(k)],
                            CircleEdge(CircleNode(k), CircleNode(k + 1)))
  {
    CircleOut(k);
    var here, e := CIRCLE.out[CircleNode(k)], CircleEdge(CircleNode(k), CircleNode(k + 1));
    assert here[0] == e && Continues(CIRCLE_SHORTCUT, CircleEdge(CircleNode(k - 1), CircleNode(k)), e);
  }

  lemma CircleStarts()
    ensures OnTheCircle([CircleEdge(0, 1)], 1)
  {
    CircleOut(0);
    assert CIRCLE.out[0][0] == CircleEdge(0, 1) && StartsShortcut(CIRCLE_SHORTCUT, CIRCLE.out[0][0]);
    SumGrows([], CircleEdge(0, 1));
    assert [] + [CircleEdge(0, 1)] == [CircleEdge(0, 1)];
  }

  lemma CircleAppends(es: seq<Edge>, k: nat)
    requires k > 0 && OnTheCircle(es, k) && es[k - 1] == CircleEdge(CircleNode(k - 1), CircleNode(k))
    ensures OnTheCircle(es + [CircleEdge(CircleNode(k), CircleNode(k + 1))], k + 1)
  {
    var e := CircleEdge(CircleNode(k), CircleNode(k + 1));
    CircleOut(k);
    CircleGoesOn(k);
    SumGrows(es, e);
    WalkGrows(CIRCLE, CIRCLE_SHORTCUT, es, e);
  }

  /** However many steps the search has made, it is still within its tolerance and not at the end. */
  lemma {:induction false} ZeroLengthsRunOn(n: nat)
    requires n > 0
    ensures OnTheCircle(CircleWalk(n), n)
  {
    if n == 1 {
      assert CircleWalk(1) == [CircleEdge(0, 1)];
      CircleStarts();
    } else {
      ZeroLengthsRunOn(n - 1);
      CircleAppends(CircleWalk(n - 1), n - 1);
    }
  }

  ghost predicate OnTheCircle(es: seq<Edge>, n: nat) {
    && Walk(CIRCLE, CIRCLE_SHORTCUT, es) && |es| == n && Sum(es) == 0
    && es[n - 1].end == CircleNode(n) != CIRCLE_SHORTCUT.end
  }

  lemma CircleIsNotBounded()
    ensures !Bounded(CIRCLE, CIRCLE_SHORTCUT)
  {
    ZeroLengthsRunOn(MAX_WALK + 1);
  }

  // ----- Filling the cache for a list of shortcuts and their opposites.

  /** Opposing edges run between the same nodes the other way, in pairs. */
  ghost predicate Opposites(g: Graph) {
    forall e | EdgeOf(g, e) && e.id in g.opp ::
      var o := g.opp[e.id];
      EdgeOf(g, o) && o.from == e.end && o.end == e.from
  }

  /** Opposing edges are equally long. */
  ghost predicate EqualLengths(g: Graph) {
    forall e | EdgeOf(g, e) && e.id in g.opp :: g.opp[e.id].length == e.length
  }

  /** The opposites of the edges of a path, last edge first; None if one is missing. */
  function Reversed(g: Graph, es: seq<Edge>): Option<seq<Edge>> {
    if es == [] then Some([])
    else
      var last := es[|es| - 1];
      if last.id !in g.opp then None
      else match Reversed(g, es[..|es| - 1])
        case None => None
        case Some(rest) => Some([g.opp[last.id]] + rest)
  }

  /** The reversed path runs back from its end to its start, and is as long if opposing edges are. */
  lemma {:induction false} ReversedIsPath(g: Graph, from: int, es: seq<Edge>, to: int)
    requires Opposites(g) && IsPath(g, from, es, to) && Reversed(g, es).Some?
    ensures IsPath(g, to, Reversed(g, es).value, from)
    ensures EqualLengths(g) ==> Sum(Reversed(g, es).value) == Sum(es)
    decreases |es|
  {
    var front, last := es[..|es| - 1], es[|es| - 1];
    assert last in es;
    var o, rest := g.opp[last.id], Reversed(g, front).value;
    SumPrepend(o, rest);
    if front != [] {
      assert IsPath(g, from, front, last.from) by {
        assert es[|es| - 2] == front[|front| - 1];
      }
      ReversedIsPath(g, from, front, last.from);
      var r := [o] + rest;
      forall i | 0 < i < |r|
        ensures r[i].from == r[i - 1].end
      {
        assert i > 1 ==> rest[i - 1].from == rest[i - 2].end;
      }
    }
  }

  lemma {:induction false} SumPrepend(e: Edge, es: seq<Edge>)
    ensures Sum([e] + es) == e.length + Sum(es)
    decreases |es|
  {
    if es == [] {
      assert [e] + es == [] + [e];
      SumGrows([], e);
    } else {
      assert ([e] + es)[..|es|] == [e] + es[..|es| - 1];
      SumPrepend(e, es[..|es| - 1]);
    }
  }

  /** What may be cached for a shortcut: itself alone, or edges that lead where it leads and are
      about as long. */
  ghost predicate Cacheable(g: Graph, s: Edge, ids: seq<int>) {
    ids == [s.id] ||
    exists es :: IsPath(g, s.from, es, s.end) && ids == Ids(es)
      && Sum(es) >= s.length - Roundoff(|es|) && (|es| >= 2 ==> Sum(es) <= s.length + Roundoff(|es|))
  }

  function Ids(es: seq<Edge>): (ids: seq<int>)
    ensures |ids| == |es| && forall i :: 0 <= i < |es| ==> ids[i] == es[i].id
  {
    if es == [] then [] else Ids(es[..|es| - 1]) + [es[|es| - 1].id]
  }

  /** The outcome of recovering s itself: without its opposing edge, or without a recovery, s alone. */
  ghost predicate Recovered(g: Graph, s: Edge, ids: seq<int>) {
    || (exists es :: Recovers(g, s, es) && ids == Ids(es))
    || (ids == [s.id] && (s.id !in g.opp || forall es :: !Recovers(g, s, es)))
  }

  /** What the recovery of a shortcut gives for its opposite: the opposing edges in reverse order, or
      the opposite alone if there is no recovery or an opposing edge is missing. */
  ghost predicate TurnedRoundOf(g: Graph, o: Edge, ids: seq<int>)
    requires o.id in g.opp
  {
    || (ids == [g.opp[o.id].id] && forall es :: !Recovers(g, o, es))
    || exists es :: Recovers(g, o, es) && ids == if Reversed(g, es).Some? then Ids(Reversed(g, es).value) else [g.opp[o.id].id]
  }

  /** What is cached for a shortcut comes from recovering it, or one that it is the opposite of. */
  ghost predicate CachedFor(g: Graph, s: Edge, ids: seq<int>) {
    || Recovered(g, s, ids)
    || exists o :: EdgeOf(g, o) && o.id in g.opp && g.opp[o.id] == s && TurnedRoundOf(g, o, ids)
  }

  lemma CachedIsCacheable(g: Graph, s: Edge, ids: seq<int>)
    requires Consistent(g) && Opposites(g) && EqualLengths(g) && EdgeOf(g, s) && CachedFor(g, s, ids)
    ensures Cacheable(g, s, ids)
  {
    if Recovered(g, s, ids) {
      if es :| Recovers(g, s, es) && ids == Ids(es) {
        WalkIsPath(g, s, es);
        RecoveredLength(g, s, es);
      }
    } else {
      var o :| EdgeOf(g, o) && o.id in g.opp && g.opp[o.id] == s && TurnedRoundOf(g, o, ids);
      if es :| Recovers(g, o, es) && ids == if Reversed(g, es).Some? then Ids(Reversed(g, es).value) else [g.opp[o.id].id] {
        WalkIsPath(g, o, es);
        TurnedRound(g, o, es);
      }
    }
  }

  ghost predicate AllCached(g: Graph, m: map<int, seq<int>>) {
    forall e | EdgeOf(g, e) && e.id in m :: CachedFor(g, e, m[e.id])
  }

  lemma CachedToo(g: Graph, m: map<int, seq<int>>, s: Edge, ids: seq<int>)
    requires UniqueIds(g) && AllCached(g, m) && EdgeOf(g, s) && CachedFor(g, s, ids)
    ensures AllCached(g, m[s.id := ids])
  {
  }

  /** The edges turned round serve the opposite of the shortcut. */
  lemma TurnedRound(g: Graph, s: Edge, es: seq<Edge>)
    requires Opposites(g) && EqualLengths(g) && EdgeOf(g, s) && s.id in g.opp && Recovers(g, s, es) && IsPath(g, s.from, es, s.end)
    ensures Reversed(g, es).Some? ==> Cacheable(g, g.opp[s.id], Ids(Reversed(g, es).value))
  {
    if Reversed(g, es).Some? {
      RecoveredLength(g, s, es);
      ReversedIsPath(g, s.from, es, s.end);
      ReversedEdges(g, es);
    }
  }

  class ShortcutCache {
    const graph: Graph
    var shortcuts: map<int, seq<int>>

    ghost predicate Valid()
      reads this
    {
      AllCached(graph, shortcuts)
    }

    /** The constructor's loop over all edges of all tiles: each with a shortcut mask is recovered
        once, and its opposite gets the edges turned round. */
    constructor (graph: Graph, all: seq<Edge>)
      requires Consistent(graph) && AllBounded(graph) && Opposites(graph) && UniqueIds(graph)
      requires forall s | s in all :: EdgeOf(graph, s)
      ensures Valid() && this.graph == graph
      ensures forall s | s in all :: s.shortcut != 0 ==> s.id in shortcuts
    {
      this.graph, shortcuts := graph, map[];
      new;
      var i := 0;
      while i < |all|
        invariant 0 <= i <= |all| && Valid()
        invariant forall j :: 0 <= j < i && all[j].shortcut != 0 ==> all[j].id in shortcuts
      {
        var s := all[i];
        assert s in all;
        if s.shortcut != 0 && s.id !in shortcuts {
          RecoverBoth(s);
        }
        i := i + 1;
      }
    }

    method RecoverBoth(s: Edge)
      requires Consistent(graph) && Bounded(graph, s) && Opposites(graph) && UniqueIds(graph)
      requires Valid() && EdgeOf(graph, s) && s.id !in shortcuts
      modifies this
      ensures Valid() && s.id in shortcuts && old(shortcuts).Keys <= shortcuts.Keys
    {
      var begin := if s.id in graph.opp then Some(graph.opp[s.id].end) else None;
      var recovered, _ := RecoverShortcut(graph, s, begin);
      var ids := if recovered.Some? then Ids(recovered.value) else [s.id];
      assert Recovered(graph, s, ids);
      CachedToo(graph, shortcuts, s, ids);
      shortcuts := shortcuts[s.id := ids];
      if s.id !in graph.opp {
        return;
      }
      var opp := graph.opp[s.id];
      ids := [opp.id];
      if recovered.Some? {
        var turned := Reversed(graph, recovered.value);
        if turned.Some? {
          ids := Ids(turned.value);
        }
      }
      assert TurnedRoundOf(graph, s, ids);
      if opp.id !in shortcuts {
        CachedToo(graph, shortcuts, opp, ids);
        shortcuts := shortcuts[opp.id := ids];
      }
    }

    /** get: the cached edges, or a recovery on the fly. */
    method Get(s: Edge) returns (ids: seq<int>)
      requires Consistent(graph) && Opposites(graph) && (s.id in shortcuts || Bounded(graph, s))
      requires Valid() && EdgeOf(graph, s)
      ensures CachedFor(graph, s, ids)
      ensures EqualLengths(graph) ==> Cacheable(graph, s, ids)
    {
      ids := Lookup(s);
      if EqualLengths(graph) {
        CachedIsCacheable(graph, s, ids);
      }
    }

    method Lookup(s: Edge) returns (ids: seq<int>)
      requires Consistent(graph) && Opposites(graph) && (s.id in shortcuts || Bounded(graph, s))
      requires Valid() && EdgeOf(graph, s)
      ensures CachedFor(graph, s, ids)
    {
      if s.id in shortcuts {
        return shortcuts[s.id];
      }
      var begin := if s.id in graph.opp then Some(graph.opp[s.id].end) else None;
      var recovered, _ := RecoverShortcut(graph, s, begin);
      ids := if recovered.Some? then Ids(recovered.value) else [s.id];
      assert Recovered(graph, s, ids);
    }
  }

  ghost predicate UniqueIds(g: Graph) {
    forall e, f | EdgeOf(g, e) && EdgeOf(g, f) :: e.id == f.id ==> e == f
  }

  /** r holds the opposite of each edge, last edge first. */
  ghost predicate AreOpposites(g: Graph, es: seq<Edge>, r: seq<Edge>) {
    |r| == |es| && forall i :: 0 <= i < |es| ==> es[i].id in g.opp && r[|es| - 1 - i] == g.opp[es[i].id]
  }

  lemma {:induction false} ReversedEdges(g: Graph, es: seq<Edge>)
    requires Reversed(g, es).Some?
    ensures AreOpposites(g, es, Reversed(g, es).value)
    decreases |es|
  {
    if es != [] {
      var front := es[..|es| - 1];
      ReversedEdges(g, front);
      var r, rest := Reversed(g, es).value, Reversed(g, front).value;
      assert r[1..] == rest;
      forall i | 0 <= i < |es|
        ensures es[i].id in g.opp && r[|es| - 1 - i] == g.opp[es[i].id]
      {
        if i < |front| {
          assert front[i] == es[i] && rest[|front| - 1 - i] == r[|es| - 1 - i];
        }
      }
    }
  }

  /** It exists exactly if every edge has an opposite. */
  lemma {:induction false} ReversedExists(g: Graph, es: seq<Edge>)
    ensures Reversed(g, es).Some? <==> forall e | e in es :: e.id in g.opp
    decreases |es|
  {
    if es != [] {
      var front, last := es[..|es| - 1], es[|es| - 1];
      ReversedExists(g, front);
      assert forall e :: e in es <==> e in front || e == last;
    }
  }
}
