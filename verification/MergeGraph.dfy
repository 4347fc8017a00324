/** The directed graph that the edge merger walks, and the three questions it asks of it. */
module MergeGraph {
  import opened Option

  /** mergeable and allowed are the answers of the two caller-supplied predicates. */
  datatype Edge = Edge(id: int, end: int, mergeable: bool, allowed: bool)

  /** The edges leaving each node whose tile is present. */
  type Graph = map<int, seq<Edge>>

  ghost predicate Leaves(g: Graph, n: int, e: Edge) {
    n in g && e in g[n]
  }

  /** An edge id names one edge of one node. */
  ghost predicate IdsUnique(g: Graph) {
    && (forall n, e, m, f :: Leaves(g, n, e) && Leaves(g, m, f) && e.id == f.id ==> n == m && e == f)
    && (forall n, i, j :: n in g && 0 <= i < j < |g[n]| ==> g[n][i] != g[n][j])
  }

  // ----- nodes_reachable_from

  /** The ends of the first k edges that are allowed. */
  ghost function AllowedEnds(es: seq<Edge>, k: nat): seq<int>
    requires k <= |es|
  {
    if k == 0 then [] else AllowedEnds(es, k - 1) + (if es[k - 1].allowed then [es[k - 1].end] else [])
  }

  ghost predicate AllMergeable(es: seq<Edge>, k: nat) {
    forall j :: 0 <= j < k && j < |es| ==> es[j].mergeable
  }

  /** A node at which merging is possible: no edge forbids it, and the ends are two nodes. */
  ghost function Sides(mergeable: bool, ends: seq<int>): Option<(int, int)> {
    if mergeable && |ends| == 2 && ends[0] != ends[1] then Some((ends[0], ends[1])) else None
  }

  /** A collapsible node: no edge forbids merging, and its allowed edges are two, to two nodes. */
  ghost function Neighbours(g: Graph, n: int): Option<(int, int)> {
    if n in g then Sides(AllMergeable(g[n], |g[n]|), AllowedEnds(g[n], |g[n]|)) else None
  }

  ghost predicate Collapsible(g: Graph, n: int) {
    Neighbours(g, n).Some?
  }

  /** a and b are the two neighbours of a collapsible node c, in either order. */
  ghost predicate Joins(g: Graph, a: int, c: int, b: int) {
    Neighbours(g, c) == Some((a, b)) || Neighbours(g, c) == Some((b, a))
  }

  lemma {:induction false} AllowedEndsPrefix(es: seq<Edge>, k: nat, m: nat)
    requires k <= m <= |es|
    ensures AllowedEnds(es, k) <= AllowedEnds(es, m)
  {
    if k < m {
      AllowedEndsPrefix(es, k, m - 1);
    }
  }

  lemma {:induction false} AllowedEndsAt(es: seq<Edge>, k: nat, a: int)
    requires k <= |es|
    ensures a in AllowedEnds(es, k) <==> exists j :: 0 <= j < k && es[j].allowed && es[j].end == a
  {
    if k > 0 {
      AllowedEndsAt(es, k - 1, a);
    }
  }

  lemma AllowedEndsMember(es: seq<Edge>, a: int)
    ensures a in AllowedEnds(es, |es|) <==> exists e :: e in es && e.allowed && e.end == a
  {
    AllowedEndsAt(es, |es|, a);
  }

  // ----- What that means for the edges of the node.

  /** Of the first k edges, exactly the i-th is allowed. */
  ghost predicate OnlyAllowed(es: seq<Edge>, k: nat, i: nat) {
    i < k <= |es| && forall j :: 0 <= j < k ==> (es[j].allowed <==> j == i)
  }

  ghost predicate TwoAllowed(es: seq<Edge>, k: nat, i: nat, j: nat) {
    i < j < k <= |es| && forall m :: 0 <= m < k ==> (es[m].allowed <==> m == i || m == j)
  }

  lemma {:induction false} NoneAllowed(es: seq<Edge>, k: nat)
    requires k <= |es|
    ensures AllowedEnds(es, k) == [] <==> forall j :: 0 <= j < k ==> !es[j].allowed
  {
    if k > 0 {
      NoneAllowed(es, k - 1);
    }
  }

  lemma {:induction false} OnlyGivesEnd(es: seq<Edge>, k: nat, i: nat)
    requires OnlyAllowed(es, k, i)
    ensures AllowedEnds(es, k) == [es[i].end]
  {
    if i < k - 1 {
      OnlyGivesEnd(es, k - 1, i);
    } else {
      NoneAllowed(es, k - 1);
    }
  }

  lemma {:induction false} TwoGiveEnds(es: seq<Edge>, k: nat, i: nat, j: nat)
    requires TwoAllowed(es, k, i, j)
    ensures AllowedEnds(es, k) == [es[i].end, es[j].end]
  {
    if j < k - 1 {
      TwoGiveEnds(es, k - 1, i, j);
    } else {
      OnlyGivesEnd(es, k - 1, i);
    }
  }

  lemma {:induction false} OneEnd(es: seq<Edge>, k: nat) returns (i: nat)
    requires k <= |es| && |AllowedEnds(es, k)| == 1
    ensures OnlyAllowed(es, k, i)
  {
    if es[k - 1].allowed {
      i := k - 1;
      NoneAllowed(es, k - 1);
    } else {
      i := OneEnd(es, k - 1);
    }
  }

  lemma {:induction false} TwoEnds(es: seq<Edge>, k: nat) returns (i: nat, j: nat)
    requires k <= |es| && |AllowedEnds(es, k)| == 2
    ensures TwoAllowed(es, k, i, j)
  {
    if es[k - 1].allowed {
      i := OneEnd(es, k - 1);
      j := k - 1;
    } else {
      i, j := TwoEnds(es, k - 1);
    }
  }

  /** No edge of n, allowed or not, forbids merging, and exactly two are allowed: one to a and a later
      one to b, which are two nodes. */
  ghost predicate PassableBetween(g: Graph, n: int, a: int, b: int) {
    && n in g && (forall e | e in g[n] :: e.mergeable) && a != b
    && exists i: nat, j: nat :: TwoAllowed(g[n], |g[n]|, i, j) && g[n][i].end == a && g[n][j].end == b
  }

  lemma NeighboursAre(g: Graph, n: int, a: int, b: int)
    ensures Neighbours(g, n) == Some((a, b)) <==> PassableBetween(g, n, a, b)
  {
    if n in g {
      var es := g[n];
      assert AllMergeable(es, |es|) <==> forall e | e in es :: e.mergeable;
      if |AllowedEnds(es, |es|)| == 2 {
        var i, j := TwoEnds(es, |es|);
        TwoGiveEnds(es, |es|, i, j);
      }
      forall i: nat, j: nat | TwoAllowed(es, |es|, i, j)
        ensures AllowedEnds(es, |es|) == [es[i].end, es[j].end]
      {
        TwoGiveEnds(es, |es|, i, j);
      }
    }
  }

  /** What the first edges exclude stays excluded. */
  lemma Excluded(g: Graph, n: int, k: nat)
    requires n in g && k <= |g[n]|
    requires var ends := AllowedEnds(g[n], k);
             !AllMergeable(g[n], k) || |ends| > 2 || (|ends| == 2 && ends[0] == ends[1])
    ensures Neighbours(g, n).None?
  {
    AllowedEndsPrefix(g[n], k, |g[n]|);
  }

  /** The allowed ends found so far, which are different. */
  ghost function Found(first: Option<int>, second: Option<int>): seq<int> {
    match (first, second)
    case (None, _) => []
    case (Some(a), None) => [a]
    case (Some(a), Some(b)) => [a, b]
  }

  method NodesReachableFrom(g: Graph, n: int) returns (r: Option<(int, int)>)
    ensures r == Neighbours(g, n)
    ensures forall a, b :: r == Some((a, b)) <==> PassableBetween(g, n, a, b)
  {
    forall a, b
      ensures Neighbours(g, n) == Some((a, b)) <==> PassableBetween(g, n, a, b)
    {
      NeighboursAre(g, n, a, b);
    }
    r := FindSides(g, n);
  }

  method FindSides(g: Graph, n: int) returns (r: Option<(int, int)>)
    ensures r == Neighbours(g, n)
  {
    if n !in g {
      return None;
    }
    var es := g[n];
    var first, second: Option<int> := None, None;
    var i := 0;
    while i < |es|
      invariant 0 <= i <= |es| && AllMergeable(es, i) && AllowedEnds(es, i) == Found(first, second)
      invariant first.None? ==> second.None?
      invariant second.Some? ==> first.value != second.value
    {
      var e := es[i];
      i := i + 1;
      if !e.mergeable {
        Excluded(g, n, i);
        return None;
      }
      if !e.allowed {
        continue;
      }
      if Some(e.end) == first || Some(e.end) == second {
        Excluded(g, n, i);
        return None;
      }
      if first.Some? {
        if second.Some? {
          Excluded(g, n, i);
          return None;
        } else {
          second := Some(e.end);
        }
      } else {
        first := Some(e.end);
      }
    }
    if first.Some? && second.Some? {
      return Some((first.value, second.value));
    }
    return None;
  }

  // ----- edge_between

  ghost function FirstAllowed(es: seq<Edge>, end: int): Option<Edge> {
    if es == [] then None
    else if es[0].end == end && es[0].allowed then Some(es[0])
    else FirstAllowed(es[1..], end)
  }

  /** e is the first allowed one to the node. */
  ghost predicate IsFirstAllowed(es: seq<Edge>, end: int, e: Edge) {
    exists i :: 0 <= i < |es| && es[i] == e && e.end == end && e.allowed && forall j :: 0 <= j < i ==> !(es[j].end == end && es[j].allowed)
  }

  lemma {:induction false} FirstAllowedIsFirst(es: seq<Edge>, end: int)
    ensures FirstAllowed(es, end).Some? ==> IsFirstAllowed(es, end, FirstAllowed(es, end).value)
  {
    if es != [] && FirstAllowed(es, end).Some? {
      var e := FirstAllowed(es, end).value;
      if es[0].end == end && es[0].allowed {
        assert es[0] == e;
      } else {
        FirstAllowedIsFirst(es[1..], end);
        var i :| 0 <= i < |es| - 1 && es[1..][i] == e && forall j :: 0 <= j < i ==> !(es[1..][j].end == end && es[1..][j].allowed);
        assert es[i + 1] == e;
        assert forall j :: 0 < j < i + 1 ==> es[j] == es[1..][j - 1];
      }
    }
  }

  ghost function EdgeBetween(g: Graph, c: int, a: int): Option<Edge> {
    if c in g then FirstAllowed(g[c], a) else None
  }

  lemma {:induction false} FirstAllowedIs(es: seq<Edge>, end: int)
    ensures FirstAllowed(es, end).Some? <==> exists e :: e in es && e.allowed && e.end == end
    ensures FirstAllowed(es, end).Some? ==>
              var e := FirstAllowed(es, end).value; e in es && e.allowed && e.end == end
  {
    if es != [] && !(es[0].end == end && es[0].allowed) {
      FirstAllowedIs(es[1..], end);
      assert es == [es[0]] + es[1..];
    }
  }

  method FindEdgeBetween(g: Graph, c: int, a: int) returns (r: Option<int>)
    ensures r == match EdgeBetween(g, c, a) case None => None case Some(e) => Some(e.id)
    ensures r.Some? ==> c in g && exists e :: IsFirstAllowed(g[c], a, e) && r.value == e.id
    ensures r.None? ==> forall e :: Leaves(g, c, e) && e.allowed ==> e.end != a
  {
    EdgeBetweenIs(g, c, a);
    if c in g {
      FirstAllowedIsFirst(g[c], a);
    }
    r := FindAllowed(g, c, a);
  }

  method FindAllowed(g: Graph, c: int, a: int) returns (r: Option<int>)
    ensures r == match EdgeBetween(g, c, a) case None => None case Some(e) => Some(e.id)
  {
    if c !in g {
      return None;
    }
    var es := g[c];
    var i := 0;
    while i < |es|
      invariant 0 <= i <= |es|
      invariant FirstAllowed(es, a) == FirstAllowed(es[i..], a)
    {
      if es[i].end == a && es[i].allowed {
        return Some(es[i].id);
      }
      i := i + 1;
    }
    return None;
  }

  lemma EdgeBetweenIs(g: Graph, c: int, a: int)
    ensures EdgeBetween(g, c, a).Some? <==> exists e :: Leaves(g, c, e) && e.allowed && e.end == a
    ensures EdgeBetween(g, c, a).Some? ==>
              var e := EdgeBetween(g, c, a).value; Leaves(g, c, e) && e.allowed && e.end == a
  {
    if c in g {
      FirstAllowedIs(g[c], a);
      assert forall e :: e in g[c] <==> Leaves(g, c, e);
    }
  }

  /** A collapsible node has an allowed edge to its two neighbours and to no other node. */
  lemma NeighbourEdges(g: Graph, c: int, a: int)
    requires Collapsible(g, c)
    ensures EdgeBetween(g, c, a).Some? <==> a == Neighbours(g, c).value.0 || a == Neighbours(g, c).value.1
  {
    EdgeBetweenIs(g, c, a);
    AllowedEndsMember(g[c], a);
    assert forall e :: e in g[c] <==> Leaves(g, c, e);
  }

  /** next_node_id, with its assertion as the requires: the node behind c when coming from p. */
  method NextNode(g: Graph, p: int, c: int) returns (next: Option<int>)
    requires Collapsible(g, c) ==> Neighbours(g, c).value.0 == p || Neighbours(g, c).value.1 == p
    ensures next.None? <==> !Collapsible(g, c)
    ensures next.Some? ==> Joins(g, p, c, next.value)
  {
    var nodes := NodesReachableFrom(g, c);
    if nodes.None? {
      return None;
    }
    if nodes.value.0 == p {
      return Some(nodes.value.1);
    } else {
      return Some(nodes.value.0);
    }
  }
}
