/** Walks through collapsible nodes: why they end, and why they meet no edge twice. */
module MergeChain {
  import opened Option
  import opened MergeGraph

  /** An allowed edge each way. */
  ghost predicate Linked(g: Graph, a: int, b: int) {
    EdgeBetween(g, a, b).Some? && EdgeBetween(g, b, a).Some?
  }

  /** Every allowed edge has an allowed opposing edge. */
  ghost predicate Mutual(g: Graph) {
    forall n, e :: Leaves(g, n, e) && e.allowed ==> EdgeBetween(g, e.end, n).Some?
  }

  /** No collapsible node has an allowed edge to itself. */
  ghost predicate NoLoops(g: Graph) {
    forall c :: Collapsible(g, c) ==> EdgeBetween(g, c, c).None?
  }

  lemma MutualLinks(g: Graph, a: int, b: int)
    requires Mutual(g) && EdgeBetween(g, a, b).Some?
    ensures Linked(g, a, b)
  {
    EdgeBetweenIs(g, a, b);
  }

  /** The inner node j joins the nodes before and behind it. */
  ghost predicate StepAt(g: Graph, ns: seq<int>, j: int)
    requires 0 < j < |ns| - 1
  {
    Joins(g, ns[j - 1], ns[j], ns[j + 1])
  }

  ghost predicate LinkAt(g: Graph, ns: seq<int>, j: int)
    requires 0 <= j < |ns| - 1
  {
    Linked(g, ns[j], ns[j + 1])
  }

  /** Each inner node is collapsible and joins the nodes before and behind it. */
  ghost predicate Steps(g: Graph, ns: seq<int>) {
    forall j :: 0 < j < |ns| - 1 ==> StepAt(g, ns, j)
  }

  ghost predicate IsChain(g: Graph, ns: seq<int>) {
    && ns != [] && Steps(g, ns)
    && forall j :: 0 <= j < |ns| - 1 ==> LinkAt(g, ns, j)
  }

  ghost predicate ForthAt(g: Graph, ns: seq<int>, j: int)
    requires 0 <= j < |ns| - 1
  {
    EdgeBetween(g, ns[j], ns[j + 1]).Some?
  }

  ghost predicate BackAt(g: Graph, ns: seq<int>, j: int)
    requires 0 <= j < |ns| - 1
  {
    EdgeBetween(g, ns[j + 1], ns[j]).Some?
  }

  /** A chain both ways but for its ends: the first edge forth and the last edge back may be missing. */
  ghost predicate IsRun(g: Graph, ns: seq<int>) {
    && |ns| >= 2 && Steps(g, ns)
    && (forall j :: 0 < j < |ns| - 1 ==> ForthAt(g, ns, j))
    && (forall j :: 0 <= j < |ns| - 2 ==> BackAt(g, ns, j))
  }

  lemma ChainIsRun(g: Graph, ns: seq<int>)
    requires IsChain(g, ns) && |ns| >= 2
    ensures IsRun(g, ns) && ForthAt(g, ns, 0) && BackAt(g, ns, |ns| - 2)
  {
    forall j | 0 <= j < |ns| - 1
      ensures ForthAt(g, ns, j) && BackAt(g, ns, j)
    {
      assert LinkAt(g, ns, j);
    }
  }

  /** Going on from the last node is not possible: it is a junction, or has no edge back. */
  ghost predicate Ended(g: Graph, ns: seq<int>)
    requires |ns| >= 2
  {
    !Collapsible(g, ns[|ns| - 1]) || !BackAt(g, ns, |ns| - 2)
  }

  /** The same before the first node. */
  ghost predicate Begun(g: Graph, ns: seq<int>)
    requires |ns| >= 2
  {
    !Collapsible(g, ns[0]) || !ForthAt(g, ns, 0)
  }

  /** The walk comes back to its start at most with its last step. */
  ghost predicate OpenOrClosed(ns: seq<int>) {
    forall m :: 2 <= m < |ns| - 1 ==> ns[m] != ns[0]
  }

  /** A walk that does not go through its first step again. */
  ghost predicate Fresh(g: Graph, ns: seq<int>) {
    OpenOrClosed(ns) || (IsRun(g, ns) && Begun(g, ns))
  }

  // ----- Stepping is deterministic in both directions.

  lemma JoinsOther(g: Graph, a: int, c: int, b: int, b': int)
    requires Joins(g, a, c, b) && Joins(g, a, c, b')
    ensures b == b' && a != b
  {
  }

  ghost predicate SameState(ns: seq<int>, i: nat, j: nat)
    requires i + 1 < |ns| && j + 1 < |ns|
  {
    ns[i] == ns[j] && ns[i + 1] == ns[j + 1]
  }

  /** A walk that has not come back to its start is in a new state at every step. */
  lemma {:induction false} DistinctStates(g: Graph, ns: seq<int>, i: nat, j: nat)
    requires Steps(g, ns) && Fresh(g, ns) && i < j < |ns| - 1
    ensures !SameState(ns, i, j)
    decreases i
  {
    assert StepAt(g, ns, 1) && StepAt(g, ns, j) && (IsRun(g, ns) ==> ForthAt(g, ns, j));
    if SameState(ns, i, j) && i > 0 {
      assert StepAt(g, ns, i);
      DistinctStates(g, ns, i - 1, j - 1);
    }
  }

  lemma InnerCollapsible(g: Graph, ns: seq<int>, i: nat)
    requires Steps(g, ns) && 0 < i < |ns| - 1
    ensures Collapsible(g, ns[i])
  {
    assert StepAt(g, ns, i);
  }

  lemma NoSelfStep(g: Graph, ns: seq<int>, i: nat)
    requires IsRun(g, ns) && NoLoops(g) && |ns| >= 3 && i < |ns| - 1
    ensures ns[i] != ns[i + 1]
  {
    if i == 0 {
      assert BackAt(g, ns, 0);
      InnerCollapsible(g, ns, 1);
    } else {
      assert ForthAt(g, ns, i);
      InnerCollapsible(g, ns, i);
    }
  }

  /** Without loops a walk never takes a step back: two steps that reversed each other would
      close in on a node that turns round or on an edge from a node to itself. */
  lemma {:induction false} NoReversal(g: Graph, ns: seq<int>, i: nat, j: nat)
    requires IsRun(g, ns) && NoLoops(g) && |ns| >= 3 && i <= j < |ns| - 1
    ensures !(ns[i] == ns[j + 1] && ns[i + 1] == ns[j])
    decreases j - i
  {
    if ns[i] == ns[j + 1] && ns[i + 1] == ns[j] {
      if i == j {
        NoSelfStep(g, ns, i);
      } else {
        assert StepAt(g, ns, i + 1);
        if j == i + 1 {
          JoinsOther(g, ns[i], ns[i + 1], ns[i + 2], ns[i + 2]);
          assert false;
        } else {
          assert StepAt(g, ns, j);
          NoReversal(g, ns, i + 1, j - 1);
        }
      }
    }
  }

  /** Without loops a walk goes through no node twice. */
  lemma InnerOnce(g: Graph, ns: seq<int>, i: nat, j: nat)
    requires IsRun(g, ns) && NoLoops(g) && Fresh(g, ns) && 0 < i < j < |ns| - 1
    ensures ns[i] != ns[j]
  {
    if ns[i] == ns[j] {
      assert StepAt(g, ns, i) && StepAt(g, ns, j);
      if ns[j + 1] == ns[i + 1] {
        DistinctStates(g, ns, i, j);
      } else {
        NoReversal(g, ns, i - 1, j);
      }
    }
  }

  lemma {:induction false} SameFromThere(g: Graph, ns: seq<int>, k: nat, i: nat)
    requires Steps(g, ns) && k + 1 < |ns| && SameState(ns, 0, k) && k + i < |ns|
    ensures ns[i] == ns[k + i]
    decreases i
  {
    if i > 1 {
      SameFromThere(g, ns, k, i - 1);
      SameFromThere(g, ns, k, i - 2);
      assert StepAt(g, ns, i - 1);
      assert StepAt(g, ns, k + i - 1);
    }
  }

  /** Without loops, a walk that cannot go on from its end has not gone through its start. */
  lemma StartIsNotPassed(g: Graph, ns: seq<int>, k: nat)
    requires IsRun(g, ns) && NoLoops(g) && 0 < k < |ns| - 1 && ForthAt(g, ns, 0) && Ended(g, ns)
    ensures ns[0] != ns[k]
  {
    if ns[0] == ns[k] {
      assert StepAt(g, ns, k);
      NeighbourEdges(g, ns[0], ns[1]);
      if ns[1] == ns[k + 1] {
        var i := |ns| - 1 - k;
        assert BackAt(g, ns, i - 1);
        SameFromThere(g, ns, k, i);
        InnerCollapsible(g, ns, i);
        SameFromThere(g, ns, k, i - 1);
      } else {
        assert ns[1] == ns[k - 1];
        NoReversal(g, ns, 0, k - 1);
      }
    }
  }

  // ----- The edges along a chain.

  ghost function IdBetween(g: Graph, a: int, b: int): int {
    match EdgeBetween(g, a, b) case None => -1 case Some(e) => e.id
  }

  ghost function Along(g: Graph, ns: seq<int>): (es: seq<int>)
    requires ns != []
    ensures |es| == |ns| - 1
    ensures forall j {:trigger es[j]} :: 0 <= j < |es| ==> es[j] == IdBetween(g, ns[j], ns[j + 1])
  {
    seq(|ns| - 1, j requires 0 <= j < |ns| - 1 => IdBetween(g, ns[j], ns[j + 1]))
  }

  ghost function Reverse(ns: seq<int>): (r: seq<int>)
    ensures |r| == |ns| && forall j {:trigger r[j]} :: 0 <= j < |ns| ==> r[j] == ns[|ns| - 1 - j]
  {
    seq(|ns|, j requires 0 <= j < |ns| => ns[|ns| - 1 - j])
  }

  ghost function Back(g: Graph, ns: seq<int>): (es: seq<int>)
    requires ns != []
    ensures |es| == |ns| - 1
    ensures forall j {:trigger es[j]} :: 0 <= j < |es| ==> es[j] == IdBetween(g, ns[|ns| - 1 - j], ns[|ns| - 2 - j])
  {
    seq(|ns| - 1, j requires 0 <= j < |ns| - 1 => IdBetween(g, ns[|ns| - 1 - j], ns[|ns| - 2 - j]))
  }

  lemma StepsGrow(g: Graph, ns: seq<int>, x: int)
    requires ns != [] && Steps(g, ns)
    requires |ns| >= 2 ==> Joins(g, ns[|ns| - 2], ns[|ns| - 1], x)
    ensures Steps(g, ns + [x])
  {
    var ms := ns + [x];
    forall j | 0 < j < |ms| - 1
      ensures StepAt(g, ms, j)
    {
      if j < |ns| - 1 {
        assert StepAt(g, ns, j);
      }
    }
  }

  lemma ChainGrows(g: Graph, ns: seq<int>, x: int)
    requires IsChain(g, ns) && Steps(g, ns + [x]) && Linked(g, ns[|ns| - 1], x)
    ensures IsChain(g, ns + [x])
  {
    var ms := ns + [x];
    forall j | 0 <= j < |ms| - 1
      ensures LinkAt(g, ms, j)
    {
      if j < |ns| - 1 {
        assert LinkAt(g, ns, j);
      }
    }
  }

  lemma EdgesGrow(g: Graph, ns: seq<int>, x: int)
    requires ns != []
    ensures Along(g, ns + [x]) == Along(g, ns) + [IdBetween(g, ns[|ns| - 1], x)]
    ensures Back(g, ns + [x]) == [IdBetween(g, x, ns[|ns| - 1])] + Back(g, ns)
  {
    var ms, n := ns + [x], |ns| - 1;
    assert forall j :: 0 <= j < n ==> Along(g, ms)[j] == Along(g, ns)[j];
    forall j | 1 <= j < n + 1
      ensures Back(g, ms)[j] == Back(g, ns)[j - 1]
    {
      assert ms[n + 1 - j] == ns[n - (j - 1)] && ms[n - j] == ns[n - 1 - (j - 1)];
    }
  }

  ghost function Join(a: seq<int>, b: seq<int>): seq<int>
    requires a != []
  {
    Reverse(b) + a[1..]
  }

  lemma JoinAt(a: seq<int>, b: seq<int>, j: nat)
    requires a != [] && b != [] && a[0] == b[0] && j < |a| + |b| - 1
    ensures |Join(a, b)| == |a| + |b| - 1
    ensures j < |b| ==> Join(a, b)[j] == b[|b| - 1 - j]
    ensures j >= |b| - 1 ==> Join(a, b)[j] == a[j - (|b| - 1)]
  {
  }

  /** Two walks from one collapsible node, to its two sides, make one run. */
  lemma TwoSides(g: Graph, a: seq<int>, b: seq<int>)
    requires IsRun(g, a) && IsRun(g, b) && a[0] == b[0] && Joins(g, b[1], a[0], a[1])
    requires ForthAt(g, a, 0) && ForthAt(g, b, 0)
    ensures IsRun(g, Join(a, b))
  {
    var ms, k := Join(a, b), |b| - 1;
    forall j | 0 < j < |ms| - 1
      ensures StepAt(g, ms, j)
    {
      JoinAt(a, b, j - 1);
      JoinAt(a, b, j);
      JoinAt(a, b, j + 1);
      if j < k {
        assert StepAt(g, b, k - j);
      } else if j > k {
        assert StepAt(g, a, j - k);
      }
    }
    forall j | 0 <= j < |ms| - 1
      ensures j > 0 ==> ForthAt(g, ms, j)
      ensures j < |ms| - 2 ==> BackAt(g, ms, j)
    {
      JoinAt(a, b, j);
      JoinAt(a, b, j + 1);
      if j < k {
        assert j > 0 ==> BackAt(g, b, k - j - 1);
        assert ForthAt(g, b, k - j - 1);
      } else {
        assert ForthAt(g, a, j - k);
        assert j < |ms| - 2 ==> BackAt(g, a, j - k);
      }
    }
  }

  lemma TwoSidesEdges(g: Graph, a: seq<int>, b: seq<int>)
    requires a != [] && b != [] && a[0] == b[0]
    ensures Join(a, b) != []
    ensures Along(g, Join(a, b)) == Back(g, b) + Along(g, a)
    ensures Back(g, Join(a, b)) == Back(g, a) + Along(g, b)
  {
    var ms, k := Join(a, b), |b| - 1;
    forall j | 0 <= j < |ms| - 1
      ensures Along(g, ms)[j] == (Back(g, b) + Along(g, a))[j]
    {
      JoinAt(a, b, j);
      JoinAt(a, b, j + 1);
    }
    TwoSidesBack(g, a, b);
  }

  lemma TwoSidesBack(g: Graph, a: seq<int>, b: seq<int>)
    requires a != [] && b != [] && a[0] == b[0] && Join(a, b) != []
    ensures Back(g, Join(a, b)) == Back(g, a) + Along(g, b)
  {
    var ms := Join(a, b);
    forall j | 0 <= j < |ms| - 1
      ensures Back(g, ms)[j] == (Back(g, a) + Along(g, b))[j]
    {
      JoinAt(a, b, |ms| - 1 - j);
      JoinAt(a, b, |ms| - 2 - j);
    }
  }

  // ----- Edge ids tell states apart.

  ghost predicate NoDuplicates(s: seq<int>) {
    forall i, j :: 0 <= i < j < |s| ==> s[i] != s[j]
  }

  lemma SameIdSameEnds(g: Graph, a: int, b: int, c: int, d: int)
    requires IdsUnique(g) && EdgeBetween(g, a, b).Some? && EdgeBetween(g, c, d).Some?
    requires IdBetween(g, a, b) == IdBetween(g, c, d)
    ensures a == c && b == d
  {
    EdgeBetweenIs(g, a, b);
    EdgeBetweenIs(g, c, d);
  }

  /** The nodes of the path forth and of the path back. */
  ghost function Forth(g: Graph, ns: seq<int>): (ms: seq<int>)
    requires ns != []
    ensures ms != []
  {
    if |ns| >= 2 && !ForthAt(g, ns, 0) then ns[1..] else ns
  }

  ghost function Return(g: Graph, ns: seq<int>): (ms: seq<int>)
    requires ns != []
    ensures ms != []
  {
    if |ns| >= 2 && !BackAt(g, ns, |ns| - 2) then ns[..|ns| - 1] else ns
  }

  /** x is the edge forth at place j. */
  ghost predicate IsForth(g: Graph, ns: seq<int>, j: int, x: int) {
    0 <= j < |ns| - 1 && ForthAt(g, ns, j) && x == IdBetween(g, ns[j], ns[j + 1])
  }

  ghost predicate IsBack(g: Graph, ns: seq<int>, j: int, x: int) {
    0 <= j < |ns| - 1 && BackAt(g, ns, j) && x == IdBetween(g, ns[j + 1], ns[j])
  }

  lemma ForthEdge(g: Graph, ns: seq<int>, i: nat)
    requires IsRun(g, ns) && i < |Along(g, Forth(g, ns))|
    ensures IsForth(g, ns, i + |ns| - |Forth(g, ns)|, Along(g, Forth(g, ns))[i])
  {
    var j := i + |ns| - |Forth(g, ns)|;
    assert j > 0 ==> ForthAt(g, ns, j);
  }

  lemma ReturnEdge(g: Graph, ns: seq<int>, i: nat)
    requires IsRun(g, ns) && i < |Back(g, Return(g, ns))|
    ensures IsBack(g, ns, |Return(g, ns)| - 2 - i, Back(g, Return(g, ns))[i])
  {
    var j := |Return(g, ns)| - 2 - i;
    assert j < |ns| - 2 ==> BackAt(g, ns, j);
  }

  lemma ForthMember(g: Graph, ns: seq<int>, j: nat, x: int)
    requires ns != [] && IsForth(g, ns, j, x)
    ensures x in Along(g, Forth(g, ns))
  {
    var i := j - (|ns| - |Forth(g, ns)|);
    assert Along(g, Forth(g, ns))[i] == x;
  }

  lemma ReturnMember(g: Graph, ns: seq<int>, j: nat, x: int)
    requires ns != [] && IsBack(g, ns, j, x)
    ensures x in Back(g, Return(g, ns))
  {
    var ms := Return(g, ns);
    var i := |ms| - 2 - j;
    assert ms[j] == ns[j] && ms[j + 1] == ns[j + 1];
    assert Back(g, ms)[i] == IdBetween(g, ms[|ms| - 1 - i], ms[|ms| - 2 - i]);
  }

  lemma ForthDiffer(g: Graph, ns: seq<int>, i: nat, j: nat, x: int, y: int)
    requires IdsUnique(g) && IsRun(g, ns) && Fresh(g, ns) && i < j && IsForth(g, ns, i, x) && IsForth(g, ns, j, y)
    ensures x != y
  {
    DistinctStates(g, ns, i, j);
    if x == y {
      SameIdSameEnds(g, ns[i], ns[i + 1], ns[j], ns[j + 1]);
    }
  }

  lemma BackDiffer(g: Graph, ns: seq<int>, i: nat, j: nat, x: int, y: int)
    requires IdsUnique(g) && IsRun(g, ns) && Fresh(g, ns) && i < j && IsBack(g, ns, i, x) && IsBack(g, ns, j, y)
    ensures x != y
  {
    DistinctStates(g, ns, i, j);
    if x == y {
      SameIdSameEnds(g, ns[i + 1], ns[i], ns[j + 1], ns[j]);
    }
  }

  lemma ForthAndBackDiffer(g: Graph, ns: seq<int>, i: nat, j: nat, x: int, y: int)
    requires IdsUnique(g) && NoLoops(g) && IsRun(g, ns) && |ns| >= 3 && IsForth(g, ns, i, x) && IsBack(g, ns, j, y)
    ensures x != y
  {
    if x == y {
      SameIdSameEnds(g, ns[i], ns[i + 1], ns[j + 1], ns[j]);
      if i <= j {
        NoReversal(g, ns, i, j);
      } else {
        NoReversal(g, ns, j, i);
      }
    }
  }

  lemma Appended(s: seq<int>, added: seq<int>)
    requires NoDuplicates(s) && NoDuplicates(added)
    requires forall i, j :: 0 <= i < |s| && 0 <= j < |added| ==> s[i] != added[j]
    ensures NoDuplicates(s + added)
  {
  }

  lemma ForthEdgesDiffer(g: Graph, ns: seq<int>)
    requires IdsUnique(g) && IsRun(g, ns) && Fresh(g, ns)
    ensures NoDuplicates(Along(g, Forth(g, ns)))
  {
    var f, d := Along(g, Forth(g, ns)), |ns| - |Forth(g, ns)|;
    forall i, j | 0 <= i < j < |f|
      ensures f[i] != f[j]
    {
      ForthEdge(g, ns, i);
      ForthEdge(g, ns, j);
      ForthDiffer(g, ns, i + d, j + d, f[i], f[j]);
    }
  }

  lemma ReturnEdgesDiffer(g: Graph, ns: seq<int>)
    requires IdsUnique(g) && IsRun(g, ns) && Fresh(g, ns)
    ensures NoDuplicates(Back(g, Return(g, ns)))
  {
    var r, l := Back(g, Return(g, ns)), |Return(g, ns)| - 2;
    forall i, j | 0 <= i < j < |r|
      ensures r[i] != r[j]
    {
      ReturnEdge(g, ns, i);
      ReturnEdge(g, ns, j);
      BackDiffer(g, ns, l - j, l - i, r[j], r[i]);
    }
  }

  /** The edges forth and the edges back are all different. */
  lemma ChainEdgesDiffer(g: Graph, ns: seq<int>)
    requires IdsUnique(g) && NoLoops(g) && IsRun(g, ns) && Fresh(g, ns) && |ns| >= 3
    ensures NoDuplicates(Along(g, Forth(g, ns)) + Back(g, Return(g, ns)))
  {
    var f, r := Along(g, Forth(g, ns)), Back(g, Return(g, ns));
    var d, l := |ns| - |Forth(g, ns)|, |Return(g, ns)| - 2;
    ForthEdgesDiffer(g, ns);
    ReturnEdgesDiffer(g, ns);
    forall i, j | 0 <= i < |f| && 0 <= j < |r|
      ensures f[i] != r[j]
    {
      ForthEdge(g, ns, i);
      ReturnEdge(g, ns, j);
      ForthAndBackDiffer(g, ns, i + d, l - j, f[i], r[j]);
    }
    Appended(f, r);
  }
}
