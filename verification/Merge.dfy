/** The edge collapser: explore marks the edges of a chain of collapsible nodes and reports the
    chain in both directions; merge explores every node and reports the edges that are left. */
module Merge {
  import opened Option
  import opened MergeGraph
  import opened MergeChain

  datatype Path = Path(start: int, end: int, edges: seq<int>)

  /** path::push_back and path::push_front, with their assertions as requires. */
  function PushBack(p: Path, from: int, e: int, to: int): Path
    requires p.end == from
  {
    Path(p.start, to, p.edges + [e])
  }

  function PushFront(p: Path, from: int, e: int, to: int): Path
    requires p.start == to
  {
    Path(from, p.end, [e] + p.edges)
  }

  ghost function AllEdges(ps: seq<Path>): seq<int> {
    if ps == [] then [] else AllEdges(ps[..|ps| - 1]) + ps[|ps| - 1].edges
  }

  lemma AllEdgesAdd(ps: seq<Path>, p: Path)
    ensures AllEdges(ps + [p]) == AllEdges(ps) + p.edges
  {
    assert (ps + [p])[..|ps|] == ps;
  }

  lemma AllEdgesTwo(ps: seq<Path>, p: Path, r: Path)
    ensures AllEdges(ps + [p, r]) == AllEdges(ps) + (p.edges + r.edges)
  {
    AllEdgesAdd(ps, p);
    AllEdgesAdd(ps + [p], r);
    assert ps + [p, r] == ps + [p] + [r];
  }

  ghost predicate Members(t: set<int>, s: seq<int>) {
    forall x :: x in t <==> x in s
  }

  // ----- The bookkeeping that whole runs of explore keep.

  /** Marked edges come in opposing pairs. */
  ghost predicate Symmetric(g: Graph, t: set<int>) {
    forall a, b :: Linked(g, a, b) && IdBetween(g, a, b) in t ==> IdBetween(g, b, a) in t
  }

  /** A collapsible node has both of its edges marked or none. */
  ghost predicate BothOrNeither(g: Graph, t: set<int>) {
    forall a, c, b :: Joins(g, a, c, b) && IdBetween(g, c, a) in t ==> IdBetween(g, c, b) in t
  }

  /** The edge x is found between a and b, and leads to a present node or leaves a collapsible one. */
  ghost predicate IsFound(g: Graph, a: int, b: int, x: int) {
    EdgeBetween(g, a, b).Some? && IdBetween(g, a, b) == x && (b in g || Collapsible(g, a))
  }

  /** Only edges that edge_between finds are marked. */
  ghost predicate OnlyFound(g: Graph, t: set<int>) {
    forall x :: x in t ==> exists a, b :: IsFound(g, a, b, x)
  }

  ghost predicate LoopsDoubled(g: Graph, t: set<int>, s: seq<int>) {
    forall c :: Linked(g, c, c) && IdBetween(g, c, c) in t ==> !NoDuplicates(s)
  }

  ghost predicate Kept(g: Graph, t: set<int>, s: seq<int>) {
    && Members(t, s) && Symmetric(g, t) && OnlyFound(g, t) && LoopsDoubled(g, t, s)
    && (NoDuplicates(s) ==> BothOrNeither(g, t))
    && (NoLoops(g) ==> NoDuplicates(s))
  }

  /** The run that one call of explore reports: n stands at place k, inside it, or the run is a
      chain that closes at n. It goes on as far as it can both ways, or up to n again. */
  ghost predicate Explored(g: Graph, n: int, ns: seq<int>, k: nat) {
    && IsRun(g, ns) && |ns| >= 3 && k < |ns| - 1 && ns[k] == n && Collapsible(g, n)
    && (k == 0 ==> IsChain(g, ns) && ns[|ns| - 1] == n && OpenOrClosed(ns))
    && (k > 0 ==> Ended(g, ns) && (Begun(g, ns) || ns[0] == n))
  }

  lemma ExploredIsFresh(g: Graph, n: int, ns: seq<int>, k: nat)
    requires Explored(g, n, ns, k) && NoLoops(g)
    ensures Fresh(g, ns) && (k > 0 ==> Begun(g, ns))
  {
    if k > 0 && !Begun(g, ns) {
      StartIsNotPassed(g, ns, k);
    }
  }

  lemma NextOfExplored(g: Graph, n: int, ns: seq<int>, k: nat)
    requires Explored(g, n, ns, k)
    ensures ForthAt(g, ns, k)
  {
    if k == 0 {
      ChainIsRun(g, ns);
    }
  }

  // ----- What one exploration adds.

  ghost function Added(g: Graph, ns: seq<int>): seq<int>
    requires ns != []
  {
    Along(g, Forth(g, ns)) + Back(g, Return(g, ns))
  }

  ghost predicate IsEither(g: Graph, ns: seq<int>, j: int, x: int) {
    IsForth(g, ns, j, x) || IsBack(g, ns, j, x)
  }

  /** The edges between neighbours in the run, either way, are what is added. */
  lemma AddedIs(g: Graph, ns: seq<int>, x: int)
    requires IsRun(g, ns)
    ensures x in Added(g, ns) <==> exists j :: IsEither(g, ns, j, x)
  {
    var f, r := Along(g, Forth(g, ns)), Back(g, Return(g, ns));
    if x in f {
      var i :| 0 <= i < |f| && f[i] == x;
      ForthEdge(g, ns, i);
      assert IsEither(g, ns, i + |ns| - |Forth(g, ns)|, x);
    } else if x in r {
      var i :| 0 <= i < |r| && r[i] == x;
      ReturnEdge(g, ns, i);
      assert IsEither(g, ns, |Return(g, ns)| - 2 - i, x);
    }
    if j :| IsEither(g, ns, j, x) {
      IsAdded(g, ns, j, x);
    }
  }

  lemma IsAdded(g: Graph, ns: seq<int>, j: int, x: int)
    requires ns != [] && IsEither(g, ns, j, x)
    ensures x in Added(g, ns)
  {
    if IsForth(g, ns, j, x) {
      ForthMember(g, ns, j, x);
    } else {
      ReturnMember(g, ns, j, x);
    }
  }

  lemma AddedAt(g: Graph, ns: seq<int>, x: int) returns (j: nat)
    requires IsRun(g, ns) && x in Added(g, ns)
    ensures IsEither(g, ns, j, x)
  {
    AddedIs(g, ns, x);
    j :| IsEither(g, ns, j, x);
  }

  lemma InBoth(a: seq<int>, b: seq<int>, s: seq<int>, x: int)
    requires x in a && x in b
    ensures !NoDuplicates(s + (a + b))
  {
    var i :| 0 <= i < |a| && a[i] == x;
    var j :| 0 <= j < |b| && b[j] == x;
    var all := s + (a + b);
    assert all[|s| + i] == all[|s| + |a| + j];
  }

  /** An edge met both on the way forth and on the way back is reported twice. */
  lemma MetTwice(g: Graph, ns: seq<int>, i: nat, j: nat, x: int, s: seq<int>)
    requires ns != [] && IsForth(g, ns, i, x) && IsBack(g, ns, j, x)
    ensures !NoDuplicates(s + Added(g, ns))
  {
    ForthMember(g, ns, i, x);
    ReturnMember(g, ns, j, x);
    InBoth(Along(g, Forth(g, ns)), Back(g, Return(g, ns)), s, x);
  }

  /** Where an added edge lies: the nodes it runs between are neighbours in the run. */
  lemma AddedBetween(g: Graph, ns: seq<int>, a: int, b: int) returns (j: nat)
    requires IdsUnique(g) && IsRun(g, ns) && EdgeBetween(g, a, b).Some? && IdBetween(g, a, b) in Added(g, ns)
    ensures j < |ns| - 1
    ensures (a == ns[j] && b == ns[j + 1]) || (a == ns[j + 1] && b == ns[j])
  {
    j := AddedAt(g, ns, IdBetween(g, a, b));
    if IsForth(g, ns, j, IdBetween(g, a, b)) {
      SameIdSameEnds(g, a, b, ns[j], ns[j + 1]);
    } else {
      SameIdSameEnds(g, a, b, ns[j + 1], ns[j]);
    }
  }

  lemma SymmetricAfter(g: Graph, t: set<int>, t': set<int>, ns: seq<int>)
    requires IdsUnique(g) && IsRun(g, ns) && Symmetric(g, t)
    requires forall x :: x in t' <==> x in t || x in Added(g, ns)
    ensures Symmetric(g, t')
  {
    forall a, b | Linked(g, a, b) && IdBetween(g, a, b) in t'
      ensures IdBetween(g, b, a) in t'
    {
      if IdBetween(g, a, b) !in t {
        var j := AddedBetween(g, ns, a, b);
        assert IsEither(g, ns, j, IdBetween(g, b, a));
        IsAdded(g, ns, j, IdBetween(g, b, a));
      }
    }
  }

  lemma OnlyFoundAfter(g: Graph, t: set<int>, t': set<int>, ns: seq<int>)
    requires IsRun(g, ns) && |ns| >= 3 && OnlyFound(g, t)
    requires forall x :: x in t' <==> x in t || x in Added(g, ns)
    ensures OnlyFound(g, t')
  {
    forall x | x in t'
      ensures exists a, b :: IsFound(g, a, b, x)
    {
      if x !in t {
        var j := AddedAt(g, ns, x);
        InnerCollapsible(g, ns, if j == 0 then 1 else j);
        if j + 1 < |ns| - 1 {
          InnerCollapsible(g, ns, j + 1);
        }
        assert IsFound(g, ns[j], ns[j + 1], x) || IsFound(g, ns[j + 1], ns[j], x);
      }
    }
  }

  lemma LoopsDoubledAfter(g: Graph, t: set<int>, t': set<int>, s: seq<int>, ns: seq<int>)
    requires IdsUnique(g) && IsRun(g, ns) && LoopsDoubled(g, t, s)
    requires forall x :: x in t' <==> x in t || x in Added(g, ns)
    ensures LoopsDoubled(g, t', s + Added(g, ns))
  {
    var s' := s + Added(g, ns);
    forall c | Linked(g, c, c) && IdBetween(g, c, c) in t'
      ensures !NoDuplicates(s')
    {
      var x := IdBetween(g, c, c);
      if x in t {
        var i, j :| 0 <= i < j < |s| && s[i] == s[j];
        assert s'[i] == s'[j];
      } else {
        var j := AddedBetween(g, ns, c, c);
        MetTwice(g, ns, j, j, x, s);
      }
    }
  }

  lemma InnerBothAdded(g: Graph, ns: seq<int>, i: nat, a: int, b: int)
    requires IsRun(g, ns) && 0 < i < |ns| - 1 && Joins(g, a, ns[i], b)
    ensures IdBetween(g, ns[i], b) in Added(g, ns)
  {
    assert StepAt(g, ns, i) && BackAt(g, ns, i - 1) && ForthAt(g, ns, i);
    IsAdded(g, ns, i - 1, IdBetween(g, ns[i], ns[i - 1]));
    IsAdded(g, ns, i, IdBetween(g, ns[i], ns[i + 1]));
  }

  lemma ClosedBothAdded(g: Graph, ns: seq<int>, s: seq<int>, a: int, b: int)
    requires IsChain(g, ns) && |ns| >= 3 && ns[0] == ns[|ns| - 1] && Joins(g, a, ns[0], b)
    ensures IdBetween(g, ns[0], b) in Added(g, ns) || !NoDuplicates(s + Added(g, ns))
  {
    var l := |ns| - 2;
    ChainIsRun(g, ns);
    NeighbourEdges(g, ns[0], ns[1]);
    NeighbourEdges(g, ns[0], ns[l]);
    IsAdded(g, ns, 0, IdBetween(g, ns[0], ns[1]));
    IsAdded(g, ns, l, IdBetween(g, ns[0], ns[l]));
    if ns[1] == ns[l] {
      MetTwice(g, ns, 0, l, IdBetween(g, ns[0], ns[1]), s);
    }
  }

  /** A collapsible node of the run with an edge along it has both its edges added, or an edge is
      reported twice. */
  lemma BothAdded(g: Graph, n: int, ns: seq<int>, k: nat, s: seq<int>, a: int, c: int, b: int, i: nat)
    requires Explored(g, n, ns, k) && Joins(g, a, c, b) && i < |ns| && c == ns[i]
    requires (i == 0 ==> ForthAt(g, ns, 0)) && (i == |ns| - 1 ==> BackAt(g, ns, i - 1))
    ensures IdBetween(g, c, b) in Added(g, ns) || !NoDuplicates(s + Added(g, ns))
  {
    if 0 < i < |ns| - 1 {
      InnerBothAdded(g, ns, i, a, b);
    } else if k > 0 {
      InnerBothAdded(g, ns, k, a, b);
    } else {
      ClosedBothAdded(g, ns, s, a, b);
    }
  }

  lemma BothOrNeitherAfter(g: Graph, t: set<int>, t': set<int>, s: seq<int>, n: int, ns: seq<int>, k: nat)
    requires IdsUnique(g) && Explored(g, n, ns, k) && BothOrNeither(g, t)
    requires forall x :: x in t' <==> x in t || x in Added(g, ns)
    requires NoDuplicates(s + Added(g, ns))
    ensures BothOrNeither(g, t')
  {
    forall a, c, b | Joins(g, a, c, b) && IdBetween(g, c, a) in t'
      ensures IdBetween(g, c, b) in t'
    {
      if IdBetween(g, c, a) !in t {
        NeighbourEdges(g, c, a);
        var j := AddedBetween(g, ns, c, a);
        BothAdded(g, n, ns, k, s, a, c, b, if c == ns[j] && a == ns[j + 1] then j else j + 1);
      }
    }
  }

  // ----- Nothing of the run was marked before.

  /** Marks spread from an edge of a run to the next one and back. */
  lemma {:induction false} MarksSpread(g: Graph, t: set<int>, ns: seq<int>, i: nat, j: nat)
    requires IsRun(g, ns) && Symmetric(g, t) && BothOrNeither(g, t) && i <= j < |ns| - 1 && ForthAt(g, ns, i)
    ensures IdBetween(g, ns[i], ns[i + 1]) in t <==> IdBetween(g, ns[j], ns[j + 1]) in t
    decreases j
  {
    if i < j {
      MarksSpread(g, t, ns, i, j - 1);
      MarksStep(g, t, ns, j);
    }
  }

  lemma MarksStep(g: Graph, t: set<int>, ns: seq<int>, j: nat)
    requires IsRun(g, ns) && Symmetric(g, t) && BothOrNeither(g, t) && 0 < j < |ns| - 1 && ForthAt(g, ns, j - 1)
    ensures IdBetween(g, ns[j - 1], ns[j]) in t <==> IdBetween(g, ns[j], ns[j + 1]) in t
  {
    assert StepAt(g, ns, j) && BackAt(g, ns, j - 1);
    assert Joins(g, ns[j - 1], ns[j], ns[j + 1]) && Joins(g, ns[j + 1], ns[j], ns[j - 1]);
    assert Linked(g, ns[j - 1], ns[j]) && Linked(g, ns[j], ns[j - 1]);
  }

  lemma ForthIsNew(g: Graph, t: set<int>, ns: seq<int>, k: nat, j: nat)
    requires IsRun(g, ns) && Symmetric(g, t) && BothOrNeither(g, t) && k < |ns| - 1 && j < |ns| - 1
    requires ForthAt(g, ns, k) && ForthAt(g, ns, j) && IdBetween(g, ns[k], ns[k + 1]) !in t
    ensures IdBetween(g, ns[j], ns[j + 1]) !in t
  {
    if j <= k {
      MarksSpread(g, t, ns, j, k);
    } else {
      MarksSpread(g, t, ns, k, j);
    }
  }

  lemma BackIsNew(g: Graph, t: set<int>, ns: seq<int>, k: nat, j: nat)
    requires IsRun(g, ns) && |ns| >= 3 && Symmetric(g, t) && BothOrNeither(g, t) && k < |ns| - 1 && j < |ns| - 1
    requires ForthAt(g, ns, k) && BackAt(g, ns, j) && IdBetween(g, ns[k], ns[k + 1]) !in t
    ensures IdBetween(g, ns[j + 1], ns[j]) !in t
  {
    if ForthAt(g, ns, j) {
      ForthIsNew(g, t, ns, k, j);
      assert Linked(g, ns[j + 1], ns[j]);
    } else {
      assert j == 0 && StepAt(g, ns, 1) && ForthAt(g, ns, 1);
      ForthIsNew(g, t, ns, k, 1);
      assert Joins(g, ns[0], ns[1], ns[2]);
    }
  }

  lemma AddedIsNew(g: Graph, t: set<int>, ns: seq<int>, k: nat, x: int)
    requires IsRun(g, ns) && |ns| >= 3 && Symmetric(g, t) && BothOrNeither(g, t) && k < |ns| - 1 && ForthAt(g, ns, k)
    requires IdBetween(g, ns[k], ns[k + 1]) !in t && x in Added(g, ns)
    ensures x !in t
  {
    var j := AddedAt(g, ns, x);
    if IsForth(g, ns, j, x) {
      ForthIsNew(g, t, ns, k, j);
    } else {
      BackIsNew(g, t, ns, k, j);
    }
  }

  lemma NoDuplicatesAfter(g: Graph, t: set<int>, s: seq<int>, n: int, ns: seq<int>, k: nat)
    requires IdsUnique(g) && NoLoops(g) && Kept(g, t, s) && Explored(g, n, ns, k)
    requires IdBetween(g, n, ns[k + 1]) !in t
    ensures NoDuplicates(s + Added(g, ns))
  {
    var added := Added(g, ns);
    ExploredIsFresh(g, n, ns, k);
    NextOfExplored(g, n, ns, k);
    ChainEdgesDiffer(g, ns);
    forall i, j | 0 <= i < |s| && 0 <= j < |added|
      ensures s[i] != added[j]
    {
      assert added[j] in added && s[i] in s;
      AddedIsNew(g, t, ns, k, added[j]);
    }
    Appended(s, added);
  }

  lemma FrontHasNoDuplicates(s: seq<int>, added: seq<int>)
    requires NoDuplicates(s + added)
    ensures NoDuplicates(s)
  {
    assert forall i :: 0 <= i < |s| ==> (s + added)[i] == s[i];
  }

  /** One exploration keeps the books. */
  lemma KeptAfter(g: Graph, t: set<int>, t': set<int>, s: seq<int>, n: int, ns: seq<int>, k: nat)
    requires IdsUnique(g) && Kept(g, t, s) && Explored(g, n, ns, k)
    requires IdBetween(g, n, ns[k + 1]) !in t
    requires forall x :: x in t' <==> x in t || x in Added(g, ns)
    ensures Kept(g, t', s + Added(g, ns))
  {
    SymmetricAfter(g, t, t', ns);
    OnlyFoundAfter(g, t, t', ns);
    LoopsDoubledAfter(g, t, t', s, ns);
    if NoLoops(g) {
      NoDuplicatesAfter(g, t, s, n, ns, k);
    }
    if NoDuplicates(s + Added(g, ns)) {
      FrontHasNoDuplicates(s, Added(g, ns));
      BothOrNeitherAfter(g, t, t', s, n, ns, k);
    }
  }

  // ----- The walk in one direction.

  ghost predicate Visits(us: set<(int, int)>, ns: seq<int>) {
    forall a, b :: (a, b) in us <==> exists j :: 0 <= j < |ns| - 2 && ns[j] == a && ns[j + 1] == b
  }

  /** Where an edge may lead from and to: a bound on the states of a walk. */
  ghost function EdgeEnds(g: Graph): set<(int, int)> {
    set n, e | n in g && e in g[n] :: (n, e.end)
  }

  lemma FoundIsAnEdgeEnd(g: Graph, a: int, b: int)
    requires EdgeBetween(g, a, b).Some?
    ensures (a, b) in EdgeEnds(g)
  {
    EdgeBetweenIs(g, a, b);
    var e := EdgeBetween(g, a, b).value;
    assert a in g && e in g[a] && (a, e.end) == (a, b);
  }

  /** The walk has gone through ns, left the states us, and is about to step to cur. */
  ghost predicate Pending(g: Graph, ns: seq<int>, cur: int, us: set<(int, int)>) {
    && IsChain(g, ns) && Steps(g, ns + [cur]) && Visits(us, ns + [cur])
    && forall m :: 2 <= m < |ns| + 1 ==> (ns + [cur])[m] != ns[0]
  }

  lemma PendingStart(g: Graph, n: int, cur: int)
    ensures Pending(g, [n], cur, {}) && Along(g, [n]) == [] && Back(g, [n]) == []
  {
  }

  /** The state that the walk enters is none of those it has left. */
  lemma NewState(g: Graph, ns: seq<int>, cur: int, us: set<(int, int)>)
    requires Pending(g, ns, cur, us) && EdgeBetween(g, ns[|ns| - 1], cur).Some?
    ensures (ns[|ns| - 1], cur) !in us && (ns[|ns| - 1], cur) in EdgeEnds(g)
  {
    var ms, j := ns + [cur], |ns| - 1;
    FoundIsAnEdgeEnd(g, ms[j], cur);
    if (ms[j], ms[j + 1]) in us {
      var i :| 0 <= i < j && ms[i] == ms[j] && ms[i + 1] == ms[j + 1];
      DistinctStates(g, ms, i, j);
    }
  }

  lemma VisitsGrow(g: Graph, ns: seq<int>, cur: int, us: set<(int, int)>, next: int)
    requires ns != [] && Visits(us, ns + [cur])
    ensures Visits(us + {(ns[|ns| - 1], cur)}, ns + [cur] + [next])
  {
    var ms, ms' := ns + [cur], ns + [cur] + [next];
    forall a, b
      ensures (a, b) in us + {(ns[|ns| - 1], cur)} <==> exists j :: 0 <= j < |ms'| - 2 && ms'[j] == a && ms'[j + 1] == b
    {
      if (a, b) in us {
        var j :| 0 <= j < |ms| - 2 && ms[j] == a && ms[j + 1] == b;
        assert ms'[j] == a && ms'[j + 1] == b;
      } else if (a, b) == (ns[|ns| - 1], cur) {
        assert ms'[|ns| - 1] == a && ms'[|ns| - 1 + 1] == b;
      }
      if j :| 0 <= j < |ms'| - 2 && ms'[j] == a && ms'[j + 1] == b {
        if j < |ms| - 2 {
          assert ms[j] == a && ms[j + 1] == b;
        }
      }
    }
  }

  lemma Advance(g: Graph, ns: seq<int>, cur: int, us: set<(int, int)>, next: int)
    requires Pending(g, ns, cur, us) && Linked(g, ns[|ns| - 1], cur) && Joins(g, ns[|ns| - 1], cur, next)
    ensures IsChain(g, ns + [cur]) && Steps(g, ns + [cur] + [next])
    ensures next != ns[0] ==> Pending(g, ns + [cur], next, us + {(ns[|ns| - 1], cur)})
    ensures EdgeBetween(g, cur, next).Some?
  {
    ChainGrows(g, ns, cur);
    StepsGrow(g, ns + [cur], next);
    VisitsGrow(g, ns, cur, us, next);
    NeighbourEdges(g, cur, next);
    var ms := ns + [cur] + [next];
    forall m | 2 <= m < |ms| && next != ns[0]
      ensures ms[m] != ms[0]
    {
      assert m < |ms| - 1 ==> ms[m] == (ns + [cur])[m];
    }
  }

  /** The forward and the reverse path after the nodes ns have been walked. */
  ghost predicate WalkedPaths(g: Graph, ns: seq<int>, f0: Path, r0: Path, f: Path, r: Path) {
    && ns != [] && f0.end == ns[0] == r0.start
    && f == Path(f0.start, ns[|ns| - 1], f0.edges + Along(g, ns))
    && r == Path(Return(g, ns)[|Return(g, ns)| - 1], r0.end, Back(g, Return(g, ns)) + r0.edges)
  }

  ghost predicate Marks(g: Graph, t0: set<int>, t: set<int>, ns: seq<int>) {
    ns != [] && forall x :: x in t <==> x in t0 || x in Added(g, ns)
  }

  lemma ChainForth(g: Graph, ns: seq<int>)
    requires IsChain(g, ns)
    ensures Forth(g, ns) == ns == Return(g, ns)
  {
    if |ns| >= 2 {
      ChainIsRun(g, ns);
    }
  }

  /** A step with an edge both ways. */
  lemma WalkGrows(g: Graph, ns: seq<int>, x: int, f0: Path, r0: Path, f: Path, r: Path, t0: set<int>, t: set<int>)
    requires IsChain(g, ns) && Steps(g, ns + [x]) && Linked(g, ns[|ns| - 1], x)
    requires WalkedPaths(g, ns, f0, r0, f, r) && Marks(g, t0, t, ns)
    ensures IsChain(g, ns + [x]) && r.start == ns[|ns| - 1]
    ensures var e1, e2 := IdBetween(g, ns[|ns| - 1], x), IdBetween(g, x, ns[|ns| - 1]);
            && WalkedPaths(g, ns + [x], f0, r0, PushBack(f, ns[|ns| - 1], e1, x), PushFront(r, x, e2, ns[|ns| - 1]))
            && Marks(g, t0, t + {e1} + {e2}, ns + [x])
  {
    ChainGrows(g, ns, x);
    EdgesGrow(g, ns, x);
    ChainForth(g, ns);
    ChainForth(g, ns + [x]);
  }

  /** The last step, with an edge forth only. */
  lemma WalkStops(g: Graph, ns: seq<int>, x: int, f0: Path, r0: Path, f: Path, r: Path, t0: set<int>, t: set<int>)
    requires IsChain(g, ns) && Steps(g, ns + [x])
    requires EdgeBetween(g, ns[|ns| - 1], x).Some? && EdgeBetween(g, x, ns[|ns| - 1]).None?
    requires WalkedPaths(g, ns, f0, r0, f, r) && Marks(g, t0, t, ns)
    ensures IsRun(g, ns + [x]) && ForthAt(g, ns + [x], 0) && Ended(g, ns + [x])
    ensures var e1 := IdBetween(g, ns[|ns| - 1], x);
            && WalkedPaths(g, ns + [x], f0, r0, PushBack(f, ns[|ns| - 1], e1, x), r)
            && Marks(g, t0, t + {e1}, ns + [x])
  {
    var ms := ns + [x];
    forall j | 0 <= j < |ms| - 1
      ensures ForthAt(g, ms, j) && (j < |ms| - 2 ==> BackAt(g, ms, j))
    {
      assert j < |ns| - 1 ==> LinkAt(g, ns, j);
    }
    EdgesGrow(g, ns, x);
    ChainForth(g, ns);
    assert !BackAt(g, ms, |ms| - 2) && ms[..|ms| - 1] == ns;
  }

  ghost function PathOf(g: Graph, ns: seq<int>): Path
    requires ns != []
  {
    Path(ns[0], ns[|ns| - 1], Along(g, ns))
  }

  /** The two paths that are reported for a run. */
  ghost function ForwardOf(g: Graph, ns: seq<int>): Path
    requires ns != []
  {
    PathOf(g, Forth(g, ns))
  }

  ghost function ReverseOf(g: Graph, ns: seq<int>): (p: Path)
    requires ns != []
    ensures p == Path(Return(g, ns)[|Return(g, ns)| - 1], ns[0], Back(g, Return(g, ns)))
  {
    AlongReverse(g, Return(g, ns));
    PathOf(g, Reverse(Return(g, ns)))
  }

  /** If n is collapsible, one of its two edges is marked. */
  ghost predicate OneMarked(g: Graph, n: int, t: set<int>) {
    Collapsible(g, n) ==>
      var (a, b) := Neighbours(g, n).value; IdBetween(g, n, a) in t || IdBetween(g, n, b) in t
  }

  lemma AlongReverse(g: Graph, ns: seq<int>)
    requires ns != []
    ensures Reverse(ns) != [] && PathOf(g, Reverse(ns)) == Path(ns[|ns| - 1], ns[0], Back(g, ns))
  {
  }

  lemma JoinWithoutEnds(a: seq<int>, b: seq<int>)
    requires |a| >= 2 && |b| >= 2
    ensures Join(a, b)[1..] == Join(a, b[..|b| - 1])
    ensures Join(a, b)[..|a| + |b| - 2] == Join(a[..|a| - 1], b)
  {
    assert Reverse(b)[1..] == Reverse(b[..|b| - 1]);
    assert a[1..][..|a| - 2] == a[..|a| - 1][1..];
  }

  lemma JoinEndEdges(g: Graph, a: seq<int>, b: seq<int>)
    requires |a| >= 2 && |b| >= 2 && a[0] == b[0]
    ensures var ms := Join(a, b);
            && |ms| == |a| + |b| - 1
            && (ForthAt(g, ms, 0) <==> BackAt(g, b, |b| - 2))
            && (BackAt(g, ms, |ms| - 2) <==> BackAt(g, a, |a| - 2))
  {
    var l := |a| + |b| - 2;
    JoinAt(a, b, 0);
    JoinAt(a, b, 1);
    JoinAt(a, b, l);
    JoinAt(a, b, l - 1);
  }

  /** What is missing at an end of a side is missing at that end of the whole. */
  lemma JoinEnds(g: Graph, a: seq<int>, b: seq<int>)
    requires |a| >= 2 && |b| >= 2 && a[0] == b[0]
    ensures Join(a, b) != []
    ensures Forth(g, Join(a, b)) == Join(a, Return(g, b)) && Return(g, Join(a, b)) == Join(Return(g, a), b)
  {
    JoinEndEdges(g, a, b);
    JoinWithoutEnds(a, b);
  }

  /** The paths and the marks of a whole, made of those of the two sides. */
  lemma JoinPaths(g: Graph, a: seq<int>, b: seq<int>)
    requires |a| >= 2 && |b| >= 2 && a[0] == b[0] && Forth(g, a) == a && Forth(g, b) == b
    ensures var ns := Join(a, b);
            && ns != [] && (forall x :: x in Added(g, ns) <==> x in Added(g, a) || x in Added(g, b))
            && ForwardOf(g, ns) == Path(Return(g, b)[|Return(g, b)| - 1], a[|a| - 1], Back(g, Return(g, b)) + Along(g, a))
            && ReverseOf(g, ns) == Path(Return(g, a)[|Return(g, a)| - 1], b[|b| - 1], Back(g, Return(g, a)) + Along(g, b))
  {
    var a', b' := Return(g, a), Return(g, b);
    JoinEnds(g, a, b);
    TwoSidesEdges(g, a, b');
    TwoSidesEdges(g, a', b);
    JoinAt(a, b', 0);
    JoinAt(a, b', |a| + |b'| - 2);
    JoinAt(a', b, 0);
    JoinAt(a', b, |a'| + |b| - 2);
  }

  /** Two open walks from n make one run that is explored. */
  lemma OpenExplored(g: Graph, n: int, a: seq<int>, b: seq<int>)
    requires IsRun(g, a) && IsRun(g, b) && ForthAt(g, a, 0) && ForthAt(g, b, 0) && a[0] == b[0] == n
    requires Neighbours(g, n) == Some((a[1], b[1]))
    requires Ended(g, a) && (b[|b| - 1] == n || Ended(g, b))
    ensures Explored(g, n, Join(a, b), |b| - 1) && Join(a, b)[|b|] == a[1]
  {
    var ns, k := Join(a, b), |b| - 1;
    TwoSides(g, a, b);
    JoinAt(a, b, 0);
    JoinAt(a, b, 1);
    JoinAt(a, b, k);
    JoinAt(a, b, k + 1);
    JoinAt(a, b, |ns| - 2);
    JoinAt(a, b, |ns| - 1);
  }

  lemma OneWay(g: Graph, n: int, a: seq<int>, f: Path, r: Path)
    requires IsRun(g, a) && ForthAt(g, a, 0) && WalkedPaths(g, a, Path(n, n, []), Path(n, n, []), f, r)
    ensures f == ForwardOf(g, a) && r == ReverseOf(g, a)
  {
    assert [] + Along(g, a) == Along(g, a) && Back(g, Return(g, a)) + [] == Back(g, Return(g, a));
  }

  /** The second walk goes on at the other end of both paths. */
  lemma OpenPaths(g: Graph, a: seq<int>, b: seq<int>, f1: Path, r1: Path, f: Path, r: Path,
                  t0: set<int>, t1: set<int>, t: set<int>)
    requires IsRun(g, a) && IsRun(g, b) && ForthAt(g, a, 0) && ForthAt(g, b, 0) && a[0] == b[0]
    requires f1 == ForwardOf(g, a) && r1 == ReverseOf(g, a) && WalkedPaths(g, b, r1, f1, r, f)
    requires Marks(g, t0, t1, a) && Marks(g, t1, t, b)
    ensures Join(a, b) != [] && f == ForwardOf(g, Join(a, b)) && r == ReverseOf(g, Join(a, b))
    ensures Marks(g, t0, t, Join(a, b))
  {
    JoinPaths(g, a, b);
  }

  // ----- What is reported.

  /** Nodes from each of which an edge leads to the next, merged at collapsible nodes only. */
  ghost predicate IsTrail(g: Graph, ms: seq<int>) {
    ms != [] && Steps(g, ms) && forall j :: 0 <= j < |ms| - 1 ==> ForthAt(g, ms, j)
  }

  ghost predicate IsSingle(g: Graph, p: Path, n: int, e: Edge) {
    Leaves(g, n, e) && e.allowed && p == Path(n, e.end, [e.id])
  }

  /** Consecutive allowed edges from the path's start to its end. */
  ghost predicate Contiguous(g: Graph, p: Path) {
    (exists ms :: IsTrail(g, ms) && |ms| >= 2 && p == PathOf(g, ms)) || (exists n, e :: IsSingle(g, p, n, e))
  }

  /** The i-th edge of the path is the allowed edge es[i], from ns[i] to ns[i + 1]. */
  ghost predicate GoesOver(g: Graph, p: Path, ns: seq<int>, es: seq<Edge>, i: int)
    requires 0 <= i < |es| == |p.edges| && |ns| == |es| + 1
  {
    Leaves(g, ns[i], es[i]) && es[i].allowed && es[i].end == ns[i + 1] && p.edges[i] == es[i].id
  }

  /** No edge of the node forbids merging, and its two allowed edges lead to the nodes before and behind it. */
  ghost predicate Passes(g: Graph, ns: seq<int>, i: int)
    requires 0 < i < |ns| - 1
  {
    PassableBetween(g, ns[i], ns[i - 1], ns[i + 1]) || PassableBetween(g, ns[i], ns[i + 1], ns[i - 1])
  }

  ghost predicate IsRouteBy(g: Graph, p: Path, ns: seq<int>, es: seq<Edge>) {
    && 0 < |es| == |p.edges| && |ns| == |es| + 1 && ns[0] == p.start && ns[|es|] == p.end
    && (forall i :: 0 <= i < |es| ==> GoesOver(g, p, ns, es, i))
    && (forall i :: 0 < i < |es| ==> Passes(g, ns, i))
  }

  /** What a reported path is, edge by edge and node by node. */
  ghost predicate IsRoute(g: Graph, p: Path) {
    exists ns, es :: IsRouteBy(g, p, ns, es)
  }

  lemma ContiguousIsRoute(g: Graph, p: Path)
    requires Contiguous(g, p)
    ensures IsRoute(g, p)
  {
    if ms :| IsTrail(g, ms) && |ms| >= 2 && p == PathOf(g, ms) {
      TrailIsRoute(g, ms);
      assert IsRouteBy(g, p, ms, EdgesAlong(g, ms));
    } else {
      var n, e :| IsSingle(g, p, n, e);
      assert GoesOver(g, p, [n, e.end], [e], 0);
      assert IsRouteBy(g, p, [n, e.end], [e]);
    }
  }

  ghost function EdgeOr(g: Graph, a: int, b: int): Edge {
    match EdgeBetween(g, a, b) case None => Edge(-1, b, false, false) case Some(e) => e
  }

  ghost function EdgesAlong(g: Graph, ms: seq<int>): (es: seq<Edge>)
    requires ms != []
    ensures |es| == |ms| - 1
    ensures forall i {:trigger es[i]} :: 0 <= i < |es| ==> es[i] == EdgeOr(g, ms[i], ms[i + 1])
  {
    seq(|ms| - 1, i requires 0 <= i < |ms| - 1 => EdgeOr(g, ms[i], ms[i + 1]))
  }

  lemma TrailIsRoute(g: Graph, ms: seq<int>)
    requires IsTrail(g, ms) && |ms| >= 2
    ensures IsRouteBy(g, PathOf(g, ms), ms, EdgesAlong(g, ms))
  {
    var p, es := PathOf(g, ms), EdgesAlong(g, ms);
    forall i | 0 <= i < |es|
      ensures GoesOver(g, p, ms, es, i)
    {
      assert ForthAt(g, ms, i);
      EdgeBetweenIs(g, ms[i], ms[i + 1]);
    }
    forall i | 0 < i < |es|
      ensures Passes(g, ms, i)
    {
      assert StepAt(g, ms, i);
      NeighboursAre(g, ms[i], ms[i - 1], ms[i + 1]);
      NeighboursAre(g, ms[i], ms[i + 1], ms[i - 1]);
    }
  }

  /** The node c can be passed when coming from a. */
  ghost predicate Passable(g: Graph, a: int, c: int) {
    exists b :: Joins(g, a, c, b)
  }

  /** Neither can anything be merged behind the last node nor before the first. */
  ghost predicate Stuck(g: Graph, ms: seq<int>) {
    && |ms| >= 2
    && !Passable(g, ms[|ms| - 2], ms[|ms| - 1])
    && (forall q :: Joins(g, q, ms[0], ms[1]) ==> EdgeBetween(g, q, ms[0]).None?)
  }

  /** Once round a closed cycle of different collapsible nodes. */
  ghost predicate ClosedCycle(g: Graph, ms: seq<int>) {
    && |ms| >= 3 && ms[0] == ms[|ms| - 1]
    && (forall j :: 0 <= j < |ms| ==> Collapsible(g, ms[j]))
    && (forall i, j :: 0 <= i < j < |ms| - 1 ==> ms[i] != ms[j])
  }

  ghost predicate MaximalTrail(g: Graph, ms: seq<int>) {
    IsTrail(g, ms) && (Stuck(g, ms) || ClosedCycle(g, ms))
  }

  /** An edge of its own: nothing can be merged before it, nor behind it, unless another allowed
      edge to the same node was found first. */
  ghost predicate StuckEdge(g: Graph, n: int, e: Edge) {
    !Collapsible(g, n) && (!Passable(g, n, e.end) || EdgeBetween(g, n, e.end) != Some(e))
  }

  ghost predicate MaximalPath(g: Graph, p: Path) {
    || (exists ms :: MaximalTrail(g, ms) && p == PathOf(g, ms))
    || (exists n, e :: IsSingle(g, p, n, e) && StuckEdge(g, n, e))
  }

  /** The path lies between nodes that cannot be passed, or is one closed cycle. */
  ghost predicate WholePath(g: Graph, p: Path) {
    || (!Collapsible(g, p.start) && !Collapsible(g, p.end))
    || (exists ms :: IsTrail(g, ms) && ClosedCycle(g, ms) && p == PathOf(g, ms))
  }

  lemma ForthIsTrail(g: Graph, ns: seq<int>)
    requires IsRun(g, ns)
    ensures IsTrail(g, Forth(g, ns))
  {
    var ms := Forth(g, ns);
    var d := |ns| - |ms|;
    forall j | 0 <= j < |ms| - 1
      ensures ForthAt(g, ms, j) && (j > 0 ==> StepAt(g, ms, j))
    {
      assert j + d > 0 ==> ForthAt(g, ns, j + d) && StepAt(g, ns, j + d);
    }
  }

  lemma ReturnIsTrail(g: Graph, ns: seq<int>)
    requires IsRun(g, ns)
    ensures Reverse(Return(g, ns)) != [] && IsTrail(g, Reverse(Return(g, ns)))
  {
    var ms := Reverse(Return(g, ns));
    var l := |ms| - 1;
    forall j | 0 <= j < |ms| - 1
      ensures ForthAt(g, ms, j) && (j > 0 ==> StepAt(g, ms, j))
    {
      assert l - j < |ns| - 1 ==> StepAt(g, ns, l - j);
      assert l - j - 1 < |ns| - 2 ==> BackAt(g, ns, l - j - 1);
    }
  }

  /** Where a run has ended, its way forth can be extended at neither end. */
  lemma ForthIsStuck(g: Graph, ns: seq<int>)
    requires IsRun(g, ns) && |ns| >= 3 && Begun(g, ns) && Ended(g, ns)
    ensures Stuck(g, Forth(g, ns))
  {
    var ms := Forth(g, ns);
    if Passable(g, ms[|ms| - 2], ms[|ms| - 1]) {
      NeighbourEdges(g, ns[|ns| - 1], ns[|ns| - 2]);
    }
    forall q | Joins(g, q, ms[0], ms[1])
      ensures EdgeBetween(g, q, ms[0]).None?
    {
      assert StepAt(g, ns, 1);
    }
  }

  lemma ReturnIsStuck(g: Graph, ns: seq<int>)
    requires IsRun(g, ns) && |ns| >= 3 && Begun(g, ns) && Ended(g, ns)
    ensures Stuck(g, Reverse(Return(g, ns)))
  {
    var rs := Return(g, ns);
    var ms := Reverse(rs);
    if Passable(g, ms[|ms| - 2], ms[|ms| - 1]) {
      NeighbourEdges(g, ns[0], ns[1]);
    }
    forall q | Joins(g, q, ms[0], ms[1])
      ensures EdgeBetween(g, q, ms[0]).None?
    {
      assert StepAt(g, ns, |ns| - 2);
    }
  }

  lemma ClosedIsCycle(g: Graph, n: int, ns: seq<int>)
    requires Explored(g, n, ns, 0) && NoLoops(g)
    ensures ClosedCycle(g, ns) && Reverse(ns) != [] && ClosedCycle(g, Reverse(ns))
  {
    forall j | 0 <= j < |ns|
      ensures Collapsible(g, ns[j])
    {
      if 0 < j < |ns| - 1 {
        InnerCollapsible(g, ns, j);
      }
    }
    forall i, j | 0 <= i < j < |ns| - 1
      ensures ns[i] != ns[j]
    {
      if i > 0 {
        InnerOnce(g, ns, i, j);
      } else if j == 1 {
        NoSelfStep(g, ns, 0);
      }
    }
    CycleTurned(g, ns);
  }

  lemma CycleTurned(g: Graph, ms: seq<int>)
    requires ClosedCycle(g, ms)
    ensures ClosedCycle(g, Reverse(ms))
  {
    var l := |ms| - 1;
    forall i, j | 0 <= i < j < l
      ensures Reverse(ms)[i] != Reverse(ms)[j]
    {
      assert ms[if i == 0 then 0 else l - i] != ms[l - j];
    }
  }

  lemma RunsAreGood(g: Graph, n: int, ns: seq<int>, k: nat)
    requires Explored(g, n, ns, k)
    ensures Contiguous(g, ForwardOf(g, ns)) && Contiguous(g, ReverseOf(g, ns))
    ensures NoLoops(g) ==> MaximalPath(g, ForwardOf(g, ns)) && MaximalPath(g, ReverseOf(g, ns))
  {
    var f, r := Forth(g, ns), Reverse(Return(g, ns));
    ForthIsTrail(g, ns);
    ReturnIsTrail(g, ns);
    if NoLoops(g) {
      if k == 0 {
        ClosedIsCycle(g, n, ns);
        ChainForth(g, ns);
      } else {
        ExploredIsFresh(g, n, ns, k);
        ForthIsStuck(g, ns);
        ReturnIsStuck(g, ns);
      }
      assert MaximalTrail(g, f) && MaximalTrail(g, r);
    }
  }

  /** Where every edge has one back, a trail that is stuck ends at nodes that cannot be passed. */
  lemma StuckAtJunctions(g: Graph, ms: seq<int>)
    requires Mutual(g) && IsTrail(g, ms) && Stuck(g, ms)
    ensures !Collapsible(g, ms[0]) && !Collapsible(g, ms[|ms| - 1])
  {
    var l := |ms| - 1;
    assert ForthAt(g, ms, 0) && ForthAt(g, ms, l - 1);
    MutualLinks(g, ms[l - 1], ms[l]);
    if Collapsible(g, ms[l]) {
      NeighbourEdges(g, ms[l], ms[l - 1]);
      var q := OtherSide(g, ms[l], ms[l - 1]);
    }
    if Collapsible(g, ms[0]) {
      NeighbourEdges(g, ms[0], ms[1]);
      var q := OtherSide(g, ms[0], ms[1]);
      assert Joins(g, q, ms[0], ms[1]);
      NeighbourEdges(g, ms[0], q);
      MutualLinks(g, ms[0], q);
    }
  }

  lemma OtherSide(g: Graph, c: int, a: int) returns (b: int)
    requires Collapsible(g, c) && EdgeBetween(g, c, a).Some?
    ensures Joins(g, a, c, b)
  {
    NeighbourEdges(g, c, a);
    var (x, y) := Neighbours(g, c).value;
    b := if x == a then y else x;
  }

  /** A collapsible node with a loop makes the explorations report some edge twice. */
  lemma LoopIsReportedTwice(g: Graph, t: set<int>, s: seq<int>)
    requires Kept(g, t, s) && !NoLoops(g)
    requires forall n | n in g :: OneMarked(g, n, t)
    ensures !NoDuplicates(s)
  {
    var c :| Collapsible(g, c) && EdgeBetween(g, c, c).Some?;
    NeighbourEdges(g, c, c);
    var (a, b) := Neighbours(g, c).value;
    assert Joins(g, a, c, b) && Joins(g, b, c, a) && Linked(g, c, c);
    assert c in g && OneMarked(g, c, t);
  }

  /** A graph with such a node: 0 has an edge to itself and one to 1, which leads back. */
  lemma LoopGraph() returns (g: Graph)
    ensures IdsUnique(g) && Mutual(g) && !NoLoops(g)
    ensures g == map[0 := [Edge(1, 0, true, true), Edge(2, 1, true, true)], 1 := [Edge(3, 0, true, true)]]
  {
    var e1, e2, e3 := Edge(1, 0, true, true), Edge(2, 1, true, true), Edge(3, 0, true, true);
    g := map[0 := [e1, e2], 1 := [e3]];
    assert AllowedEnds(g[0], 1) == [0];
    assert AllowedEnds(g[0], 2) == [0, 1];
    assert Neighbours(g, 0) == Some((0, 1));
    EdgeBetweenIs(g, 0, 0);
    EdgeBetweenIs(g, 0, 1);
    EdgeBetweenIs(g, 1, 0);
    assert Leaves(g, 0, e1) && Leaves(g, 0, e2) && Leaves(g, 1, e3);
    assert Collapsible(g, 0) && EdgeBetween(g, 0, 0).Some?;
  }

  /** Every allowed edge is one of a pair that run against each other. */
  ghost predicate Paired(g: Graph, opp: map<int, Edge>) {
    forall n, e :: Leaves(g, n, e) && e.allowed ==>
      && e.id in opp
      && var f := opp[e.id];
        Leaves(g, e.end, f) && f.allowed && f.end == n && f.id != e.id && f.id in opp && opp[f.id] == e
  }

  ghost predicate HasPairs(g: Graph) {
    exists opp :: Paired(g, opp)
  }

  lemma {:induction false} TwoToOneEnd(es: seq<Edge>, i: nat, j: nat, k: nat)
    requires i < j < k <= |es| && es[i].allowed && es[j].allowed && es[i].end == es[j].end
    ensures |AllowedEnds(es, k)| >= 2
    ensures |AllowedEnds(es, k)| == 2 ==> AllowedEnds(es, k)[0] == AllowedEnds(es, k)[1]
  {
    if j < k - 1 {
      TwoToOneEnd(es, i, j, k - 1);
    } else {
      AllowedEndsAt(es, k - 1, es[i].end);
    }
  }

  lemma OnlyEdge(g: Graph, c: int, e: Edge)
    requires Collapsible(g, c) && Leaves(g, c, e) && e.allowed
    ensures EdgeBetween(g, c, e.end) == Some(e)
  {
    EdgeBetweenIs(g, c, e.end);
    var f := EdgeBetween(g, c, e.end).value;
    if f != e {
      var i :| 0 <= i < |g[c]| && g[c][i] == e;
      var j :| 0 <= j < |g[c]| && g[c][j] == f;
      if i < j {
        TwoToOneEnd(g[c], i, j, |g[c]|);
      } else {
        TwoToOneEnd(g[c], j, i, |g[c]|);
      }
    }
  }

  /** Paired edges are mutual, and leave no collapsible node with a loop. */
  lemma PairsSuffice(g: Graph, opp: map<int, Edge>)
    requires Paired(g, opp)
    ensures Mutual(g) && NoLoops(g)
  {
    forall n, e | Leaves(g, n, e) && e.allowed
      ensures EdgeBetween(g, e.end, n).Some?
    {
      EdgeBetweenIs(g, e.end, n);
      assert Leaves(g, e.end, opp[e.id]);
    }
    forall c | Collapsible(g, c)
      ensures EdgeBetween(g, c, c).None?
    {
      EdgeBetweenIs(g, c, c);
      if EdgeBetween(g, c, c).Some? {
        var e := EdgeBetween(g, c, c).value;
        OnlyEdge(g, c, e);
        OnlyEdge(g, c, opp[e.id]);
      }
    }
  }

  /** Where edges are paired, the edge found one way is the opposite of the one found the other
      way, if either end is collapsible. */
  lemma FoundIsOpposite(g: Graph, opp: map<int, Edge>, a: int, b: int)
    requires IdsUnique(g) && Paired(g, opp) && Linked(g, a, b) && (Collapsible(g, a) || Collapsible(g, b))
    ensures IdBetween(g, a, b) in opp && opp[IdBetween(g, a, b)] == EdgeBetween(g, b, a).value
  {
    EdgeBetweenIs(g, a, b);
    EdgeBetweenIs(g, b, a);
    var e, f := EdgeBetween(g, a, b).value, EdgeBetween(g, b, a).value;
    if Collapsible(g, b) {
      OnlyEdge(g, b, opp[e.id]);
    } else {
      OnlyEdge(g, a, opp[f.id]);
    }
  }

  lemma RunIsChain(g: Graph, ns: seq<int>)
    requires Mutual(g) && IsRun(g, ns) && |ns| >= 3
    ensures IsChain(g, ns)
  {
    forall j | 0 <= j < |ns| - 1
      ensures LinkAt(g, ns, j)
    {
      if j > 0 {
        assert ForthAt(g, ns, j);
        MutualLinks(g, ns[j], ns[j + 1]);
      } else {
        assert BackAt(g, ns, 0);
        MutualLinks(g, ns[1], ns[0]);
      }
    }
  }

  /** The second path reported for a chain is the first one turned round, edge by opposite edge. */
  lemma ReverseIsOpposite(g: Graph, opp: map<int, Edge>, n: int, ns: seq<int>, k: nat, j: nat)
    requires IdsUnique(g) && Paired(g, opp) && Explored(g, n, ns, k) && j < |ns| - 1
    ensures var f, r := ForwardOf(g, ns).edges, ReverseOf(g, ns).edges;
            |f| == |r| == |ns| - 1 && f[j] in opp && opp[f[j]].id == r[|r| - 1 - j]
  {
    PairsSuffice(g, opp);
    RunIsChain(g, ns);
    ChainForth(g, ns);
    assert LinkAt(g, ns, j);
    InnerCollapsible(g, ns, if j > 0 then j else 1);
    FoundIsOpposite(g, opp, ns[j], ns[j + 1]);
  }

  /** An edge left over by all explorations cannot be merged at its start, and only behind another
      edge of the same ends at its end. */
  lemma LeftOverIsStuck(g: Graph, t: set<int>, s: seq<int>, n: int, e: Edge)
    requires IdsUnique(g) && NoLoops(g) && Kept(g, t, s)
    requires forall m | m in g :: OneMarked(g, m, t)
    requires Leaves(g, n, e) && e.allowed && e.id !in t
    ensures StuckEdge(g, n, e)
  {
    if Collapsible(g, n) {
      OnlyEdge(g, n, e);
      MarkedAtBoth(g, t, n, e.end);
    }
    if EdgeBetween(g, n, e.end) == Some(e) && Passable(g, n, e.end) {
      NeighbourEdges(g, e.end, n);
      MarkedAtBoth(g, t, e.end, n);
      assert Linked(g, e.end, n);
    }
  }

  /** Where edges are paired, an edge left over by all explorations ends at nodes that cannot be passed. */
  lemma LeftOverIsMaximal(g: Graph, opp: map<int, Edge>, t: set<int>, s: seq<int>, n: int, e: Edge)
    requires IdsUnique(g) && Paired(g, opp) && Kept(g, t, s)
    requires forall m | m in g :: OneMarked(g, m, t)
    requires Leaves(g, n, e) && e.allowed && e.id !in t
    ensures !Collapsible(g, n) && !Collapsible(g, e.end)
  {
    PairsSuffice(g, opp);
    var f := opp[e.id];
    LeftOverIsStuck(g, t, s, n, e);
    if Collapsible(g, e.end) {
      OnlyEdge(g, e.end, f);
      MarkedAtBoth(g, t, e.end, n);
      EdgeBetweenIs(g, n, e.end);
      assert Linked(g, e.end, n);
      FoundIsOpposite(g, opp, e.end, n);
    }
  }

  lemma MarkedAtBoth(g: Graph, t: set<int>, c: int, a: int)
    requires Collapsible(g, c) && OneMarked(g, c, t) && BothOrNeither(g, t) && EdgeBetween(g, c, a).Some?
    ensures IdBetween(g, c, a) in t
  {
    NeighbourEdges(g, c, a);
    var (x, y) := Neighbours(g, c).value;
    assert Joins(g, x, c, y) && Joins(g, y, c, x);
  }

  lemma MarkedNow(g: Graph, n: int, ns: seq<int>, k: nat, t: set<int>, t': set<int>)
    requires Explored(g, n, ns, k) && Marks(g, t, t', ns)
    ensures OneMarked(g, n, t')
  {
    NextOfExplored(g, n, ns, k);
    IsAdded(g, ns, k, IdBetween(g, n, ns[k + 1]));
    NeighbourEdges(g, n, ns[k + 1]);
  }

  /** The state of the collapser after the nodes done have been explored. */
  ghost predicate BooksKept(g: Graph, t: set<int>, ps: seq<Path>, done: seq<int>) {
    && Kept(g, t, AllEdges(ps))
    && AllMarked(g, t, done) && GoodPaths(g, ps)
  }

  ghost predicate AllMarked(g: Graph, t: set<int>, done: seq<int>) {
    forall n | n in done :: OneMarked(g, n, t)
  }

  ghost predicate GoodPaths(g: Graph, ps: seq<Path>) {
    forall p | p in ps :: Contiguous(g, p) && (NoLoops(g) ==> MaximalPath(g, p))
  }

  lemma GoodPathsAfter(g: Graph, ps: seq<Path>, n: int, ns: seq<int>, k: nat)
    requires GoodPaths(g, ps) && Explored(g, n, ns, k)
    ensures GoodPaths(g, ps + [ForwardOf(g, ns), ReverseOf(g, ns)])
  {
    RunsAreGood(g, n, ns, k);
  }

  lemma ReportedTwo(g: Graph, ps: seq<Path>, ns: seq<int>)
    requires ns != []
    ensures AllEdges(ps + [ForwardOf(g, ns), ReverseOf(g, ns)]) == AllEdges(ps) + Added(g, ns)
  {
    AllEdgesTwo(ps, ForwardOf(g, ns), ReverseOf(g, ns));
  }

  /** What one call of explore does: nothing at a node that is a junction or has a marked edge,
      else it reports and marks a run through the node. */
  ghost predicate ExploreStep(g: Graph, n: int, t: set<int>, ps: seq<Path>, t': set<int>, ps': seq<Path>, ns: seq<int>, k: nat) {
    if ns == [] then t' == t && ps' == ps && OneMarked(g, n, t)
    else
      && Explored(g, n, ns, k) && IdBetween(g, n, ns[k + 1]) !in t && Marks(g, t, t', ns)
      && ps' == ps + [ForwardOf(g, ns), ReverseOf(g, ns)]
  }

  lemma BooksAfter(g: Graph, t: set<int>, t': set<int>, ps: seq<Path>, ps': seq<Path>, done: seq<int>, n: int,
                   ns: seq<int>, k: nat)
    requires IdsUnique(g) && BooksKept(g, t, ps, done) && ExploreStep(g, n, t, ps, t', ps', ns, k)
    ensures BooksKept(g, t', ps', done + [n])
  {
    if ns != [] {
      KeptAfter(g, t, t', AllEdges(ps), n, ns, k);
      ReportedTwo(g, ps, ns);
      GoodPathsAfter(g, ps, n, ns, k);
      MarkedNow(g, n, ns, k, t, t');
    }
    MarkedStay(g, t, t', done, n);
  }

  lemma MarkedStay(g: Graph, t: set<int>, t': set<int>, done: seq<int>, n: int)
    requires t <= t' && AllMarked(g, t, done) && OneMarked(g, n, t')
    ensures AllMarked(g, t', done + [n])
  {
  }

  /** The second loop of merge reports this edge. */
  ghost predicate IsLeftOver(g: Graph, t: set<int>, e: Edge) {
    e.id !in t && e.allowed && e.end in g
  }

  /** What the second loop of merge has reported of the first i edges. */
  ghost predicate LeftOvers(g: Graph, t: set<int>, all: seq<(int, Edge)>, i: nat, s: seq<int>) {
    && i <= |all| && NoDuplicates(s)
    && forall x :: x in s <==> exists j :: 0 <= j < i && all[j].1.id == x && IsLeftOver(g, t, all[j].1)
  }

  lemma LeftOverStep(g: Graph, t: set<int>, all: seq<(int, Edge)>, i: nat, s: seq<int>)
    requires IdsUnique(g) && ListsAllEdges(g, all) && i < |all| && LeftOvers(g, t, all, i, s)
    ensures var e := all[i].1;
            LeftOvers(g, t, all, i + 1, if IsLeftOver(g, t, e) then s + [e.id] else s)
  {
    var e := all[i].1;
    assert all[i] in all;
    if IsLeftOver(g, t, e) {
      assert forall j :: 0 <= j < i ==> all[j] in all && all[j] != all[i];
      assert e.id !in s;
      var s' := s + [e.id];
      forall x
        ensures x in s' <==> exists j :: 0 <= j < i + 1 && all[j].1.id == x && IsLeftOver(g, t, all[j].1)
      {
        if x in s {
          var j :| 0 <= j < i && all[j].1.id == x && IsLeftOver(g, t, all[j].1);
        }
      }
    }
  }

  ghost predicate SingleEdges(g: Graph, t: set<int>, ls: seq<Path>) {
    forall p | p in ls :: exists n, e :: IsSingle(g, p, n, e) && e.id !in t
  }

  /** The invariant of the second loop of merge. */
  ghost predicate SecondLoop(g: Graph, t: set<int>, ps: seq<Path>, ls: seq<Path>, all: seq<(int, Edge)>, i: nat, s: seq<int>) {
    LeftOvers(g, t, all, i, s) && AllEdges(ps + ls) == AllEdges(ps) + s && SingleEdges(g, t, ls)
  }

  lemma SecondLoopStep(g: Graph, t: set<int>, ps: seq<Path>, ls: seq<Path>, all: seq<(int, Edge)>, i: nat, s: seq<int>)
    requires IdsUnique(g) && ListsAllEdges(g, all) && i < |all| && SecondLoop(g, t, ps, ls, all, i, s)
    ensures var (n, e) := all[i];
            if IsLeftOver(g, t, e)
            then SecondLoop(g, t, ps, ls + [Path(n, e.end, [e.id])], all, i + 1, s + [e.id])
            else SecondLoop(g, t, ps, ls, all, i + 1, s)
  {
    var (n, e) := all[i];
    assert all[i] in all;
    LeftOverStep(g, t, all, i, s);
    if IsLeftOver(g, t, e) {
      ReportedOne(ps, ls, s, Path(n, e.end, [e.id]));
      SingleEdgesStep(g, t, ls, n, e);
    }
  }

  lemma ReportedOne(ps: seq<Path>, ls: seq<Path>, s: seq<int>, p: Path)
    requires AllEdges(ps + ls) == AllEdges(ps) + s
    ensures AllEdges(ps + (ls + [p])) == AllEdges(ps) + (s + p.edges)
  {
    AllEdgesAdd(ps + ls, p);
    assert ps + (ls + [p]) == ps + ls + [p];
  }

  lemma SingleEdgesStep(g: Graph, t: set<int>, ls: seq<Path>, n: int, e: Edge)
    requires SingleEdges(g, t, ls) && Leaves(g, n, e) && e.allowed && e.id !in t
    ensures SingleEdges(g, t, ls + [Path(n, e.end, [e.id])])
  {
    assert IsSingle(g, Path(n, e.end, [e.id]), n, e);
  }

  /** The two loops of merge together keep its promise. */
  lemma MergedAtTheEnd(g: Graph, t: set<int>, ps: seq<Path>, ls: seq<Path>, all: seq<(int, Edge)>, nodes: seq<int>, s: seq<int>)
    requires IdsUnique(g) && ListsAllEdges(g, all)
    requires BooksKept(g, t, ps, nodes) && forall n | n in g :: n in nodes
    requires SecondLoop(g, t, ps, ls, all, |all|, s)
    ensures Merged(g, ps + ls)
  {
    OnceAtTheEnd(g, t, AllEdges(ps), s);
    CoveredAtTheEnd(g, t, all, AllEdges(ps), s);
    ContiguousAtTheEnd(g, t, ps, ls);
    if NoLoops(g) {
      MaximalAtTheEnd(g, t, ps, ls);
    }
    if opp :| Paired(g, opp) {
      PairsSuffice(g, opp);
      WholeAtTheEnd(g, opp, t, ps, ls);
    }
  }

  lemma OnceAtTheEnd(g: Graph, t: set<int>, front: seq<int>, s: seq<int>)
    requires Kept(g, t, front) && NoDuplicates(s) && forall x :: x in s ==> x !in t
    requires forall n | n in g :: OneMarked(g, n, t)
    ensures NoDuplicates(front + s) <==> NoLoops(g)
  {
    if NoLoops(g) {
      forall i, j | 0 <= i < |front| && 0 <= j < |s|
        ensures front[i] != s[j]
      {
        assert front[i] in front && s[j] in s;
      }
      Appended(front, s);
    } else {
      LoopIsReportedTwice(g, t, front);
      if NoDuplicates(front + s) {
        FrontHasNoDuplicates(front, s);
      }
    }
  }

  lemma ContiguousAtTheEnd(g: Graph, t: set<int>, ps: seq<Path>, ls: seq<Path>)
    requires GoodPaths(g, ps) && SingleEdges(g, t, ls)
    ensures forall p | p in ps + ls :: IsRoute(g, p)
  {
    forall p | p in ps + ls
      ensures IsRoute(g, p)
    {
      ContiguousIsRoute(g, p);
    }
  }

  lemma MaximalAtTheEnd(g: Graph, t: set<int>, ps: seq<Path>, ls: seq<Path>)
    requires IdsUnique(g) && NoLoops(g) && Kept(g, t, AllEdges(ps)) && GoodPaths(g, ps) && SingleEdges(g, t, ls)
    requires forall n | n in g :: OneMarked(g, n, t)
    ensures forall p | p in ps + ls :: MaximalPath(g, p)
  {
    forall p | p in ls
      ensures MaximalPath(g, p)
    {
      var n, e :| IsSingle(g, p, n, e) && e.id !in t;
      LeftOverIsStuck(g, t, AllEdges(ps), n, e);
    }
  }

  lemma WholeAtTheEnd(g: Graph, opp: map<int, Edge>, t: set<int>, ps: seq<Path>, ls: seq<Path>)
    requires IdsUnique(g) && Paired(g, opp) && Kept(g, t, AllEdges(ps)) && GoodPaths(g, ps) && SingleEdges(g, t, ls)
    requires forall n | n in g :: OneMarked(g, n, t)
    ensures forall p | p in ps + ls :: WholePath(g, p)
  {
    PairsSuffice(g, opp);
    forall p | p in ps
      ensures WholePath(g, p)
    {
      MaximalIsWhole(g, opp, p);
    }
    forall p | p in ls
      ensures WholePath(g, p)
    {
      var n, e :| IsSingle(g, p, n, e) && e.id !in t;
      LeftOverIsMaximal(g, opp, t, AllEdges(ps), n, e);
    }
  }

  lemma MaximalIsWhole(g: Graph, opp: map<int, Edge>, p: Path)
    requires Paired(g, opp) && Mutual(g) && MaximalPath(g, p)
    ensures WholePath(g, p)
  {
    if ms :| MaximalTrail(g, ms) && p == PathOf(g, ms) {
      if Stuck(g, ms) {
        StuckAtJunctions(g, ms);
      }
    } else {
      var n, e :| IsSingle(g, p, n, e) && StuckEdge(g, n, e);
      SingleAtJunctions(g, opp, n, e);
    }
  }

  lemma SingleAtJunctions(g: Graph, opp: map<int, Edge>, n: int, e: Edge)
    requires Paired(g, opp) && Mutual(g) && Leaves(g, n, e) && e.allowed && StuckEdge(g, n, e)
    ensures !Collapsible(g, e.end)
  {
    EdgeBetweenIs(g, n, e.end);
    var f := EdgeBetween(g, n, e.end).value;
    MutualLinks(g, n, e.end);
    if Collapsible(g, e.end) {
      OnlyEdge(g, e.end, opp[e.id]);
      OnlyEdge(g, e.end, opp[f.id]);
      var q := OtherSide(g, e.end, n);
    }
  }

  lemma CoveredAtTheEnd(g: Graph, t: set<int>, all: seq<(int, Edge)>, front: seq<int>, s: seq<int>)
    requires IdsUnique(g) && ListsAllEdges(g, all) && Kept(g, t, front) && LeftOvers(g, t, all, |all|, s)
    requires forall n | n in g :: OneMarked(g, n, t)
    ensures Covers(g, front + s)
  {
    forall x | x in front + s
      ensures exists n, e :: IsReported(g, n, e, x)
    {
      if x in front {
        var a, b :| IsFound(g, a, b, x);
        EdgeBetweenIs(g, a, b);
        assert IsReported(g, a, EdgeBetween(g, a, b).value, x);
      } else {
        var j :| 0 <= j < |all| && all[j].1.id == x && IsLeftOver(g, t, all[j].1);
        assert all[j] in all;
        assert IsReported(g, all[j].0, all[j].1, x);
      }
    }
    forall n, e | Leaves(g, n, e) && e.allowed && (e.end in g || (NoLoops(g) && Collapsible(g, n)))
      ensures e.id in front + s
    {
      if e.id !in t {
        if NoLoops(g) && Collapsible(g, n) {
          OnlyEdge(g, n, e);
          MarkedAtBoth(g, t, n, e.end);
        }
        assert (n, e) in all;
        var j :| 0 <= j < |all| && all[j] == (n, e);
        assert IsLeftOver(g, t, all[j].1);
      }
    }
  }

  /** The list of all edges with the nodes they leave, each once. */
  ghost predicate ListsAllEdges(g: Graph, all: seq<(int, Edge)>) {
    && (forall p | p in all :: Leaves(g, p.0, p.1))
    && (forall n, e :: Leaves(g, n, e) ==> (n, e) in all)
    && (forall i, j :: 0 <= i < j < |all| ==> all[i] != all[j])
  }

  ghost predicate IsReported(g: Graph, n: int, e: Edge, x: int) {
    Leaves(g, n, e) && e.allowed && e.id == x && (e.end in g || Collapsible(g, n))
  }

  /** The allowed edges that lead to present nodes or leave collapsible ones. */
  ghost predicate Covers(g: Graph, s: seq<int>) {
    && (forall x | x in s :: exists n, e :: IsReported(g, n, e, x))
    && (forall n, e :: Leaves(g, n, e) && e.allowed && e.end in g ==> e.id in s)
    && (NoLoops(g) ==> forall n, e :: Leaves(g, n, e) && e.allowed && Collapsible(g, n) ==> e.id in s)
  }

  /** What merge promises on any graph: every path is contiguous; every allowed edge is part of a
      path, unless it leads to a missing node from one that cannot be passed; of exactly one path if
      no collapsible node has a loop, and only then, and then every path is maximal. */
  ghost predicate Merged(g: Graph, ps: seq<Path>) {
    && (forall p | p in ps :: IsRoute(g, p))
    && Covers(g, AllEdges(ps))
    && (NoDuplicates(AllEdges(ps)) <==> NoLoops(g))
    && (NoLoops(g) ==> forall p | p in ps :: MaximalPath(g, p))
    && (HasPairs(g) ==> NoLoops(g) && forall p | p in ps :: WholePath(g, p))
  }

  class EdgeCollapser {
    const graph: Graph
    /** The edges set in the tracker. */
    var tracked: set<int>
    /** The paths handed to the caller's function, in order. */
    var reported: seq<Path>

    constructor (graph: Graph)
      ensures this.graph == graph && tracked == {} && reported == []
    {
      this.graph, tracked, reported := graph, {}, [];
    }

    /** explore(prev, cur, forward, reverse), called where there is an edge. It ends on every graph.
        ns are the nodes walked. */
    method Walk(prev0: int, cur0: int, f0: Path, r0: Path) returns (loop: bool, f: Path, r: Path, ghost ns: seq<int>)
      requires f0.end == prev0 && r0.start == prev0 && EdgeBetween(graph, prev0, cur0).Some?
      modifies this`tracked
      ensures f.start == f0.start && r.end == r0.end
      ensures IsRun(graph, ns) && ForthAt(graph, ns, 0) && ns[0] == prev0 && ns[1] == cur0
      ensures WalkedPaths(graph, ns, f0, r0, f, r) && Marks(graph, old(tracked), tracked, ns)
      ensures loop ==> |ns| >= 3 && ns[|ns| - 1] == prev0 && IsChain(graph, ns) && OpenOrClosed(ns)
      ensures !loop ==> Ended(graph, ns)
    {
      f, r := f0, r0;
      var prev, cur := prev0, cur0;
      ns := [prev0];
      ghost var us: set<(int, int)> := {};
      var more := true;
      PendingStart(graph, prev0, cur0);
      while more
        invariant |ns| >= 1 && ns[0] == prev0 && (|ns| == 1 ==> more && cur == cur0) && (|ns| > 1 ==> ns[1] == cur0)
        invariant WalkedPaths(graph, ns, f0, r0, f, r) && Marks(graph, old(tracked), tracked, ns)
        invariant more ==> prev == ns[|ns| - 1] && Pending(graph, ns, cur, us) && EdgeBetween(graph, prev, cur).Some?
        invariant !more ==> IsChain(graph, ns) && !Collapsible(graph, ns[|ns| - 1])
        decreases more, EdgeEnds(graph) - us
      {
        var ok;
        ghost var before := ns;
        NewState(graph, before, cur, us);
        f, r, ok, ns := Step(prev, cur, f, r, before, f0, r0, old(tracked));
        if !ok {
          return false, f, r, ns;
        }
        if Collapsible(graph, cur) {
          NeighbourEdges(graph, cur, prev);
        }
        var next := NextNode(graph, prev, cur);
        if next.Some? {
          Advance(graph, before, cur, us, next.value);
          us := us + {(prev, cur)};
          prev, cur := cur, next.value;
          if cur == prev0 {
            f, r, loop, ns := Step(prev, cur, f, r, ns, f0, r0, old(tracked));
            return;
          }
        } else {
          more := false;
        }
      }
      ChainIsRun(graph, ns);
      return false, f, r, ns;
    }

    /** The two edges of one step of a walk that has come through ns. */
    method Step(prev: int, cur: int, f1: Path, r1: Path, ghost ns: seq<int>, ghost f0: Path, ghost r0: Path, ghost t0: set<int>)
      returns (f: Path, r: Path, ok: bool, ghost ns': seq<int>)
      requires IsChain(graph, ns) && Steps(graph, ns + [cur]) && prev == ns[|ns| - 1] && EdgeBetween(graph, prev, cur).Some?
      requires WalkedPaths(graph, ns, f0, r0, f1, r1) && Marks(graph, t0, tracked, ns)
      modifies this`tracked
      ensures ns' == ns + [cur] && IsRun(graph, ns') && ForthAt(graph, ns', 0)
      ensures WalkedPaths(graph, ns', f0, r0, f, r) && Marks(graph, t0, tracked, ns')
      ensures if ok then IsChain(graph, ns') && Linked(graph, prev, cur) else Ended(graph, ns')
    {
      ghost var t := tracked;
      ChainForth(graph, ns);
      f, r, ok := Mark(prev, cur, f1, r1);
      ns' := ns + [cur];
      if ok {
        WalkGrows(graph, ns, cur, f0, r0, f1, r1, t0, t);
        ChainIsRun(graph, ns');
      } else {
        WalkStops(graph, ns, cur, f0, r0, f1, r1, t0, t);
      }
    }

    /** explore(node_id). ns is the run reported, with n at place k, or [] if none is. */
    method Explore(n: int) returns (ghost ns: seq<int>, ghost k: nat)
      modifies this
      ensures ExploreStep(graph, n, old(tracked), old(reported), tracked, reported, ns, k)
    {
      ns, k := [], 0;
      var nodes := NodesReachableFrom(graph, n);
      if nodes.None? {
        return;
      }
      NeighbourEdges(graph, n, nodes.value.0);
      NeighbourEdges(graph, n, nodes.value.1);
      var e1 := FindEdgeBetween(graph, n, nodes.value.0);
      if e1.None? || e1.value in tracked {
        return;
      }
      var e2 := FindEdgeBetween(graph, n, nodes.value.1);
      if e2.None? || e2.value in tracked {
        return;
      }
      var forward, reverse;
      forward, reverse, ns, k := BothWays(n, nodes.value.0, nodes.value.1);
      reported := reported + [forward];
      reported := reported + [reverse];
    }

    /** The paths forward and reverse from a collapsible node; the second walk is left out if the
        first comes back. */
    method BothWays(n: int, first: int, second: int) returns (forward: Path, reverse: Path, ghost ns: seq<int>, ghost k: nat)
      requires Neighbours(graph, n) == Some((first, second))
      modifies this`tracked
      ensures Explored(graph, n, ns, k) && ns[k + 1] == first && Marks(graph, old(tracked), tracked, ns)
      ensures forward == ForwardOf(graph, ns) && reverse == ReverseOf(graph, ns)
    {
      NeighbourEdges(graph, n, first);
      NeighbourEdges(graph, n, second);
      ghost var t0 := tracked;
      forward, reverse := Path(n, n, []), Path(n, n, []);
      var loop, again;
      ghost var a, b;
      loop, forward, reverse, a := Walk(n, first, forward, reverse);
      OneWay(graph, n, a, forward, reverse);
      ns, k := a, 0;
      if !loop {
        ghost var t1, f1, r1 := tracked, forward, reverse;
        again, reverse, forward, b := Walk(n, second, reverse, forward);
        OpenExplored(graph, n, a, b);
        OpenPaths(graph, a, b, f1, r1, forward, reverse, t0, t1, tracked);
        ns, k := Join(a, b), |b| - 1;
      }
    }

    /** The first loop of merge: explore all nodes, in any order. */
    method ExploreAll(nodes: seq<int>)
      requires tracked == {} && reported == [] && IdsUnique(graph)
      modifies this
      ensures BooksKept(graph, tracked, reported, nodes)
    {
      var i := 0;
      while i < |nodes|
        invariant 0 <= i <= |nodes|
        invariant BooksKept(graph, tracked, reported, nodes[..i])
      {
        ExploreNext(nodes[i], nodes[..i]);
        assert nodes[..i + 1] == nodes[..i] + [nodes[i]];
        i := i + 1;
      }
      assert nodes[..i] == nodes;
    }

    method ExploreNext(n: int, ghost done: seq<int>)
      requires IdsUnique(graph) && BooksKept(graph, tracked, reported, done)
      modifies this
      ensures BooksKept(graph, tracked, reported, done + [n])
    {
      ghost var t, ps := tracked, reported;
      ghost var ns, k := Explore(n);
      BooksAfter(graph, t, tracked, ps, reported, done, n, ns, k);
    }

    /** merge: explore every node, then report each allowed edge that is still unmarked as a path
        of its own, if its end is present. all lists the edges of all tiles. */
    method MergeAll(nodes: seq<int>, all: seq<(int, Edge)>)
      requires tracked == {} && reported == [] && IdsUnique(graph)
      requires (forall n | n in graph :: n in nodes) && ListsAllEdges(graph, all)
      modifies this
      ensures Merged(graph, reported)
    {
      ExploreAll(nodes);
      ghost var t, ps, ls: seq<Path>, s: seq<int> := tracked, reported, [], [];
      assert ps + [] == ps && AllEdges(ps) + [] == AllEdges(ps);
      var i := 0;
      while i < |all|
        invariant 0 <= i <= |all| && reported == ps + ls && tracked == t
        invariant SecondLoop(graph, t, ps, ls, all, i, s)
      {
        var (n, e) := all[i];
        SecondLoopStep(graph, t, ps, ls, all, i, s);
        if e.id !in tracked {
          if e.allowed && e.end in graph {
            var p := Path(n, e.end, [e.id]);
            reported := reported + [p];
            assert ps + (ls + [p]) == ps + ls + [p];
            ls, s := ls + [p], s + [e.id];
          }
        }
        i := i + 1;
      }
      MergedAtTheEnd(graph, t, ps, ls, all, nodes, s);
    }

    /** The two edges of one step: found, appended in front or behind, and marked. */
    method Mark(prev: int, cur: int, f: Path, r: Path) returns (f': Path, r': Path, ok: bool)
      requires f.end == prev && r.start == prev
      modifies this`tracked
      ensures f'.start == f.start && r'.end == r.end
      ensures ok <==> Linked(graph, prev, cur)
      ensures EdgeBetween(graph, prev, cur).Some? ==> f' == PushBack(f, prev, IdBetween(graph, prev, cur), cur)
      ensures r' == if ok then PushFront(r, cur, IdBetween(graph, cur, prev), prev) else r
      ensures EdgeBetween(graph, prev, cur).Some? ==>
                tracked == old(tracked) + {IdBetween(graph, prev, cur)} + (if ok then {IdBetween(graph, cur, prev)} else {})
    {
      f', r', ok := f, r, false;
      var e1 := FindEdgeBetween(graph, prev, cur);
      if e1.None? {
        return;
      }
      f' := PushBack(f, prev, e1.value, cur);
      tracked := tracked + {e1.value};
      var e2 := FindEdgeBetween(graph, cur, prev);
      if e2.None? {
        return;
      }
      r' := PushFront(r, cur, e2.value, prev);
      tracked := tracked + {e2.value};
      ok := true;
    }
  }
}
