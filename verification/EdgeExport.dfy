/** The greedy edge exporter: every edge is taken once, extended forward and backward over edges of
    the same names, and never looked at again. */
module EdgeExport {
  import opened Option
  import opened EdgeTracker

  datatype Use = Ordinary | Ferry | Transit

  datatype Edge = Edge(end: int, use: Use, shortcut: bool, names: seq<string>, opposing: Option<nat>)

  /** The edges that leave a node are numbered consecutively. */
  datatype Node = Node(first: nat, count: nat)

  /** Edges by their numbers over all tiles, which are their bits in the edge set. */
  datatype Graph = Graph(edges: seq<Edge>, nodes: map<int, Node>)

  ghost predicate Leaves(g: Graph, n: int, k: nat) {
    n in g.nodes && g.nodes[n].first <= k < g.nodes[n].first + g.nodes[n].count
  }

  /** Edges end at nodes, opposing edges are edges, and each edge leaves one node. */
  ghost predicate WellFormed(g: Graph) {
    && (forall k :: 0 <= k < |g.edges| ==> g.edges[k].end in g.nodes)
    && (forall k :: 0 <= k < |g.edges| && g.edges[k].opposing.Some? ==> g.edges[k].opposing.value < |g.edges|)
    && (forall n :: n in g.nodes ==> g.nodes[n].first + g.nodes[n].count <= |g.edges|)
    && (forall n, m, k :: Leaves(g, n, k) && Leaves(g, m, k) ==> n == m)
  }

  function Opposing(g: Graph, k: nat): nat
    requires k < |g.edges| && g.edges[k].opposing.Some?
  {
    g.edges[k].opposing.value
  }

  /** Edge o is the way back of edge k. */
  ghost predicate IsWayBack(g: Graph, k: nat, o: nat)
    requires k < |g.edges|
  {
    && g.edges[k].opposing == Some(o) && o < |g.edges| && g.edges[o].opposing == Some(k)
    && Leaves(g, g.edges[k].end, o) && Leaves(g, g.edges[o].end, k)
  }

  /** Every edge has an opposing edge, whose opposing edge it is. */
  ghost predicate Mutual(g: Graph) {
    forall k :: 0 <= k < |g.edges| ==> g.edges[k].opposing.Some? && IsWayBack(g, k, g.edges[k].opposing.value)
  }

  /** Opposing edges share their names and kind. */
  ghost predicate Alike(g: Graph) {
    forall k :: 0 <= k < |g.edges| && g.edges[k].opposing.Some? && g.edges[k].opposing.value < |g.edges| ==>
                  SameKind(g.edges[k], g.edges[g.edges[k].opposing.value])
  }

  predicate SameKind(e: Edge, f: Edge) {
    e.use == f.use && e.shortcut == f.shortcut && e.names == f.names
  }

  // ----- What a run exports.

  /** Each edge leaves the node at which the one before it ends. */
  ghost predicate Contiguous(g: Graph, es: seq<nat>) {
    && (forall i :: 0 <= i < |es| ==> es[i] < |g.edges|)
    && (forall i :: 0 <= i < |es| - 1 ==> Follows(g, es, i))
  }

  ghost predicate Follows(g: Graph, es: seq<nat>, i: nat)
    requires i < |es| - 1
  {
    es[i] < |g.edges| && Leaves(g, g.edges[es[i]].end, es[i + 1])
  }

  /** Different edges and not the two directions of one. */
  predicate Apart(g: Graph, x: nat, y: nat) {
    x != y && (x < |g.edges| ==> g.edges[x].opposing != Some(y))
  }

  ghost predicate AllApart(g: Graph, es: seq<nat>) {
    forall i, j :: 0 <= i < |es| && 0 <= j < |es| && i != j ==> Apart(g, es[i], es[j])
  }

  /** No edge is exported twice over the whole run, in either direction. */
  ghost predicate OnceOnly(g: Graph, lists: seq<seq<nat>>) {
    && (forall a :: 0 <= a < |lists| ==> AllApart(g, lists[a]))
    && (forall a, b, x, y :: 0 <= a < |lists| && 0 <= b < |lists| && a != b && x in lists[a] && y in lists[b] ==> Apart(g, x, y))
  }

  /** An edge itself or its opposing edge is in the list. */
  ghost predicate Has(g: Graph, es: seq<nat>, k: nat)
    requires k < |g.edges|
  {
    k in es || (g.edges[k].opposing.Some? && g.edges[k].opposing.value in es)
  }

  ghost predicate Exported(g: Graph, lists: seq<seq<nat>>, k: nat)
    requires k < |g.edges|
  {
    exists a :: 0 <= a < |lists| && Has(g, lists[a], k)
  }

  ghost predicate OneName(g: Graph, es: seq<nat>) {
    forall x, y :: x in es && y in es && x < |g.edges| && y < |g.edges| ==> g.edges[x].names == g.edges[y].names
  }

  // ----- Marks.

  /** Everything listed is marked in both directions. */
  ghost predicate Within(g: Graph, es: seq<nat>, marks: set<nat>) {
    forall x :: x in es && x < |g.edges| ==> InBoth(g, x, marks)
  }

  predicate InBoth(g: Graph, x: nat, marks: set<nat>)
    requires x < |g.edges|
  {
    x in marks && (g.edges[x].opposing.Some? ==> g.edges[x].opposing.value in marks)
  }

  lemma FreshIsApart(g: Graph, marks: set<nat>, x: nat, y: nat)
    requires Mutual(g) && x < |g.edges| && y < |g.edges| && InBoth(g, x, marks) && !InBoth(g, y, marks)
    ensures Apart(g, x, y) && Apart(g, y, x)
  {
    assert IsWayBack(g, x, g.edges[x].opposing.value) && IsWayBack(g, y, g.edges[y].opposing.value);
  }

  /** A list of edges in hand, apart from everything listed before. */
  ghost predicate InHand(g: Graph, before: set<nat>, marks: set<nat>, es: seq<nat>) {
    && |es| > 0 && Contiguous(g, es) && AllApart(g, es) && Within(g, es, marks)
    && (forall x :: x in es && x < |g.edges| ==> !InBoth(g, x, before))
    && (Alike(g) ==> OneName(g, es))
    && (forall k :: k in marks && k !in before && k < |g.edges| ==> Has(g, es, k))
  }

  lemma OneMore(g: Graph, before: set<nat>, marks: set<nat>, es: seq<nat>, x: nat, more: seq<nat>)
    requires Mutual(g) && before <= marks && InHand(g, before, marks, es)
    requires x < |g.edges| && !InBoth(g, x, marks) && (Alike(g) ==> OneName(g, more))
    requires more == es + [x] || more == [x] + es
    requires Contiguous(g, more)
    ensures InHand(g, before, marks + {x, Opposing(g, x)}, more)
  {
    var o := Opposing(g, x);
    assert IsWayBack(g, x, o);
    forall y | y in es
      ensures Apart(g, x, y) && Apart(g, y, x)
    {
      FreshIsApart(g, marks, y, x);
    }
    assert forall y :: y in more <==> y in es || y == x;
    assert forall k | k < |g.edges| && k in marks + {x, o} && k !in before :: Has(g, more, k);
  }

  lemma Forward(g: Graph, es: seq<nat>, x: nat)
    requires |es| > 0 && Contiguous(g, es) && x < |g.edges| && Leaves(g, g.edges[es[|es| - 1]].end, x)
    ensures Contiguous(g, es + [x])
  {
    var more := es + [x];
    forall i | 0 <= i < |more| - 1
      ensures Follows(g, more, i)
    {
      if i < |es| - 1 {
        assert Follows(g, es, i);
      }
    }
  }

  lemma Backward(g: Graph, es: seq<nat>, edge: nat, x: nat)
    requires WellFormed(g) && Mutual(g) && |es| > 0 && Contiguous(g, es) && edge < |g.edges|
    requires Opposing(g, edge) == es[0] && x < |g.edges| && Leaves(g, g.edges[edge].end, x)
    ensures Contiguous(g, [Opposing(g, x)] + es)
  {
    var more := [Opposing(g, x)] + es;
    assert IsWayBack(g, x, g.edges[x].opposing.value) && IsWayBack(g, edge, g.edges[edge].opposing.value);
    forall i | 0 <= i < |more| - 1
      ensures Follows(g, more, i)
    {
      if i > 0 {
        assert Follows(g, es, i - 1);
      }
    }
  }

  lemma SameNames(g: Graph, es: seq<nat>, x: nat, more: seq<nat>)
    requires |es| > 0 && OneName(g, es) && x < |g.edges| && es[0] < |g.edges| && g.edges[x].names == g.edges[es[0]].names
    requires more == es + [x] || more == [x] + es
    ensures OneName(g, more)
  {
    assert forall y :: y in more <==> y in es || y == x;
    assert es[0] in es;
  }

  /** The list in hand, on graphs in which every edge has its way back. */
  ghost predicate Going(g: Graph, before: set<nat>, marks: set<nat>, es: seq<nat>, names: seq<string>)
    requires WellFormed(g)
  {
    Mutual(g) ==>
      && before <= marks && InHand(g, before, marks, es)
      && (Alike(g) ==> g.edges[es[0]].names == names)
  }

  predicate Spans(es: seq<nat>, first: nat, last: nat) {
    |es| > 0 && es[0] == first && es[|es| - 1] == last
  }

  /** The list begins with the opposing edge of an edge. */
  predicate SpansBack(g: Graph, es: seq<nat>, edge: nat, last: nat)
    requires edge < |g.edges|
  {
    |es| > 0 && es[|es| - 1] == last && g.edges[edge].opposing == Some(es[0])
  }

  lemma GoneForward(g: Graph, before: set<nat>, marks: set<nat>, es: seq<nat>, first: nat, edge: nat, x: nat, names: seq<string>)
    requires WellFormed(g) && Mutual(g) && Going(g, before, marks, es, names) && edge < |g.edges| && Spans(es, first, edge)
    requires x < |g.edges| && Leaves(g, g.edges[edge].end, x) && x !in marks && g.edges[x].names == names
    ensures Going(g, before, marks + {x, Opposing(g, x)}, es + [x], names) && Spans(es + [x], first, x)
  {
    Forward(g, es, x);
    if Alike(g) {
      SameNames(g, es, x, es + [x]);
    }
    OneMore(g, before, marks, es, x, es + [x]);
  }

  lemma GoneBackward(g: Graph, before: set<nat>, marks: set<nat>, es: seq<nat>, edge: nat, last: nat, x: nat, names: seq<string>)
    requires WellFormed(g) && Mutual(g) && Going(g, before, marks, es, names) && edge < |g.edges| && SpansBack(g, es, edge, last)
    requires x < |g.edges| && Leaves(g, g.edges[edge].end, x) && x !in marks && g.edges[x].names == names
    ensures Going(g, before, marks + {x, Opposing(g, x)}, [Opposing(g, x)] + es, names)
    ensures Opposing(g, x) < |g.edges| && SpansBack(g, [Opposing(g, x)] + es, x, last)
  {
    var o := Opposing(g, x);
    Backward(g, es, edge, x);
    assert IsWayBack(g, x, g.edges[x].opposing.value);
    if Alike(g) {
      assert SameKind(g.edges[x], g.edges[g.edges[x].opposing.value]);
      SameNames(g, es, o, [o] + es);
    }
    OneMore(g, before, marks, es, o, [o] + es);
    assert {o, Opposing(g, o)} == {x, o};
  }

  // ----- A whole run.

  /** An edge that the exporter starts a list with unless it has been passed already. */
  predicate Exportable(e: Edge, ferries: bool, unnamed: bool) {
    OfKind(e, ferries, unnamed) && !e.shortcut
  }

  predicate OfKind(e: Edge, ferries: bool, unnamed: bool) {
    e.use != Transit && (ferries || e.use != Ferry) && (e.names != [] || unnamed)
  }

  /** No shortcut leaves the end of an edge that can be exported and has its names. */
  ghost predicate Separate(g: Graph, ferries: bool, unnamed: bool) {
    forall k: nat, s: nat :: KeepOff(g, k, s, ferries, unnamed)
  }

  ghost predicate KeepOff(g: Graph, k: nat, s: nat, ferries: bool, unnamed: bool) {
    k < |g.edges| && s < |g.edges| && Leaves(g, g.edges[k].end, s) && g.edges[s].names == g.edges[k].names ==>
      Exportable(g.edges[k], ferries, unnamed) && OfKind(g.edges[s], ferries, unnamed) ==> !g.edges[s].shortcut
  }

  /** What the walk takes from a node is the first candidate there. */
  ghost predicate Candidate(g: Graph, marks: set<nat>, k: nat, names: seq<string>, ferries: bool)
    requires k < |g.edges|
  {
    && k !in marks && (ferries || g.edges[k].use != Ferry) && g.edges[k].use != Transit
    && g.edges[k].names == names
  }

  /** A list that grows from k cannot take the shortcut s with its first step. */
  ghost predicate NotFirst(g: Graph, k: nat, s: nat, ferries: bool, unnamed: bool) {
    k < |g.edges| && s < |g.edges| && g.edges[k].opposing.Some? && Leaves(g, g.edges[k].end, s) && g.edges[s].shortcut ==>
      !(Exportable(g.edges[k], ferries, unnamed) && Candidate(g, {k, Opposing(g, k)}, s, g.edges[k].names, ferries))
  }

  /** That is exactly when no shortcut is a candidate for the first step of a list, with nothing marked
      but the edge that the list grows from, in both directions. */
  lemma SeparateIff(g: Graph, ferries: bool, unnamed: bool)
    requires WellFormed(g) && Mutual(g) && Alike(g)
    ensures Separate(g, ferries, unnamed) <==> forall k: nat, s: nat :: NotFirst(g, k, s, ferries, unnamed)
  {
    forall k: nat, s: nat
      ensures NotFirst(g, k, s, ferries, unnamed) <==> KeepOff(g, k, s, ferries, unnamed)
    {
      if k < |g.edges| && s < |g.edges| {
        OtherThanBoth(g, k, s);
      }
    }
  }

  lemma OtherThanBoth(g: Graph, k: nat, s: nat)
    requires Mutual(g) && Alike(g) && k < |g.edges| && s < |g.edges|
    ensures g.edges[k].opposing.Some? && (!g.edges[k].shortcut && g.edges[s].shortcut ==> s !in {k, Opposing(g, k)})
  {
    assert IsWayBack(g, k, g.edges[k].opposing.value);
    assert SameKind(g.edges[k], g.edges[Opposing(g, k)]);
  }

  /** What is listed may be exported, but for being a shortcut, which the walk does not look at. */
  ghost predicate Kinds(g: Graph, es: seq<nat>, ferries: bool, unnamed: bool) {
    Mutual(g) && Alike(g) ==> forall x :: x in es ==> RightKind(g, x, ferries, unnamed)
  }

  ghost predicate RightKind(g: Graph, x: nat, ferries: bool, unnamed: bool) {
    x < |g.edges| ==>
      OfKind(g.edges[x], ferries, unnamed) && (Separate(g, ferries, unnamed) ==> !g.edges[x].shortcut)
  }

  lemma KindsForward(g: Graph, es: seq<nat>, edge: nat, x: nat, ferries: bool, unnamed: bool)
    requires Mutual(g) && Kinds(g, es, ferries, unnamed) && edge in es && edge < |g.edges| && x < |g.edges|
    requires Leaves(g, g.edges[edge].end, x) && (Alike(g) ==> g.edges[x].names == g.edges[edge].names)
    requires g.edges[x].use != Transit && (ferries || g.edges[x].use != Ferry)
    ensures Kinds(g, es + [x], ferries, unnamed)
  {
    assert Alike(g) ==> RightKind(g, edge, ferries, unnamed);
    assert Separate(g, ferries, unnamed) ==> KeepOff(g, edge, x, ferries, unnamed);
  }

  lemma KindsBackward(g: Graph, es: seq<nat>, edge: nat, x: nat, ferries: bool, unnamed: bool)
    requires Mutual(g) && Kinds(g, es, ferries, unnamed) && |es| > 0 && edge < |g.edges| && x < |g.edges|
    requires g.edges[edge].opposing == Some(es[0]) && es[0] < |g.edges|
    requires Leaves(g, g.edges[edge].end, x) && (Alike(g) ==> g.edges[x].names == g.edges[es[0]].names)
    requires g.edges[x].use != Transit && (ferries || g.edges[x].use != Ferry)
    ensures Kinds(g, [Opposing(g, x)] + es, ferries, unnamed)
  {
    if Alike(g) {
      assert SameKind(g.edges[edge], g.edges[es[0]]) && IsWayBack(g, x, g.edges[x].opposing.value);
      assert SameKind(g.edges[x], g.edges[Opposing(g, x)]);
      assert RightKind(g, es[0], ferries, unnamed);
      assert Separate(g, ferries, unnamed) ==> KeepOff(g, edge, x, ferries, unnamed);
    }
  }

  /** The list that grows forward, on graphs in which every edge has its way back. */
  ghost predicate Forth(g: Graph, before: set<nat>, marks: set<nat>, es: seq<nat>, names: seq<string>,
                        ferries: bool, unnamed: bool, first: nat, edge: nat)
    requires WellFormed(g)
  {
    Mutual(g) ==> Going(g, before, marks, es, names) && Kinds(g, es, ferries, unnamed) && Spans(es, first, edge)
  }

  lemma TakenForward(g: Graph, before: set<nat>, marks: set<nat>, es: seq<nat>, names: seq<string>,
                     ferries: bool, unnamed: bool, first: nat, edge: nat, x: nat)
    requires WellFormed(g) && Forth(g, before, marks, es, names, ferries, unnamed, first, edge) && edge < |g.edges|
    requires x < |g.edges| && Leaves(g, g.edges[edge].end, x) && Candidate(g, marks, x, names, ferries)
    ensures Mutual(g) ==> Forth(g, before, marks + {x, Opposing(g, x)}, es + [x], names, ferries, unnamed, first, x)
  {
    if Mutual(g) {
      GoneForward(g, before, marks, es, first, edge, x, names);
      assert edge in es && es[0] in es;
      KindsForward(g, es, edge, x, ferries, unnamed);
    }
  }

  ghost predicate AllKinds(g: Graph, lists: seq<seq<nat>>, ferries: bool, unnamed: bool) {
    forall a :: 0 <= a < |lists| ==> Kinds(g, lists[a], ferries, unnamed)
  }

  ghost predicate ListsRight(g: Graph, marks: set<nat>, lists: seq<seq<nat>>) {
    && OnceOnly(g, lists)
    && (forall a :: 0 <= a < |lists| ==> |lists[a]| > 0 && Contiguous(g, lists[a]) && Within(g, lists[a], marks))
    && (Alike(g) ==> forall a :: 0 <= a < |lists| ==> OneName(g, lists[a]))
  }

  ghost predicate Covered(g: Graph, marks: set<nat>, lists: seq<seq<nat>>, ferries: bool, unnamed: bool) {
    forall k :: k in marks && k < |g.edges| && Exportable(g.edges[k], ferries, unnamed) ==> Exported(g, lists, k)
  }

  /** Without unnamed, every listed edge has a name, and without ferries none is a ferry. */
  lemma ListedKinds(g: Graph, marks: set<nat>, lists: seq<seq<nat>>, ferries: bool, unnamed: bool)
    requires Mutual(g) && Alike(g) && ListsRight(g, marks, lists) && AllKinds(g, lists, ferries, unnamed)
    ensures forall a, x :: 0 <= a < |lists| && x in lists[a] ==>
              && x < |g.edges| && g.edges[x].use != Transit
              && (!ferries ==> g.edges[x].use != Ferry) && (!unnamed ==> g.edges[x].names != [])
  {
    forall a, x | 0 <= a < |lists| && x in lists[a]
      ensures x < |g.edges| && g.edges[x].use != Transit
      ensures (!ferries ==> g.edges[x].use != Ferry) && (!unnamed ==> g.edges[x].names != [])
    {
      InLists(g, marks, lists, a, x);
      assert Kinds(g, lists[a], ferries, unnamed);
      assert RightKind(g, x, ferries, unnamed);
    }
  }

  lemma AllExported(g: Graph, marks: set<nat>, lists: seq<seq<nat>>, ferries: bool, unnamed: bool)
    requires Covered(g, marks, lists, ferries, unnamed) && forall k: nat :: k < |g.edges| ==> k in marks
    ensures forall k: nat :: k < |g.edges| && g.edges[k].use != Transit && (g.edges[k].use == Ferry ==> ferries)
                             && (g.edges[k].names == [] ==> unnamed) && !g.edges[k].shortcut ==>
                               Exported(g, lists, k)
  {
    forall k: nat | k < |g.edges| && g.edges[k].use != Transit && (g.edges[k].use == Ferry ==> ferries)
                    && (g.edges[k].names == [] ==> unnamed) && !g.edges[k].shortcut
      ensures Exported(g, lists, k)
    {
      assert Exportable(g.edges[k], ferries, unnamed);
    }
  }

  lemma OneMoreList(g: Graph, before: set<nat>, marks: set<nat>, lists: seq<seq<nat>>, es: seq<nat>)
    requires Mutual(g) && before <= marks
    requires ListsRight(g, before, lists) && InHand(g, before, marks, es)
    ensures ListsRight(g, marks, lists + [es])
  {
    var more := lists + [es];
    forall a, b, x, y | 0 <= a < |more| && 0 <= b < |more| && a != b && x in more[a] && y in more[b]
      ensures Apart(g, x, y)
    {
      if a == |lists| {
        InLists(g, before, lists, b, y);
        FreshIsApart(g, before, y, x);
      } else if b == |lists| {
        InLists(g, before, lists, a, x);
        FreshIsApart(g, before, x, y);
      }
    }
  }

  lemma InLists(g: Graph, marks: set<nat>, lists: seq<seq<nat>>, a: nat, x: nat)
    requires ListsRight(g, marks, lists) && a < |lists| && x in lists[a]
    ensures x < |g.edges| && InBoth(g, x, marks)
  {
    assert Within(g, lists[a], marks) && Contiguous(g, lists[a]);
  }

  lemma CoveredMore(g: Graph, before: set<nat>, marks: set<nat>, lists: seq<seq<nat>>, es: seq<nat>, ferries: bool, unnamed: bool)
    requires Covered(g, before, lists, ferries, unnamed) && InHand(g, before, marks, es)
    ensures Covered(g, marks, lists + [es], ferries, unnamed)
  {
    var more := lists + [es];
    forall k | k in marks && k < |g.edges| && Exportable(g.edges[k], ferries, unnamed)
      ensures Exported(g, more, k)
    {
      if k in before {
        var a :| 0 <= a < |lists| && Has(g, lists[a], k);
        assert more[a] == lists[a];
      } else {
        assert more[|lists|] == es;
      }
    }
  }

  class Exporter {
    const g: Graph
    const ferries: bool
    const unnamed: bool
    const bits: Bitset
    ghost var marks: set<nat>

    constructor (g: Graph, ferries: bool, unnamed: bool)
      requires WellFormed(g)
      ensures Valid() && marks == {} && fresh(bits.words)
      ensures this.g == g && this.ferries == ferries && this.unnamed == unnamed
    {
      this.g, this.ferries, this.unnamed := g, ferries, unnamed;
      bits := new Bitset(|g.edges|);
      marks := {};
    }

    /** The bits say which edges have been marked. */
    ghost predicate Valid()
      reads this, bits.words
    {
      && WellFormed(g) && |g.edges| <= 64 * bits.words.Length
      && (forall k :: k in marks ==> k < |g.edges|)
      && (forall k: nat :: k < |g.edges| ==> (HasBit(bits.words[..], k) <==> k in marks))
    }

    ghost function Unmarked(): set<nat>
      reads this
    {
      set k: nat | k < |g.edges| && k !in marks
    }

    method Mark(k: nat)
      requires Valid() && k < |g.edges|
      modifies this, bits.words
      ensures Valid() && marks == old(marks) + {k}
    {
      var _ := bits.Set(k);
      marks := marks + {k};
    }

    /** Nothing more can be taken from the end of the edge. */
    ghost predicate Stuck(edge: nat, names: seq<string>)
      reads this
      requires edge < |g.edges| && WellFormed(g)
    {
      forall k :: Leaves(g, g.edges[edge].end, k) ==> !Takes(k, names)
    }

    /** At neither end of the list can anything more be taken. */
    ghost predicate Greedy(es: seq<nat>, names: seq<string>)
      reads this
      requires WellFormed(g)
    {
      && |es| > 0 && es[|es| - 1] < |g.edges| && Stuck(es[|es| - 1], names)
      && exists k :: 0 <= k < |g.edges| && g.edges[k].opposing == Some(es[0]) && Stuck(k, names)
    }

    /** What the walk may take from a node. */
    ghost predicate Takes(k: nat, names: seq<string>)
      reads this
      requires k < |g.edges|
    {
      Candidate(g, marks, k, names, ferries)
    }

    /** next: an unmarked edge of the same names from the end of the edge, if there is one. */
    method Next(edge: nat, names: seq<string>) returns (r: Option<nat>)
      requires Valid() && edge < |g.edges|
      ensures match r
        case Some(k) => k < |g.edges| && Leaves(g, g.edges[edge].end, k) && Takes(k, names)
        case None => Stuck(edge, names)
    {
      var node := g.nodes[g.edges[edge].end];
      for i := 0 to node.count
        invariant forall k :: node.first <= k < node.first + i ==> !Takes(k, names)
      {
        var id := node.first + i;
        var _, used := bits.Get(id);
        if used {
          continue;
        }
        var candidate := g.edges[id];
        if !ferries && candidate.use == Ferry {
          continue;
        }
        if candidate.use == Transit {
          continue;
        }
        if names == candidate.names {
          return Some(id);
        }
      }
      return None;
    }

    /** Marks an edge of the walk and its opposing edge, if it has one. */
    method TakeBoth(k: nat) returns (other: Option<nat>)
      requires Valid() && k < |g.edges| && k !in marks
      modifies this, bits.words
      ensures Valid() && other == g.edges[k].opposing && old(marks) <= marks
      ensures other.Some? ==> marks == old(marks) + {k, Opposing(g, k)}
      ensures Unmarked() < old(Unmarked())
    {
      Mark(k);
      other := g.edges[k].opposing;
      if other.Some? {
        Mark(other.value);
      }
      assert Unmarked() <= old(Unmarked()) && k in old(Unmarked()) && k !in Unmarked();
    }

    /** The walk forward from the last edge of the list. */
    method GoForward(from: nat, names: seq<string>, list: seq<nat>, ghost before: set<nat>) returns (es: seq<nat>)
      requires Valid() && from < |g.edges| && Going(g, before, marks, list, names) && Kinds(g, list, ferries, unnamed)
      requires Mutual(g) ==> from == list[|list| - 1]
      modifies this, bits.words
      ensures Valid() && old(marks) <= marks && Going(g, before, marks, es, names) && Kinds(g, es, ferries, unnamed)
      ensures Mutual(g) ==> es[0] == list[0] && Stuck(es[|es| - 1], names)
    {
      es := list;
      ghost var first: nat := if list == [] then 0 else list[0];
      var edge: nat := from;
      var next: Option<nat> := Next(edge, names);
      while next.Some?
        invariant Valid() && old(marks) <= marks && edge < |g.edges|
        invariant Forth(g, before, marks, es, names, ferries, unnamed, first, edge)
        invariant next.Some? ==> next.value < |g.edges| && Leaves(g, g.edges[edge].end, next.value) && Takes(next.value, names)
        invariant next.None? ==> Stuck(edge, names)
        decreases Unmarked()
      {
        es := AppendNext(next.value, es, edge, names, before, first);
        edge := next.value;
        next := Next(edge, names);
      }
    }

    /** Takes the next edge, which is kept if it has an opposing edge. */
    method AppendNext(x: nat, list: seq<nat>, ghost edge: nat, ghost names: seq<string>, ghost before: set<nat>, ghost first: nat)
      returns (es: seq<nat>)
      requires Valid() && edge < |g.edges| && x < |g.edges| && Leaves(g, g.edges[edge].end, x) && Takes(x, names)
      requires Forth(g, before, marks, list, names, ferries, unnamed, first, edge)
      modifies this, bits.words
      ensures Valid() && old(marks) <= marks && Unmarked() < old(Unmarked())
      ensures Forth(g, before, marks, es, names, ferries, unnamed, first, x)
    {
      TakenForward(g, before, marks, list, names, ferries, unnamed, first, edge, x);
      var other := TakeBoth(x);
      es := if other.Some? then list + [x] else list;
    }

    /** The walk backward from the opposing edge of the first edge of the list. */
    method GoBackward(from: nat, names: seq<string>, list: seq<nat>, ghost before: set<nat>)
      returns (es: seq<nat>, ghost to: nat)
      requires Valid() && from < |g.edges| && Going(g, before, marks, list, names) && Kinds(g, list, ferries, unnamed)
      requires Mutual(g) ==> SpansBack(g, list, from, list[|list| - 1])
      modifies this, bits.words
      ensures Valid() && old(marks) <= marks && Going(g, before, marks, es, names) && Kinds(g, es, ferries, unnamed)
      ensures to < |g.edges| && Stuck(to, names)
      ensures Mutual(g) ==> SpansBack(g, es, to, list[|list| - 1])
    {
      es := list;
      var edge: nat := from;
      var next: Option<nat> := Next(edge, names);
      while next.Some?
        invariant Valid() && old(marks) <= marks && Going(g, before, marks, es, names) && edge < |g.edges|
        invariant Mutual(g) ==> SpansBack(g, es, edge, list[|list| - 1])
        invariant Kinds(g, es, ferries, unnamed)
        invariant next.Some? ==> next.value < |g.edges| && Leaves(g, g.edges[edge].end, next.value) && Takes(next.value, names)
        invariant next.None? ==> Stuck(edge, names)
        decreases Unmarked()
      {
        ghost var was := marks;
        if Mutual(g) {
          GoneBackward(g, before, was, es, edge, list[|list| - 1], next.value, names);
          KindsBackward(g, es, edge, next.value, ferries, unnamed);
        }
        edge := next.value;
        var other := TakeBoth(edge);
        if other.Some? {
          es := [other.value] + es;
        }
        next := Next(edge, names);
      }
      to := edge;
    }

    /** The export: order is the order in which the tiles' edges come up. */
    method ExportAll(order: seq<nat>) returns (lists: seq<seq<nat>>)
      requires Valid() && marks == {} && forall k :: k in order <==> k < |g.edges|
      modifies this, bits.words
      ensures Valid() && forall k: nat :: k < |g.edges| ==> k in marks
      ensures Mutual(g) ==> ListsRight(g, marks, lists)
      ensures AllKinds(g, lists, ferries, unnamed)
      ensures Mutual(g) && Alike(g) ==>
                forall a, x :: 0 <= a < |lists| && x in lists[a] ==>
                  && x < |g.edges| && g.edges[x].use != Transit
                  && (!ferries ==> g.edges[x].use != Ferry) && (!unnamed ==> g.edges[x].names != [])
      ensures Mutual(g) && Alike(g) ==>
                forall k: nat :: k < |g.edges| && g.edges[k].use != Transit && (g.edges[k].use == Ferry ==> ferries)
                                 && (g.edges[k].names == [] ==> unnamed) && !g.edges[k].shortcut ==>
                                   Exported(g, lists, k)
    {
      lists := [];
      for i := 0 to |order|
        invariant Valid() && forall k :: k in order[..i] ==> k in marks
        invariant Books(g, marks, lists, ferries, unnamed)
      {
        assert order[i] in order;
        lists := ExportFrom(order[i], lists);
      }
      forall k: nat | k < |g.edges|
        ensures k in marks
      {
        assert order[..|order|] == order;
      }
      if Mutual(g) && Alike(g) {
        ListedKinds(g, marks, lists, ferries, unnamed);
        AllExported(g, marks, lists, ferries, unnamed);
      }
    }

    /** The list that grows from one edge, as far as it goes in both directions. */
    method BuildList(k: nat, ghost before: set<nat>) returns (es: seq<nat>)
      requires Valid() && k < |g.edges| && k !in before && g.edges[k].opposing.Some?
      requires marks == before + {k, Opposing(g, k)} && Exportable(g.edges[k], ferries, unnamed)
      modifies this, bits.words
      ensures Valid() && old(marks) <= marks && Going(g, before, marks, es, g.edges[k].names)
      ensures Kinds(g, es, ferries, unnamed)
      ensures Mutual(g) ==> Greedy(es, g.edges[k].names)
    {
      var edge := g.edges[k];
      if Mutual(g) {
        Started(g, before, marks, k, edge.names);
      }
      es := GoForward(k, edge.names, [k], before);
      ghost var to;
      es, to := GoBackward(edge.opposing.value, edge.names, es, before);
    }

    /** One edge that comes up. */
    method ExportFrom(k: nat, lists: seq<seq<nat>>) returns (more: seq<seq<nat>>)
      requires Valid() && k < |g.edges| && Books(g, marks, lists, ferries, unnamed)
      modifies this, bits.words
      ensures Valid() && old(marks) <= marks && k in marks && Books(g, marks, more, ferries, unnamed)
      ensures more == lists
              || (|more| == |lists| + 1 && more[..|lists|] == lists && (Mutual(g) ==> Greedy(more[|lists|], g.edges[k].names)))
    {
      more := lists;
      var _, used := bits.Get(k);
      if used {
        return;
      }
      ghost var before := marks;
      Mark(k);
      var edge := g.edges[k];
      if edge.use == Transit {
        PassedOver(g, before, marks, lists, k, ferries, unnamed);
        return;
      }
      if edge.opposing.None? {
        return;
      }
      var opposing := edge.opposing.value;
      Mark(opposing);
      if !Exportable(edge, ferries, unnamed) {
        PassedOver(g, before, marks, lists, k, ferries, unnamed);
        return;
      }
      var es := BuildList(k, before);
      more := lists + [es];
      BooksMore(g, before, marks, lists, es, edge.names, ferries, unnamed);
    }
  }

  /** What holds of the lists so far. */
  ghost predicate Books(g: Graph, marks: set<nat>, lists: seq<seq<nat>>, ferries: bool, unnamed: bool) {
    && (Mutual(g) ==> ListsRight(g, marks, lists))
    && AllKinds(g, lists, ferries, unnamed)
    && (Mutual(g) && Alike(g) ==> Covered(g, marks, lists, ferries, unnamed))
  }

  lemma BooksMore(g: Graph, before: set<nat>, marks: set<nat>, lists: seq<seq<nat>>, es: seq<nat>, names: seq<string>,
                  ferries: bool, unnamed: bool)
    requires WellFormed(g) && Books(g, before, lists, ferries, unnamed)
    requires Going(g, before, marks, es, names) && Kinds(g, es, ferries, unnamed)
    ensures Books(g, marks, lists + [es], ferries, unnamed)
  {
    if Mutual(g) {
      OneMoreList(g, before, marks, lists, es);
      if Alike(g) {
        CoveredMore(g, before, marks, lists, es, ferries, unnamed);
      }
    }
  }

  /** Two edges of one name, of which the second is a shortcut, each with its way back. */
  const SHORTCUT_AHEAD := Graph(
    [Edge(1, Ordinary, false, ["A"], Some(1)), Edge(0, Ordinary, false, ["A"], Some(0)),
     Edge(2, Ordinary, true, ["A"], Some(3)), Edge(1, Ordinary, true, ["A"], Some(2))],
    map[0 := Node(0, 1), 1 := Node(1, 2), 2 := Node(3, 1)])

  lemma ShortcutAhead()
    ensures WellFormed(SHORTCUT_AHEAD) && Mutual(SHORTCUT_AHEAD) && Alike(SHORTCUT_AHEAD)
  {
  }

  lemma ShortcutIsNotSeparate()
    ensures !Separate(SHORTCUT_AHEAD, true, true)
  {
    var g := SHORTCUT_AHEAD;
    assert Exportable(g.edges[0], true, true) && Leaves(g, g.edges[0].end, 2) && g.edges[2].shortcut;
    assert !KeepOff(g, 0, 2, true, true);
  }

  /** The list that grows from the first edge takes the shortcut as well. */
  method ShortcutIsExported() returns (es: seq<nat>)
    ensures 2 in es || 3 in es
  {
    var g := SHORTCUT_AHEAD;
    ShortcutAhead();
    var x := new Exporter(g, true, true);
    x.Mark(0);
    x.Mark(1);
    es := x.BuildList(0, {});
    assert Leaves(g, g.edges[0].end, 2);
    assert x.Stuck(0, ["A"]) ==> 2 in x.marks;
    TakesBoth(x.marks, es);
  }

  lemma TakesBoth(marks: set<nat>, es: seq<nat>)
    requires InHand(SHORTCUT_AHEAD, {}, marks, es)
    requires (es[|es| - 1] == 0 || es[0] == 1) && es[|es| - 1] < 4 ==> 2 in marks
    ensures 2 in es || 3 in es
  {
    var g, l := SHORTCUT_AHEAD, |es| - 1;
    assert 2 in marks ==> Has(g, es, 2);
    assert es[0] in es && es[l] in es && es[0] < 4 && es[l] < 4;
    assert l > 0 ==> Apart(g, es[0], es[l]);
  }

  lemma Started(g: Graph, before: set<nat>, marks: set<nat>, k: nat, names: seq<string>)
    requires WellFormed(g) && Mutual(g) && k < |g.edges| && k !in before && g.edges[k].names == names
    requires marks == before + {k, Opposing(g, k)}
    ensures Going(g, before, marks, [k], names) && SpansBack(g, [k], Opposing(g, k), k)
  {
    assert IsWayBack(g, k, g.edges[k].opposing.value);
  }

  lemma PassedOver(g: Graph, before: set<nat>, marks: set<nat>, lists: seq<seq<nat>>, k: nat, ferries: bool, unnamed: bool)
    requires WellFormed(g) && k < |g.edges| && !Exportable(g.edges[k], ferries, unnamed) && before <= marks
    requires marks <= before + {k} || (g.edges[k].opposing.Some? && marks <= before + {k, Opposing(g, k)})
    ensures Books(g, before, lists, ferries, unnamed) ==> Books(g, marks, lists, ferries, unnamed)
  {
  }
}
