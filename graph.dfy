/** Weighted undirected graphs as the coarsening pipeline sees them: the node
    list in iteration order and the edge list in the order the edges were
    added (for an input graph, the order `G.edges(data=True)` lists them),
    plus the cut of a 0/1 assignment. */
module Graphs {

  datatype Option<T> = None | Some(value: T)

  /** One edge `(u, v, data)`; `weight` is the edge's "weight" attribute,
      absent when the edge was added without one. */
  datatype Edge = Edge(u: int, v: int, weight: Option<int>)

  datatype Graph = Graph(nodes: seq<int>, edges: seq<Edge>)

  /** `data.get("weight", 1.0)`: an edge without a weight counts as 1. */
  function W(e: Edge): int
  {
    match e.weight
    case Some(w) => w
    case None => 1
  }

  /** A position of `x` in `s`. */
  lemma {:induction false} IndexOf<T>(s: seq<T>, x: T) returns (p: nat)
    requires x in s
    ensures p < |s| && s[p] == x
  {
    if s[0] == x {
      p := 0;
    } else {
      assert x in s[1..];
      p := IndexOf(s[1..], x);
      p := p + 1;
    }
  }

  predicate Distinct<T(==)>(s: seq<T>)
  {
    forall i, j :: 0 <= i < j < |s| ==> s[i] != s[j]
  }

  function NodeSet(g: Graph): set<int>
  {
    set v | v in g.nodes
  }

  /** `(u, v)` of each edge: the edge list without its data. */
  function EdgePairs(es: seq<Edge>): (r: seq<(int, int)>)
    ensures |r| == |es| && forall i :: 0 <= i < |es| ==> r[i] == (es[i].u, es[i].v)
  {
    seq(|es|, i requires 0 <= i < |es| => (es[i].u, es[i].v))
  }

  /** Every edge joins two nodes of the graph (networkx keeps this). */
  predicate EndpointsIn(g: Graph)
  {
    forall e :: e in g.edges ==> e.u in g.nodes && e.v in g.nodes
  }

  predicate SamePair(e: Edge, f: Edge)
  {
    (e.u == f.u && e.v == f.v) || (e.u == f.v && e.v == f.u)
  }

  /** A simple weighted graph: distinct nodes, no self-loops, no two edges
      between the same pair, non-negative weights. */
  predicate WellFormed(g: Graph)
  {
    && Distinct(g.nodes)
    && EndpointsIn(g)
    && (forall e :: e in g.edges ==> e.u != e.v && W(e) >= 0)
    && (forall i, j :: 0 <= i < j < |g.edges| ==> !SamePair(g.edges[i], g.edges[j]))
  }

  predicate Adjacent(edges: seq<Edge>, a: int, b: int)
  {
    exists e :: e in edges && ((e.u == a && e.v == b) || (e.u == b && e.v == a))
  }

  /** `G.neighbors(a)` in edge order. */
  function Neighbors(edges: seq<Edge>, a: int): (r: seq<int>)
    ensures forall b :: b in r <==> Adjacent(edges, a, b)
  {
    if edges == [] then []
    else
      var e := edges[0];
      var rest := Neighbors(edges[1..], a);
      assert forall f :: f in edges <==> f == e || f in edges[1..];
      if e.u == a then [e.v] + rest
      else if e.v == a then [e.u] + rest
      else rest
  }

  /** The neighbours of `a`, as the adjacency set networkx keeps. */
  function NeighborSet(edges: seq<Edge>, a: int): (r: set<int>)
    ensures forall b :: b in r <==> Adjacent(edges, a, b)
  {
    set b | b in Neighbors(edges, a)
  }

  /** The neighbours of `a` are the nodes joined to it by an edge. */
  lemma NeighborsAmongNodes(g: Graph, a: int)
    requires EndpointsIn(g)
    ensures NeighborSet(g.edges, a) == set w | w in g.nodes && Adjacent(g.edges, a, w)
  {
    var r := NeighborSet(g.edges, a);
    forall w | w in r ensures w in g.nodes {
      assert Adjacent(g.edges, a, w);
      var f :| f in g.edges && ((f.u == a && f.v == w) || (f.u == w && f.v == a));
    }
  }

  /** `G.degree(a)`: the number of distinct neighbours. */
  function Degree(g: Graph, a: int): nat
  {
    |NeighborSet(g.edges, a)|
  }

  /** Sum of the weights of the edges incident to `a`. */
  function WeightedDegree(edges: seq<Edge>, a: int): int
  {
    if edges == [] then 0
    else
      var e := edges[|edges| - 1];
      WeightedDegree(edges[..|edges| - 1], a) + (if e.u == a || e.v == a then W(e) else 0)
  }

  function TotalWeight(edges: seq<Edge>): int
  {
    if edges == [] then 0 else TotalWeight(edges[..|edges| - 1]) + W(edges[|edges| - 1])
  }

  // ---------------------------------------------------------------------------
  // Assignments and cuts

  /** An assignment gives a value to both ends of every edge. */
  predicate Assigns(x: map<int, int>, edges: seq<Edge>)
  {
    forall e :: e in edges ==> e.u in x && e.v in x
  }

  predicate Binary(x: map<int, int>)
  {
    forall k :: k in x ==> x[k] == 0 || x[k] == 1
  }

  /** Total weight of the edges whose ends get different values. */
  function CutValue(edges: seq<Edge>, x: map<int, int>): int
    requires Assigns(x, edges)
  {
    if edges == [] then 0
    else
      var e := edges[|edges| - 1];
      CutValue(edges[..|edges| - 1], x) + (if x[e.u] != x[e.v] then W(e) else 0)
  }

  /** The cut only depends on the values at the edges' ends. */
  lemma {:induction false} CutAgrees(edges: seq<Edge>, x: map<int, int>, y: map<int, int>)
    requires Assigns(x, edges) && Assigns(y, edges)
    requires forall e :: e in edges ==> x[e.u] == y[e.u] && x[e.v] == y[e.v]
    ensures CutValue(edges, x) == CutValue(edges, y)
  {
    if edges != [] {
      CutAgrees(edges[..|edges| - 1], x, y);
    }
  }

  /** With non-negative weights a cut is never negative. */
  lemma {:induction false} CutNonNegative(edges: seq<Edge>, x: map<int, int>)
    requires Assigns(x, edges)
    requires forall e :: e in edges ==> W(e) >= 0
    ensures CutValue(edges, x) >= 0
  {
    if edges != [] {
      CutNonNegative(edges[..|edges| - 1], x);
    }
  }

  /** A constant assignment cuts nothing. */
  lemma {:induction false} CutOfConstant(edges: seq<Edge>, x: map<int, int>, c: int)
    requires Assigns(x, edges)
    requires forall e :: e in edges ==> x[e.u] == c && x[e.v] == c
    ensures CutValue(edges, x) == 0
  {
    if edges != [] {
      CutOfConstant(edges[..|edges| - 1], x, c);
    }
  }

  /** Flipping a 0/1 value in place: `sol[v] = 1 - sol[v]`. */
  function Flip(x: map<int, int>, v: int): map<int, int>
    requires v in x
  {
    x[v := 1 - x[v]]
  }
}
