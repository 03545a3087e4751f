/** The ML-guided coarsening path of src/coarsening/ml_guided.py: per-edge
    features, the choice of the `k` best-scored edges, and the greedy
    contraction of a list of edges. The learned scorer itself is foreign code;
    its scores are an input here. */
module MlGuided {
  import opened Graphs
  import opened Groups
  import opened Sorting
  import opened Matching
  import opened Contraction

  // ---------------------------------------------------------------------------
  // Edge features

  /** The members of `ns` that are neighbours of `v` and differ from `u` and `v`. */
  function CommonAmong(edges: seq<Edge>, ns: seq<int>, u: int, v: int): set<int>
  {
    if ns == [] then {}
    else
      var w := ns[|ns| - 1];
      CommonAmong(edges, ns[..|ns| - 1], u, v) + (if w in NeighborSet(edges, v) && w != u && w != v then {w} else {})
  }

  lemma {:induction false} CommonAmongIff(edges: seq<Edge>, ns: seq<int>, u: int, v: int)
    ensures forall w :: w in CommonAmong(edges, ns, u, v) <==> w in ns && Adjacent(edges, v, w) && w != u && w != v
  {
    if ns != [] {
      var init := ns[..|ns| - 1];
      CommonAmongIff(edges, init, u, v);
      assert forall w :: w in ns <==> w in init || w == ns[|ns| - 1];
    }
  }

  /** `nx.common_neighbors(G, u, v)`: the nodes adjacent to both ends, other
      than the ends themselves. */
  function CommonNeighbors(edges: seq<Edge>, u: int, v: int): set<int>
  {
    CommonAmong(edges, Neighbors(edges, u), u, v)
  }

  lemma CommonNeighborsIff(edges: seq<Edge>, u: int, v: int)
    ensures forall w :: w in CommonNeighbors(edges, u, v) <==>
              Adjacent(edges, u, w) && Adjacent(edges, v, w) && w != u && w != v
  {
    CommonAmongIff(edges, Neighbors(edges, u), u, v);
  }

  /** `clustering.get(v, 0.0)`. */
  function GetOr(m: map<int, real>, v: int, default: real): real
  {
    if v in m then m[v] else default
  }

  /** `dict(G.degree())`, built over the nodes `vs`. */
  function DegreeMap(g: Graph, vs: seq<int>): map<int, int>
  {
    if vs == [] then map[] else DegreeMap(g, vs[..|vs| - 1])[vs[|vs| - 1] := Degree(g, vs[|vs| - 1])]
  }

  /** The degree dictionary has every node of `vs`, with its degree. */
  lemma {:induction false} DegreeMapValid(g: Graph, vs: seq<int>)
    ensures forall v :: v in DegreeMap(g, vs) <==> v in vs
    ensures forall v :: v in DegreeMap(g, vs) ==> DegreeMap(g, vs)[v] == Degree(g, v)
  {
    if vs != [] {
      DegreeMapValid(g, vs[..|vs| - 1]);
      assert forall v :: v in vs <==> v in vs[..|vs| - 1] || v == vs[|vs| - 1];
    }
  }

  /** The row of features of an edge, entries in the source's column order:
      the two degrees, the two clustering coefficients, the weight, the number
      of common neighbours and the Jaccard coefficient. */
  function Features(g: Graph, clustering: map<int, real>, jaccard: (int, int) -> real, e: Edge): seq<real>
  {
    [Degree(g, e.u) as real, Degree(g, e.v) as real, GetOr(clustering, e.u, 0.0),
     GetOr(clustering, e.v, 0.0), W(e) as real, |CommonNeighbors(g.edges, e.u, e.v)| as real,
     jaccard(e.u, e.v)]
  }

  /** The common neighbours are the graph's nodes adjacent to both ends. */
  lemma CommonAmongNodes(g: Graph, u: int, v: int)
    requires EndpointsIn(g)
    ensures CommonNeighbors(g.edges, u, v)
            == set w | w in g.nodes && Adjacent(g.edges, u, w) && Adjacent(g.edges, v, w) && w != u && w != v
  {
    CommonNeighborsIff(g.edges, u, v);
    NeighborsAmongNodes(g, u);
  }

  /** What each of the seven entries counts, stated over the graph's nodes:
      the nodes adjacent to each end, the clustering value or 0.0, the weight
      or 1, and the nodes adjacent to both ends other than the ends. */
  lemma FeaturesMeaning(g: Graph, clustering: map<int, real>, jaccard: (int, int) -> real, e: Edge)
    requires EndpointsIn(g)
    ensures var row := Features(g, clustering, jaccard, e);
            && |row| == 7
            && row[0] == |set w | w in g.nodes && Adjacent(g.edges, e.u, w)| as real
            && row[1] == |set w | w in g.nodes && Adjacent(g.edges, e.v, w)| as real
            && row[2] == (if e.u in clustering then clustering[e.u] else 0.0)
            && row[3] == (if e.v in clustering then clustering[e.v] else 0.0)
            && row[4] == (if e.weight.Some? then e.weight.value as real else 1.0)
            && row[5] == |set w | w in g.nodes && Adjacent(g.edges, e.u, w) && Adjacent(g.edges, e.v, w)
                                  && w != e.u && w != e.v| as real
            && row[6] == jaccard(e.u, e.v)
  {
    NeighborsAmongNodes(g, e.u);
    NeighborsAmongNodes(g, e.v);
    CommonAmongNodes(g, e.u, e.v);
  }

  /** The features of one edge, its degrees read from the precomputed `deg`. */
  method EdgeRow(g: Graph, deg: map<int, int>, clustering: map<int, real>, jaccard: (int, int) -> real, e: Edge)
    returns (features: seq<real>)
    requires deg == DegreeMap(g, g.nodes)
    requires e.u in g.nodes && e.v in g.nodes
    ensures features == Features(g, clustering, jaccard, e)
  {
    DegreeMapValid(g, g.nodes);
    var w := W(e);
    var cn := |CommonNeighbors(g.edges, e.u, e.v)|;
    var jc := jaccard(e.u, e.v);
    features := [deg[e.u] as real, deg[e.v] as real, GetOr(clustering, e.u, 0.0),
                 GetOr(clustering, e.v, 0.0), w as real, cn as real, jc];
  }

  /** After `i` turns of the loop of `extract_edge_features`: the first `i`
      edges as pairs and their rows. */
  ghost predicate Extracted(g: Graph, clustering: map<int, real>, jaccard: (int, int) -> real,
                            i: nat, edges: seq<(int, int)>, X: seq<seq<real>>)
  {
    && i <= |g.edges| && |edges| == i && |X| == i
    && (forall t :: 0 <= t < i ==> edges[t] == (g.edges[t].u, g.edges[t].v))
    && forall t :: 0 <= t < i ==> X[t] == Features(g, clustering, jaccard, g.edges[t])
  }

  /** One turn of that loop: appends edge `i` and its row. */
  method ExtractOne(g: Graph, deg: map<int, int>, clustering: map<int, real>, jaccard: (int, int) -> real,
                    i: nat, edges: seq<(int, int)>, X: seq<seq<real>>)
    returns (edges': seq<(int, int)>, X': seq<seq<real>>)
    requires EndpointsIn(g) && deg == DegreeMap(g, g.nodes)
    requires i < |g.edges| && Extracted(g, clustering, jaccard, i, edges, X)
    ensures Extracted(g, clustering, jaccard, i + 1, edges', X')
  {
    var e := g.edges[i];
    assert e in g.edges;
    var features := EdgeRow(g, deg, clustering, jaccard, e);
    edges' := edges + [(e.u, e.v)];
    X' := X + [features];
    forall t | 0 <= t <= i ensures edges'[t] == (g.edges[t].u, g.edges[t].v) {
      if t < i {
        assert edges'[t] == edges[t];
      }
    }
    forall t | 0 <= t <= i ensures X'[t] == Features(g, clustering, jaccard, g.edges[t]) {
      if t < i {
        assert X'[t] == X[t];
      }
    }
  }

  /** `extract_edge_features(G)`: one row per edge, in edge order. The
      clustering coefficients and the Jaccard coefficient are library
      computations on floats and are given as `clustering` and `jaccard`. */
  method ExtractEdgeFeatures(g: Graph, clustering: map<int, real>, jaccard: (int, int) -> real)
    returns (edges: seq<(int, int)>, X: seq<seq<real>>)
    requires EndpointsIn(g)
    ensures edges == EdgePairs(g.edges)
    ensures |X| == |g.edges|
    ensures forall i :: 0 <= i < |X| ==> X[i] == Features(g, clustering, jaccard, g.edges[i])
  {
    var deg := DegreeMap(g, g.nodes);
    edges, X := [], [];
    for i := 0 to |g.edges|
      invariant Extracted(g, clustering, jaccard, i, edges, X)
    {
      edges, X := ExtractOne(g, deg, clustering, jaccard, i, edges, X);
    }
  }

  // ---------------------------------------------------------------------------
  // Choosing the edges to contract

  /** Python's `int(x)` on a float: truncation toward zero. */
  function Trunc(x: real): (r: int)
    ensures x >= 0.0 ==> r as real <= x < r as real + 1.0
    ensures x < 0.0 ==> r as real - 1.0 < x <= r as real
  {
    if x >= 0.0 then x.Floor else -((-x).Floor)
  }

  /** The number of edges asked for: a fraction `0 < top_k < 1` of the `n`
      edges, at least one, and otherwise `top_k` itself, truncated. */
  function KRule(topK: real, n: nat): int
  {
    if 0.0 < topK < 1.0 then
      var f := Trunc(topK * n as real);
      if f > 1 then f else 1
    else Trunc(topK)
  }

  /** A fraction asks for at least one edge and at most all of them. */
  lemma KRuleFraction(topK: real, n: nat)
    requires 0.0 < topK < 1.0
    ensures KRule(topK, n) >= 1
    ensures n >= 1 ==> KRule(topK, n) <= n
  {
    var f := Trunc(topK * n as real);
    assert topK * n as real <= n as real;
  }

  /** The start of the Python slice `s[-k:]` on a sequence of length `n`. */
  function SliceStart(k: int, n: nat): nat
  {
    var a := -k;
    if a < 0 then (if a + n < 0 then 0 else a + n)
    else if a > n then n
    else a
  }

  /** `[-k:]` keeps the last `min(k, n)` elements for `k >= 1`, everything for
      `k == 0` (the slice `[-0:]` is `[0:]`), and drops the first `-k` for `k < 0`. */
  lemma SliceKeeps(k: int, n: nat)
    ensures SliceStart(k, n) <= n
    ensures k >= 1 ==> n - SliceStart(k, n) == if k < n then k else n
    ensures k == 0 ==> SliceStart(k, n) == 0
    ensures k < 0 ==> SliceStart(k, n) == if -k < n then -k else n
  {
  }

  function Range(n: nat): (r: seq<int>)
    ensures |r| == n && forall i :: 0 <= i < n ==> r[i] == i
  {
    seq(n, i => i)
  }

  /** The score of edge index `i`. */
  function ScoreOf(scores: seq<real>): int -> real
  {
    i => if 0 <= i < |scores| then scores[i] else 0.0
  }

  /** `np.argsort(scores)`: the edge indices in ascending score order. */
  function Argsort(scores: seq<real>): seq<int>
  {
    SortBy(Range(|scores|), ScoreOf(scores))
  }

  lemma ArgsortValid(scores: seq<real>)
    ensures |Argsort(scores)| == |scores|
    ensures forall a :: 0 <= a < |scores| ==> 0 <= Argsort(scores)[a] < |scores|
    ensures forall i :: 0 <= i < |scores| ==> i in Argsort(scores)
    ensures forall a, b :: 0 <= a < b < |scores| ==> scores[Argsort(scores)[a]] <= scores[Argsort(scores)[b]]
  {
    var n := |scores|;
    var order := Argsort(scores);
    SortKeepsLength(Range(n), ScoreOf(scores));
    SortKeepsElements(Range(n), ScoreOf(scores));
    forall a | 0 <= a < n ensures 0 <= order[a] < n {
      assert order[a] in order;
    }
    forall i | 0 <= i < n ensures i in order {
      assert Range(n)[i] == i;
    }
    forall a, b | 0 <= a < b < n ensures scores[order[a]] <= scores[order[b]] {
      assert ScoreOf(scores)(order[a]) <= ScoreOf(scores)(order[b]);
    }
  }

  /** Keeping the elements of an increasing sequence keeps it increasing. */
  lemma {:induction false} KeyedIncreasing(s: seq<int>, key: int -> real, k: real)
    requires forall i, j :: 0 <= i < j < |s| ==> s[i] < s[j]
    ensures forall i, j :: 0 <= i < j < |Keyed(s, key, k)| ==> Keyed(s, key, k)[i] < Keyed(s, key, k)[j]
  {
    if s != [] {
      var rest := Keyed(s[1..], key, k);
      KeyedIncreasing(s[1..], key, k);
      KeyedIn(s[1..], key, k);
      forall y | y in rest ensures s[0] < y {
        var j :| 0 <= j < |s[1..]| && s[1..][j] == y;
      }
      var r := Pick(s[0], key, k) + rest;
      forall i, j | 0 <= i < j < |r| ensures r[i] < r[j] {
        var d := |Pick(s[0], key, k)|;
        assert r[j] == rest[j - d];
        if i >= d {
          assert r[i] == rest[i - d];
        } else {
          assert rest[j - d] in rest;
        }
      }
    }
  }

  /** The stable sort keeps equal scores in index order. */
  lemma ArgsortTies(scores: seq<real>)
    ensures |Argsort(scores)| == |scores|
    ensures forall a :: 0 <= a < |scores| ==> 0 <= Argsort(scores)[a] < |scores|
    ensures forall a, b :: 0 <= a < b < |scores| && scores[Argsort(scores)[a]] == scores[Argsort(scores)[b]]
              ==> Argsort(scores)[a] < Argsort(scores)[b]
  {
    var n := |scores|;
    var order := Argsort(scores);
    var key := ScoreOf(scores);
    ArgsortValid(scores);
    forall a, b | 0 <= a < b < |order| && scores[order[a]] == scores[order[b]] ensures order[a] < order[b] {
      var k := key(order[a]);
      var p, q := KeyedOrder(order, key, k, a, b);
      SortStable(Range(n), key, k);
      KeyedIncreasing(Range(n), key, k);
    }
  }

  /** `np.argsort(scores)[-k:]`. */
  function TopIndices(scores: seq<real>, k: int): seq<int>
  {
    var order := Argsort(scores);
    SortKeepsLength(Range(|scores|), ScoreOf(scores));
    order[SliceStart(k, |scores|)..]
  }

  /** `predict_edges_to_contract`: the edges of the `k` top-scored indices,
      `scores[i]` standing for the model's score of edge `i`. */
  function PredictEdgesToContract(g: Graph, scores: seq<real>, topK: real): (chosen: seq<(int, int)>)
    requires |scores| == |g.edges|
    ensures var top := TopIndices(scores, KRule(topK, |g.edges|));
            |chosen| == |top|
            && forall t :: 0 <= t < |chosen| ==>
                 0 <= top[t] < |g.edges| && chosen[t] == (g.edges[top[t]].u, g.edges[top[t]].v)
  {
    var top := TopIndices(scores, KRule(topK, |g.edges|));
    ArgsortValid(scores);
    seq(|top|, t requires 0 <= t < |top| => (g.edges[top[t]].u, g.edges[top[t]].v))
  }

  /** How many edges come back: `min(k, n)` for `k >= 1`, every edge for
      `k == 0`, and all but the first `-k` for `k < 0`. */
  lemma PredictCount(g: Graph, scores: seq<real>, topK: real)
    requires |scores| == |g.edges|
    ensures var n, k := |g.edges|, KRule(topK, |g.edges|);
            var r := |PredictEdgesToContract(g, scores, topK)|;
            && (k >= 1 ==> r == if k < n then k else n)
            && (k == 0 ==> r == n)
            && (k < 0 ==> r == n - if -k < n then -k else n)
  {
    var n, k := |g.edges|, KRule(topK, |g.edges|);
    ArgsortValid(scores);
    SliceKeeps(k, n);
  }

  /** Every chosen edge scores at least as much as every edge left out. */
  lemma TopKAbove(scores: seq<real>, k: int)
    ensures var top := TopIndices(scores, k);
            forall i, j :: i in top && 0 <= j < |scores| && j !in top ==>
              0 <= i < |scores| && scores[j] <= scores[i]
  {
    var n := |scores|;
    var order := Argsort(scores);
    var s := SliceStart(k, n);
    var top := TopIndices(scores, k);
    ArgsortValid(scores);
    assert top == order[s..];
    forall q | s <= q < n ensures order[q] in top {
      assert top[q - s] == order[q];
    }
    forall i, j | i in top && 0 <= j < n && j !in top ensures 0 <= i < n && scores[j] <= scores[i] {
      var t := IndexOf(top, i);
      assert order[s + t] == i;
      var p := IndexOf(order, j);
      assert p < s;
    }
  }

  /** The chosen edges come in ascending score order. */
  lemma TopKAscending(scores: seq<real>, k: int)
    ensures var top := TopIndices(scores, k);
            forall a, b :: 0 <= a < b < |top| ==>
              0 <= top[a] < |scores| && 0 <= top[b] < |scores| && scores[top[a]] <= scores[top[b]]
  {
    var n := |scores|;
    var order := Argsort(scores);
    var s := SliceStart(k, n);
    var top := TopIndices(scores, k);
    ArgsortValid(scores);
    assert top == order[s..];
    forall a, b | 0 <= a < b < |top|
      ensures 0 <= top[a] < n && 0 <= top[b] < n && scores[top[a]] <= scores[top[b]]
    {
      assert top[a] == order[s + a] && top[b] == order[s + b];
    }
  }

  /** A `k == 0` request (an integer `top_k` of 0, say) returns every edge. */
  lemma ZeroKeepsAll(g: Graph, scores: seq<real>)
    requires |scores| == |g.edges|
    ensures |PredictEdgesToContract(g, scores, 0.0)| == |g.edges|
  {
    PredictCount(g, scores, 0.0);
    assert KRule(0.0, |g.edges|) == 0;
  }

  // ---------------------------------------------------------------------------
  // Contracting a list of edges

  /** `contract_edge_list(G, edge_list)`: accepts the listed edges greedily as
      disjoint pairs, adds the unused nodes as singletons, and contracts with
      its own copy of the contraction, which has no singleton pass. */
  method ContractEdgeList(g: Graph, edgeList: seq<(int, int)>) returns (coarse: Graph, mapping: seq<seq<int>>)
    requires EndpointsIn(g)
    ensures mapping == GreedyPairs(g.nodes, edgeList)
    ensures Mapping(g, mapping) == mapping && coarse == CoarseGraph(g, mapping)
    ensures coarse.nodes == Labels(|mapping|)
  {
    var pairs := GreedyMatch(g.nodes, edgeList);
    GreedyMembers(g.nodes, edgeList);
    FillNoOp(pairs, g.nodes);
    var nodeToCoarse;
    mapping, nodeToCoarse := LabelGroups(pairs);
    assert nodeToCoarse == CoarseLabels(g, pairs);
    var keys, edgeWeights := SumEdgeWeights(g.edges, nodeToCoarse);
    var coarseEdges := BuildCoarseEdges(keys, edgeWeights);
    coarse := Graph(Labels(|mapping|), coarseEdges);
  }

  /** On a graph with distinct nodes and a list of edges of the graph, the
      groups partition the nodes and there is one coarse node fewer than fine
      nodes per accepted pair. */
  lemma ContractEdgeListShape(g: Graph, edgeList: seq<(int, int)>)
    requires Distinct(g.nodes)
    requires forall p :: p in edgeList ==> p.0 in g.nodes && p.1 in g.nodes && p.0 != p.1
    ensures Partitions(GreedyPairs(g.nodes, edgeList), g.nodes)
    ensures |GreedyPairs(g.nodes, edgeList)| == |g.nodes| - |Accepted(edgeList)|
  {
    GreedyPartitions(g.nodes, edgeList);
    GreedyCount(g.nodes, edgeList);
  }
}
