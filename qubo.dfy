/** src/quantum/qubo.py: the QUBO matrix of a MaxCut instance and the
    quadratic energy `x^T Q x`. */
module Qubo {
  import opened Graphs

  // ---------------------------------------------------------------------------
  // Node indices

  /** `idx = {v: i for i, v in enumerate(node_list)}`. */
  function IndexMap(nodes: seq<int>): map<int, int>
  {
    if nodes == [] then map[] else IndexMap(nodes[..|nodes| - 1])[nodes[|nodes| - 1] := |nodes| - 1]
  }

  /** Every node has an index, and an index names a position holding its node. */
  lemma {:induction false} IndexMapRange(nodes: seq<int>)
    ensures IndexMap(nodes).Keys == set v | v in nodes
    ensures forall v :: v in IndexMap(nodes) ==> 0 <= IndexMap(nodes)[v] < |nodes| && nodes[IndexMap(nodes)[v]] == v
  {
    if nodes != [] {
      var init := nodes[..|nodes| - 1];
      IndexMapRange(init);
      assert forall i :: 0 <= i < |init| ==> init[i] == nodes[i];
    }
  }

  /** The index of every node is its position in the node list: `idx` and
      `node_list` are inverse to each other. */
  lemma {:induction false} IndexMapValid(nodes: seq<int>)
    requires Distinct(nodes)
    ensures IndexMap(nodes).Keys == set v | v in nodes
    ensures forall i :: 0 <= i < |nodes| ==> IndexMap(nodes)[nodes[i]] == i
    ensures forall v :: v in IndexMap(nodes) ==> 0 <= IndexMap(nodes)[v] < |nodes| && nodes[IndexMap(nodes)[v]] == v
  {
    if nodes != [] {
      var init := nodes[..|nodes| - 1];
      IndexMapValid(init);
      assert forall i :: 0 <= i < |init| ==> init[i] == nodes[i];
    }
  }

  /** The row of node `v`; a node with no index gets the unused row -1. */
  function Slot(idx: map<int, int>, v: int): int
  {
    if v in idx then idx[v] else -1
  }

  // ---------------------------------------------------------------------------
  // The matrix

  /** What the four updates of one edge with rows `i`, `j` and weight `w` add
      to cell `(a, b)`. */
  function Contribution(i: int, j: int, w: int, a: int, b: int): int
  {
    (if a == i && b == i then w else 0) + (if a == j && b == j then w else 0)
    + (if a == i && b == j then -2 * w else 0) + (if a == j && b == i then -2 * w else 0)
  }

  /** Cell `(a, b)` of `Q` after the updates of `edges`. */
  function QEntry(edges: seq<Edge>, idx: map<int, int>, a: int, b: int): int
  {
    if edges == [] then 0
    else
      var e := edges[|edges| - 1];
      QEntry(edges[..|edges| - 1], idx, a, b) + Contribution(Slot(idx, e.u), Slot(idx, e.v), W(e), a, b)
  }

  /** Cell `(a, b)` of the matrix `maxcut_to_qubo(G)` returns. */
  function QCell(g: Graph, a: int, b: int): int
  {
    QEntry(g.edges, IndexMap(g.nodes), a, b)
  }

  /** The four in-place updates of one edge with rows `i`, `j` and weight `w`. */
  method AddEdge(Q: array2<int>, i: int, j: int, w: int)
    requires 0 <= i < Q.Length0 && 0 <= j < Q.Length0 && Q.Length0 == Q.Length1
    modifies Q
    ensures forall a, b :: 0 <= a < Q.Length0 && 0 <= b < Q.Length1 ==> Q[a, b] == old(Q[a, b]) + Contribution(i, j, w, a, b)
  {
    Q[i, i] := Q[i, i] + w;
    Q[j, j] := Q[j, j] + w;
    Q[i, j] := Q[i, j] - 2 * w;
    Q[j, i] := Q[j, i] - 2 * w;
  }

  /** `maxcut_to_qubo(G)`: an `n`-by-`n` matrix of zeros, then for each edge
      its weight added to both diagonal cells and twice its weight taken off
      both off-diagonal cells. */
  method MaxcutToQubo(g: Graph) returns (Q: array2<int>, nodeList: seq<int>)
    requires EndpointsIn(g)
    ensures nodeList == g.nodes
    ensures fresh(Q) && Q.Length0 == |nodeList| && Q.Length1 == |nodeList|
    ensures forall a, b :: 0 <= a < Q.Length0 && 0 <= b < Q.Length1 ==> Q[a, b] == QCell(g, a, b)
    ensures g.edges == [] ==> forall a, b :: 0 <= a < Q.Length0 && 0 <= b < Q.Length1 ==> Q[a, b] == 0
  {
    nodeList := g.nodes;
    var n := |nodeList|;
    Q := new int[n, n]((a, b) => 0);
    var idx := IndexMap(nodeList);
    IndexMapRange(nodeList);
    for k := 0 to |g.edges|
      invariant forall a, b :: 0 <= a < n && 0 <= b < n ==> Q[a, b] == QEntry(g.edges[..k], idx, a, b)
    {
      var e := g.edges[k];
      var i, j, w := Slot(idx, e.u), Slot(idx, e.v), W(e);
      assert g.edges[..k + 1][..k] == g.edges[..k];
      assert e in g.edges;
      AddEdge(Q, i, j, w);
    }
    assert g.edges[..|g.edges|] == g.edges;
  }

  /** `Q` is symmetric. */
  lemma {:induction false} QEntrySymmetric(edges: seq<Edge>, idx: map<int, int>, a: int, b: int)
    ensures QEntry(edges, idx, a, b) == QEntry(edges, idx, b, a)
  {
    if edges != [] {
      QEntrySymmetric(edges[..|edges| - 1], idx, a, b);
    }
  }

  /** On a graph without self-loops, the diagonal cell of a node is its
      weighted degree. */
  lemma {:induction false} QEntryDiagonal(edges: seq<Edge>, nodes: seq<int>, a: int)
    requires Distinct(nodes)
    requires 0 <= a < |nodes|
    requires forall e :: e in edges ==> e.u in nodes && e.v in nodes && e.u != e.v
    ensures QEntry(edges, IndexMap(nodes), a, a) == WeightedDegree(edges, nodes[a])
  {
    IndexMapValid(nodes);
    if edges != [] {
      var init := edges[..|edges| - 1];
      assert forall e :: e in init ==> e in edges;
      QEntryDiagonal(init, nodes, a);
    }
  }

  /** Sum of the weights of the edges joining `p` and `q`, in either direction. */
  function PairWeight(edges: seq<Edge>, p: int, q: int): int
  {
    if edges == [] then 0
    else
      var e := edges[|edges| - 1];
      PairWeight(edges[..|edges| - 1], p, q) + (if (e.u == p && e.v == q) || (e.u == q && e.v == p) then W(e) else 0)
  }

  /** Off the diagonal, a cell holds minus twice the weight joining its two
      nodes. */
  lemma {:induction false} QEntryOffDiagonal(edges: seq<Edge>, nodes: seq<int>, a: int, b: int)
    requires Distinct(nodes)
    requires 0 <= a < |nodes| && 0 <= b < |nodes| && a != b
    requires forall e :: e in edges ==> e.u in nodes && e.v in nodes
    ensures QEntry(edges, IndexMap(nodes), a, b) == -2 * PairWeight(edges, nodes[a], nodes[b])
  {
    IndexMapValid(nodes);
    if edges != [] {
      var init := edges[..|edges| - 1];
      assert forall e :: e in init ==> e in edges;
      QEntryOffDiagonal(init, nodes, a, b);
    }
  }

  lemma {:induction false} PairWeightNone(edges: seq<Edge>, p: int, q: int)
    requires forall e :: e in edges ==> !((e.u == p && e.v == q) || (e.u == q && e.v == p))
    ensures PairWeight(edges, p, q) == 0
  {
    if edges != [] {
      var init := edges[..|edges| - 1];
      assert forall e :: e in init ==> e in edges;
      PairWeightNone(init, p, q);
    }
  }

  lemma {:induction false} PairWeightSymmetric(edges: seq<Edge>, p: int, q: int)
    ensures PairWeight(edges, p, q) == PairWeight(edges, q, p)
  {
    if edges != [] {
      PairWeightSymmetric(edges[..|edges| - 1], p, q);
    }
  }

  /** Without repeated pairs, the weight joining the ends of an edge is that
      edge's weight. */
  lemma {:induction false} PairWeightOfEdge(edges: seq<Edge>, k: int)
    requires forall i, j :: 0 <= i < j < |edges| ==> !SamePair(edges[i], edges[j])
    requires 0 <= k < |edges|
    ensures PairWeight(edges, edges[k].u, edges[k].v) == W(edges[k])
  {
    var n := |edges|;
    var init := edges[..n - 1];
    var e := edges[k];
    if k == n - 1 {
      forall f | f in init ensures !((f.u == e.u && f.v == e.v) || (f.u == e.v && f.v == e.u)) {
        var t :| 0 <= t < |init| && init[t] == f;
        assert !SamePair(edges[t], edges[k]);
      }
      PairWeightNone(init, e.u, e.v);
    } else {
      PairWeightOfEdge(init, k);
      assert !SamePair(edges[k], edges[n - 1]);
    }
  }

  /** On a well-formed graph, an off-diagonal cell is minus twice the weight
      of the edge joining its nodes, and 0 when they are not adjacent. */
  lemma QCellOffDiagonal(g: Graph, a: int, b: int)
    requires WellFormed(g)
    requires 0 <= a < |g.nodes| && 0 <= b < |g.nodes| && a != b
    ensures forall e :: e in g.edges && SamePair(e, Edge(g.nodes[a], g.nodes[b], None)) ==> QCell(g, a, b) == -2 * W(e)
    ensures !Adjacent(g.edges, g.nodes[a], g.nodes[b]) ==> QCell(g, a, b) == 0
  {
    QEntryOffDiagonal(g.edges, g.nodes, a, b);
    var p, q := g.nodes[a], g.nodes[b];
    forall e | e in g.edges && SamePair(e, Edge(p, q, None)) ensures QCell(g, a, b) == -2 * W(e) {
      var k := IndexOf(g.edges, e);
      PairWeightOfEdge(g.edges, k);
      PairWeightSymmetric(g.edges, p, q);
    }
    if !Adjacent(g.edges, p, q) {
      PairWeightNone(g.edges, p, q);
    }
  }

  lemma TriangleDegree(es: seq<Edge>, a: int)
    requires es == [Edge(0, 1, None), Edge(1, 2, None), Edge(0, 2, None)]
    requires 0 <= a < 3
    ensures WeightedDegree(es, a) == 2
  {
    assert es[..2] == [es[0], es[1]] && es[..2][..1] == [es[0]] && [es[0]][..0] == [];
    assert WeightedDegree([es[0]], a) == if a < 2 then 1 else 0;
    assert WeightedDegree(es[..2], a) == if a == 1 then 2 else 1;
  }

  lemma TriangleWellFormed(g: Graph)
    requires g == Graph([0, 1, 2], [Edge(0, 1, None), Edge(1, 2, None), Edge(0, 2, None)])
    ensures WellFormed(g)
  {
    var es := g.edges;
    assert forall e :: e in es ==> e == es[0] || e == es[1] || e == es[2];
    assert forall v :: v in [0, 1, 2] <==> 0 <= v < 3;
    assert forall i, j :: 0 <= i < j < |es| ==> !SamePair(es[i], es[j]);
  }

  /** The unit triangle: every diagonal cell is 2, every other cell -2. */
  lemma TriangleQubo()
    ensures var g := Graph([0, 1, 2], [Edge(0, 1, None), Edge(1, 2, None), Edge(0, 2, None)]);
            forall a, b :: 0 <= a < 3 && 0 <= b < 3 ==> QCell(g, a, b) == if a == b then 2 else -2
  {
    var g := Graph([0, 1, 2], [Edge(0, 1, None), Edge(1, 2, None), Edge(0, 2, None)]);
    TriangleWellFormed(g);
    forall a, b | 0 <= a < 3 && 0 <= b < 3 ensures QCell(g, a, b) == if a == b then 2 else -2 {
      if a == b {
        QEntryDiagonal(g.edges, g.nodes, a);
        TriangleDegree(g.edges, a);
      } else {
        QCellOffDiagonal(g, a, b);
        var p, q := g.nodes[a], g.nodes[b];
        var e := if a + b == 1 then g.edges[0] else if a + b == 3 then g.edges[1] else g.edges[2];
        assert e in g.edges && SamePair(e, Edge(p, q, None));
      }
    }
  }

  // ---------------------------------------------------------------------------
  // The energy

  /** `sum_{j < m} M(i, j) * x[j]`. */
  function RowSum(x: seq<int>, M: (int, int) -> int, i: int, m: nat): int
    requires m <= |x|
  {
    if m == 0 then 0 else RowSum(x, M, i, m - 1) + M(i, m - 1) * x[m - 1]
  }

  /** `sum_{i < m} x[i] * sum_j M(i, j) * x[j]`. */
  function Quad(x: seq<int>, M: (int, int) -> int, m: nat): int
    requires m <= |x|
  {
    if m == 0 then 0 else Quad(x, M, m - 1) + x[m - 1] * RowSum(x, M, m - 1, |x|)
  }

  /** `x^T M x`. */
  function Energy(x: seq<int>, M: (int, int) -> int): int
  {
    Quad(x, M, |x|)
  }

  /** The cells of an array as a matrix value. */
  function Cells(Q: array2<int>): seq<seq<int>>
    reads Q
  {
    seq(Q.Length0, i requires 0 <= i < Q.Length0 reads Q =>
      seq(Q.Length1, j requires 0 <= j < Q.Length1 reads Q => Q[i, j]))
  }

  /** A matrix value as a function of row and column, 0 outside it. */
  function AsMatrix(m: seq<seq<int>>): (int, int) -> int
  {
    (a: int, b: int) => if 0 <= a < |m| && 0 <= b < |m[a]| then m[a][b] else 0
  }

  /** `qubo_energy(x, Q)`: `x @ Q @ x`. */
  function QuboEnergy(x: seq<int>, Q: array2<int>): int
    requires Q.Length0 == |x| && Q.Length1 == |x|
    reads Q
  {
    Energy(x, AsMatrix(Cells(Q)))
  }

  lemma Distribute(a: int, b: int, c: int)
    ensures a * (b + c) == a * b + a * c
  {
  }

  /** The energy is additive in the matrix. */
  lemma {:induction false} RowSumAdd(x: seq<int>, M: (int, int) -> int, M1: (int, int) -> int, M2: (int, int) -> int, i: int, m: nat)
    requires m <= |x|
    requires forall b :: 0 <= b < |x| ==> M(i, b) == M1(i, b) + M2(i, b)
    ensures RowSum(x, M, i, m) == RowSum(x, M1, i, m) + RowSum(x, M2, i, m)
  {
    if m > 0 {
      RowSumAdd(x, M, M1, M2, i, m - 1);
      Distribute(x[m - 1], M1(i, m - 1), M2(i, m - 1));
      assert M(i, m - 1) * x[m - 1] == M1(i, m - 1) * x[m - 1] + M2(i, m - 1) * x[m - 1];
    }
  }

  lemma {:induction false} QuadAdd(x: seq<int>, M: (int, int) -> int, M1: (int, int) -> int, M2: (int, int) -> int, m: nat)
    requires m <= |x|
    requires forall a, b :: 0 <= a < |x| && 0 <= b < |x| ==> M(a, b) == M1(a, b) + M2(a, b)
    ensures Quad(x, M, m) == Quad(x, M1, m) + Quad(x, M2, m)
  {
    if m > 0 {
      var i := m - 1;
      QuadAdd(x, M, M1, M2, i);
      assert forall b :: 0 <= b < |x| ==> M(i, b) == M1(i, b) + M2(i, b);
      RowSumAdd(x, M, M1, M2, i, |x|);
      var r, r1, r2 := RowSum(x, M, i, |x|), RowSum(x, M1, i, |x|), RowSum(x, M2, i, |x|);
      Distribute(x[i], r1, r2);
      assert x[i] * r == x[i] * r1 + x[i] * r2;
    }
  }

  lemma EnergyAdd(x: seq<int>, M: (int, int) -> int, M1: (int, int) -> int, M2: (int, int) -> int)
    requires forall a, b :: 0 <= a < |x| && 0 <= b < |x| ==> M(a, b) == M1(a, b) + M2(a, b)
    ensures Energy(x, M) == Energy(x, M1) + Energy(x, M2)
  {
    QuadAdd(x, M, M1, M2, |x|);
  }

  /** The value of `x` at `i`, 0 outside. */
  function At(x: seq<int>, i: int): int
  {
    if 0 <= i < |x| then x[i] else 0
  }

  /** A matrix with one non-zero cell `(p, q)` holding `c`. */
  function Point(p: int, q: int, c: int): (int, int) -> int
  {
    (a: int, b: int) => if a == p && b == q then c else 0
  }

  lemma {:induction false} RowSumPoint(x: seq<int>, p: int, q: int, c: int, i: int, m: nat)
    requires m <= |x|
    ensures RowSum(x, Point(p, q, c), i, m) == if i == p && 0 <= q < m then c * x[q] else 0
  {
    if m > 0 {
      RowSumPoint(x, p, q, c, i, m - 1);
    }
  }

  lemma {:induction false} QuadPoint(x: seq<int>, p: int, q: int, c: int, m: nat)
    requires m <= |x|
    ensures Quad(x, Point(p, q, c), m) == if 0 <= p < m then x[p] * c * At(x, q) else 0
  {
    if m > 0 {
      QuadPoint(x, p, q, c, m - 1);
      RowSumPoint(x, p, q, c, m - 1, |x|);
    }
  }

  /** The energy of a single-cell matrix. */
  lemma EnergyPoint(x: seq<int>, p: int, q: int, c: int)
    ensures Energy(x, Point(p, q, c)) == At(x, p) * c * At(x, q)
  {
    QuadPoint(x, p, q, c, |x|);
  }

  /** Adding two matrices cell by cell. */
  function Plus(M1: (int, int) -> int, M2: (int, int) -> int): (int, int) -> int
  {
    (a: int, b: int) => M1(a, b) + M2(a, b)
  }

  /** The energy of one edge's updates. */
  lemma EnergyContribution(x: seq<int>, i: int, j: int, w: int)
    ensures Energy(x, (a, b) => Contribution(i, j, w, a, b))
            == At(x, i) * w * At(x, i) + At(x, j) * w * At(x, j)
               + At(x, i) * (-2 * w) * At(x, j) + At(x, j) * (-2 * w) * At(x, i)
  {
    var P1, P2, P3, P4 := Point(i, i, w), Point(j, j, w), Point(i, j, -2 * w), Point(j, i, -2 * w);
    EnergyAdd(x, (a, b) => Contribution(i, j, w, a, b), Plus(P1, P2), Plus(P3, P4));
    EnergyAdd(x, Plus(P1, P2), P1, P2);
    EnergyAdd(x, Plus(P3, P4), P3, P4);
    EnergyPoint(x, i, i, w);
    EnergyPoint(x, j, j, w);
    EnergyPoint(x, i, j, -2 * w);
    EnergyPoint(x, j, i, -2 * w);
  }

  /** For 0/1 values the four terms of an edge collapse to `w * (xi + xj - 4 xi xj)`. */
  lemma BitTerms(xi: int, xj: int, w: int)
    requires (xi == 0 || xi == 1) && (xj == 0 || xj == 1)
    ensures xi * w * xi + xj * w * xj + xi * (-2 * w) * xj + xj * (-2 * w) * xi == w * (xi + xj - 4 * xi * xj)
  {
  }

  /** `sum over edges of w * (x_i + x_j - 4 x_i x_j)`, with the rows `idx`
      gives the ends. */
  function EdgeEnergy(edges: seq<Edge>, idx: map<int, int>, x: seq<int>): int
  {
    if edges == [] then 0
    else
      var e := edges[|edges| - 1];
      var xi, xj := At(x, Slot(idx, e.u)), At(x, Slot(idx, e.v));
      EdgeEnergy(edges[..|edges| - 1], idx, x) + W(e) * (xi + xj - 4 * xi * xj)
  }

  predicate Bits(x: seq<int>)
  {
    forall i :: 0 <= i < |x| ==> x[i] == 0 || x[i] == 1
  }

  /** For a 0/1 vector the energy of the matrix is the sum over edges of
      `w * (x_i + x_j - 4 x_i x_j)`. */
  lemma {:induction false} EnergyOfEdges(edges: seq<Edge>, idx: map<int, int>, x: seq<int>)
    requires Bits(x)
    ensures Energy(x, (a, b) => QEntry(edges, idx, a, b)) == EdgeEnergy(edges, idx, x)
  {
    var M := (a, b) => QEntry(edges, idx, a, b);
    if edges == [] {
      var Z := Point(-1, -1, 0);
      EnergyAdd(x, M, Z, Z);
      EnergyPoint(x, -1, -1, 0);
    } else {
      var init := edges[..|edges| - 1];
      var e := edges[|edges| - 1];
      var i, j, w := Slot(idx, e.u), Slot(idx, e.v), W(e);
      var M1 := (a, b) => QEntry(init, idx, a, b);
      var M2 := (a, b) => Contribution(i, j, w, a, b);
      EnergyAdd(x, M, M1, M2);
      EnergyOfEdges(init, idx, x);
      var xi, xj := At(x, i), At(x, j);
      assert Energy(x, M2) == w * (xi + xj - 4 * xi * xj) by {
        EnergyContribution(x, i, j, w);
        BitTerms(xi, xj, w);
      }
    }
  }

  /** The energy identity for the matrix of `maxcut_to_qubo`: for a 0/1 vector
      over the node order, `x^T Q x` is the sum over edges of
      `w * (x_i + x_j - 4 x_i x_j)`. A cut edge adds `+w`, so the energy is
      not the negated cut. */
  lemma QuboEnergyOfGraph(g: Graph, Q: array2<int>, x: seq<int>)
    requires Q.Length0 == |x| && Q.Length1 == |x|
    requires forall a, b :: 0 <= a < Q.Length0 && 0 <= b < Q.Length1 ==> Q[a, b] == QCell(g, a, b)
    requires Bits(x)
    ensures QuboEnergy(x, Q) == EdgeEnergy(g.edges, IndexMap(g.nodes), x)
  {
    var M := (a, b) => QEntry(g.edges, IndexMap(g.nodes), a, b);
    EnergyOfEdges(g.edges, IndexMap(g.nodes), x);
    EnergyAdd(x, AsMatrix(Cells(Q)), M, Point(-1, -1, 0));
    EnergyPoint(x, -1, -1, 0);
  }

  /** Total weight of the edges whose two ends both get 1. */
  function BothOnes(edges: seq<Edge>, y: map<int, int>): int
    requires Assigns(y, edges)
  {
    if edges == [] then 0
    else
      var e := edges[|edges| - 1];
      BothOnes(edges[..|edges| - 1], y) + (if y[e.u] == 1 && y[e.v] == 1 then W(e) else 0)
  }

  lemma EdgeTerm(xi: int, xj: int, w: int)
    requires (xi == 0 || xi == 1) && (xj == 0 || xj == 1)
    ensures w * (xi + xj - 4 * xi * xj) == (if xi != xj then w else 0) - 2 * (if xi == 1 && xj == 1 then w else 0)
  {
    if xi == 1 && xj == 1 {
      assert xi + xj - 4 * xi * xj == -2;
    } else if xi == 0 && xj == 0 {
      assert xi + xj - 4 * xi * xj == 0;
    } else {
      assert xi + xj - 4 * xi * xj == 1;
    }
  }

  /** The energy measured against the cut: when `y` gives each edge end the
      bit of its row, the energy is the cut of `y` minus twice the weight of
      the edges with both ends at 1. */
  lemma {:induction false} EnergyAgainstCut(edges: seq<Edge>, idx: map<int, int>, x: seq<int>, y: map<int, int>)
    requires Bits(x) && Assigns(y, edges)
    requires forall e :: e in edges ==> y[e.u] == At(x, Slot(idx, e.u)) && y[e.v] == At(x, Slot(idx, e.v))
    ensures EdgeEnergy(edges, idx, x) == CutValue(edges, y) - 2 * BothOnes(edges, y)
  {
    if edges != [] {
      var init := edges[..|edges| - 1];
      var e := edges[|edges| - 1];
      assert e in edges;
      assert forall f :: f in init ==> f in edges;
      EnergyAgainstCut(init, idx, x, y);
      var xi, xj := At(x, Slot(idx, e.u)), At(x, Slot(idx, e.v));
      EdgeTerm(xi, xj, W(e));
    }
  }

  /** The all-zero vector has energy 0, whatever the matrix. */
  lemma {:induction false} ZeroEnergy(x: seq<int>, M: (int, int) -> int, m: nat)
    requires m <= |x|
    requires forall i :: 0 <= i < |x| ==> x[i] == 0
    ensures Quad(x, M, m) == 0
  {
    if m > 0 {
      ZeroEnergy(x, M, m - 1);
    }
  }

  lemma ZeroQuboEnergy(x: seq<int>, Q: array2<int>)
    requires Q.Length0 == |x| && Q.Length1 == |x|
    requires forall i :: 0 <= i < |x| ==> x[i] == 0
    ensures QuboEnergy(x, Q) == 0
  {
    ZeroEnergy(x, AsMatrix(Cells(Q)), |x|);
  }
}
