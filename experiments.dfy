/** experiments/baseline_vs_ml.py: the brute-force MaxCut value of a graph
    and the value a coarsening reaches when every coarse assignment is lifted
    back to the fine graph. */
module Experiments {
  import opened Graphs
  import opened Groups
  import opened Contraction
  import opened Refinement
  import opened Qubo

  // ---------------------------------------------------------------------------
  // Bit masks

  /** `1 << n`. */
  function Pow2(n: nat): (r: nat)
    ensures r >= 1
  {
    if n == 0 then 1 else 2 * Pow2(n - 1)
  }

  /** `(i >> j) & 1`. */
  function Bit(i: nat, j: nat): int
  {
    if j == 0 then i % 2 else Bit(i / 2, j - 1)
  }

  /** The mask whose bit `j` is `b[j]`. */
  function Encode(b: seq<int>): nat
    requires Bits(b)
  {
    if b == [] then 0 else b[0] + 2 * Encode(b[1..])
  }

  /** Every 0/1 vector of length `n` is the bit pattern of a mask below `2^n`. */
  lemma {:induction false} EncodeBits(b: seq<int>)
    requires Bits(b)
    ensures Encode(b) < Pow2(|b|)
    ensures forall j :: 0 <= j < |b| ==> Bit(Encode(b), j) == b[j]
  {
    if b != [] {
      var rest := b[1..];
      EncodeBits(rest);
      var i := Encode(b);
      assert i / 2 == Encode(rest) && i % 2 == b[0];
      forall j | 0 <= j < |b| ensures Bit(i, j) == b[j] {
        if j > 0 {
          assert Bit(i, j) == Bit(Encode(rest), j - 1);
        }
      }
    }
  }

  lemma {:induction false} BitIsBit(i: nat, j: nat)
    ensures Bit(i, j) == 0 || Bit(i, j) == 1
  {
    if j > 0 {
      BitIsBit(i / 2, j - 1);
    }
  }

  /** `[(i >> j) & 1 for j in range(n)]`. */
  function MaskBits(i: nat, n: nat): (x: seq<int>)
    ensures |x| == n
  {
    seq(n, j requires 0 <= j < n => Bit(i, j))
  }

  lemma MaskBitsAreBits(i: nat, n: nat)
    ensures Bits(MaskBits(i, n))
  {
    forall j | 0 <= j < n ensures Bit(i, j) == 0 || Bit(i, j) == 1 {
      BitIsBit(i, j);
    }
  }

  /** `nodes.index(v)`: the first position of `v`, `|nodes|` when absent. */
  function FirstIndex(nodes: seq<int>, v: int): (r: nat)
    ensures r <= |nodes|
    ensures r < |nodes| <==> v in nodes
    ensures r < |nodes| ==> nodes[r] == v && forall k :: 0 <= k < r ==> nodes[k] != v
  {
    if nodes == [] then 0 else if nodes[0] == v then 0 else 1 + FirstIndex(nodes[1..], v)
  }

  // ---------------------------------------------------------------------------
  // The largest of a sequence of values

  /** The best of `f(0), ..., f(m - 1)`, kept as the source keeps `best`: a
      later value replaces it only when strictly greater. */
  function Max(f: nat -> int, m: nat): int
    requires m >= 1
  {
    if m == 1 then f(0)
    else
      var b := Max(f, m - 1);
      if f(m - 1) > b then f(m - 1) else b
  }

  lemma {:induction false} MaxIsUpper(f: nat -> int, m: nat)
    requires m >= 1
    ensures forall i :: 0 <= i < m ==> f(i) <= Max(f, m)
  {
    if m > 1 {
      MaxIsUpper(f, m - 1);
    }
  }

  lemma {:induction false} MaxAttained(f: nat -> int, m: nat) returns (i: nat)
    requires m >= 1
    ensures i < m && Max(f, m) == f(i)
  {
    if m == 1 {
      i := 0;
    } else {
      i := MaxAttained(f, m - 1);
      if f(m - 1) > Max(f, m - 1) {
        i := m - 1;
      }
    }
  }

  // ---------------------------------------------------------------------------
  // exact_maxcut_value

  /** The cut of the assignment whose value at node `v` is bit
      `nodes.index(v)` of mask `i`. */
  function MaskCut(edges: seq<Edge>, nodes: seq<int>, i: nat): int
  {
    if edges == [] then 0
    else
      var e := edges[|edges| - 1];
      MaskCut(edges[..|edges| - 1], nodes, i)
      + (if Bit(i, FirstIndex(nodes, e.u)) != Bit(i, FirstIndex(nodes, e.v)) then W(e) else 0)
  }

  /** A mask's cut is the cut of any assignment that agrees with the mask. */
  lemma {:induction false} MaskCutIsCut(edges: seq<Edge>, nodes: seq<int>, i: nat, y: map<int, int>)
    requires Assigns(y, edges)
    requires forall e :: e in edges ==> y[e.u] == Bit(i, FirstIndex(nodes, e.u)) && y[e.v] == Bit(i, FirstIndex(nodes, e.v))
    ensures MaskCut(edges, nodes, i) == CutValue(edges, y)
  {
    if edges != [] {
      MaskCutIsCut(edges[..|edges| - 1], nodes, i, y);
    }
  }

  function ExactValues(g: Graph): nat -> int
  {
    (i: nat) => MaskCut(g.edges, g.nodes, i)
  }

  /** The value `exact_maxcut_value(G)` returns. */
  function ExactBest(g: Graph): int
  {
    Max(ExactValues(g), Pow2(|g.nodes|))
  }

  /** `exact_maxcut_value(G)`: tries the `2^n` masks over the node order. */
  method ExactMaxcutValue(g: Graph) returns (best: int)
    requires EndpointsIn(g)
    ensures best == ExactBest(g)
  {
    var nodes := g.nodes;
    var n := |nodes|;
    var found := false;  // `best` is still minus infinity
    best := 0;
    for i := 0 to Pow2(n)
      invariant found <==> i > 0
      invariant found ==> best == Max(ExactValues(g), i)
    {
      var x := MaskBits(i, n);
      var val := 0;
      for k := 0 to |g.edges|
        invariant val == MaskCut(g.edges[..k], nodes, i)
      {
        var e := g.edges[k];
        assert e in g.edges;
        var iu, iv := FirstIndex(nodes, e.u), FirstIndex(nodes, e.v);
        assert g.edges[..k + 1][..k] == g.edges[..k];
        if x[iu] != x[iv] {
          val := val + W(e);
        }
      }
      assert g.edges[..|g.edges|] == g.edges;
      if !found || val > best {
        best := val;
      }
      found := true;
    }
  }

  /** The result is at least the cut of every 0/1 assignment of the nodes. */
  lemma ExactIsUpperBound(g: Graph, y: map<int, int>)
    requires EndpointsIn(g)
    requires Binary(y) && forall v :: v in g.nodes ==> v in y
    ensures Assigns(y, g.edges) && CutValue(g.edges, y) <= ExactBest(g)
  {
    var n := |g.nodes|;
    assert forall v :: v in g.nodes ==> v in y;
    forall j | 0 <= j < n ensures g.nodes[j] in y {
      assert g.nodes[j] in g.nodes;
    }
    var b := seq(n, j requires 0 <= j < n => y[g.nodes[j]]);
    forall j | 0 <= j < n ensures b[j] == 0 || b[j] == 1 {
      var v := g.nodes[j];
      assert v in y && b[j] == y[v];
      assert y[v] == 0 || y[v] == 1;
    }
    var i := Encode(b);
    EncodeBits(b);
    MaxIsUpper(ExactValues(g), Pow2(n));
    assert ExactValues(g)(i) <= ExactBest(g);
    forall e | e in g.edges
      ensures y[e.u] == Bit(i, FirstIndex(g.nodes, e.u)) && y[e.v] == Bit(i, FirstIndex(g.nodes, e.v))
    {
      assert b[FirstIndex(g.nodes, e.u)] == y[e.u];
      assert b[FirstIndex(g.nodes, e.v)] == y[e.v];
    }
    MaskCutIsCut(g.edges, g.nodes, i, y);
  }

  /** The assignment of mask `i`. */
  function MaskAssignment(nodes: seq<int>, i: nat): map<int, int>
  {
    map v | v in nodes :: Bit(i, FirstIndex(nodes, v))
  }

  /** The result is the cut of some 0/1 assignment of the nodes. */
  lemma ExactAttained(g: Graph) returns (y: map<int, int>)
    requires EndpointsIn(g)
    ensures Binary(y) && y.Keys == NodeSet(g)
    ensures Assigns(y, g.edges) && CutValue(g.edges, y) == ExactBest(g)
  {
    var i := MaxAttained(ExactValues(g), Pow2(|g.nodes|));
    y := MaskAssignment(g.nodes, i);
    forall v | v in y ensures y[v] == 0 || y[v] == 1 {
      BitIsBit(i, FirstIndex(g.nodes, v));
    }
    MaskCutIsCut(g.edges, g.nodes, i, y);
  }

  /** With no nodes or no edges the result is 0. */
  lemma ExactEmpty(g: Graph)
    requires EndpointsIn(g)
    requires |g.nodes| == 0 || g.edges == []
    ensures ExactBest(g) == 0
  {
    var y := ExactAttained(g);
  }

  /** With non-negative weights the result is not negative: the all-zero
      assignment cuts nothing. */
  lemma ExactNonNegative(g: Graph)
    requires EndpointsIn(g)
    requires forall e :: e in g.edges ==> W(e) >= 0
    ensures ExactBest(g) >= 0
  {
    var y := map v | v in g.nodes :: 0;
    ExactIsUpperBound(g, y);
    CutOfConstant(g.edges, y, 0);
  }

  // ---------------------------------------------------------------------------
  // evaluate_coarsening

  /** `sol = {nodes[j]: x[j] for j in range(n)}`. */
  function SolOf(nodes: seq<int>, x: seq<int>): map<int, int>
    requires |nodes| <= |x|
  {
    if nodes == [] then map[]
    else
      var j := |nodes| - 1;
      SolOf(nodes[..j], x)[nodes[j] := x[j]]
  }

  /** Every coarse node gets a value, and 0/1 bits give a 0/1 assignment. */
  lemma {:induction false} SolOfValid(nodes: seq<int>, x: seq<int>)
    requires |nodes| <= |x|
    ensures SolOf(nodes, x).Keys == set v | v in nodes
    ensures Bits(x) ==> Binary(SolOf(nodes, x))
  {
    if nodes != [] {
      var j := |nodes| - 1;
      SolOfValid(nodes[..j], x);
      assert forall v :: v in nodes <==> v in nodes[..j] || v == nodes[j];
    }
  }

  /** The fine cut of the lifted assignment of mask `i` (0 when an edge end
      is in no group, where the source raises `KeyError`). */
  function EvalValues(g: Graph, coarseNodes: seq<int>, mapping: seq<seq<int>>): nat -> int
  {
    (i: nat) =>
      var y := Lifted(SolOf(coarseNodes, MaskBits(i, |coarseNodes|)), mapping);
      if Assigns(y, g.edges) then CutValue(g.edges, y) else 0
  }

  /** The value `evaluate_coarsening(G, coarse_G, mapping)` returns. */
  function EvalBest(g: Graph, coarseNodes: seq<int>, mapping: seq<seq<int>>): int
  {
    Max(EvalValues(g, coarseNodes, mapping), Pow2(|coarseNodes|))
  }

  /** `evaluate_coarsening(G, coarse_G, mapping)`: every mask over the coarse
      nodes is made a coarse assignment, lifted, and scored on the fine graph. */
  method EvaluateCoarsening(g: Graph, coarse: Graph, mapping: seq<seq<int>>) returns (best: int)
    requires EndpointsIn(coarse)
    requires forall c :: 0 <= c < |mapping| ==> c in coarse.nodes
    requires forall e :: e in g.edges ==> e.u in Members(mapping) && e.v in Members(mapping)
    ensures best == EvalBest(g, coarse.nodes, mapping)
  {
    var Q, nodes := MaxcutToQubo(coarse);
    var n := |nodes|;
    var found := false;  // `best` is still minus infinity
    best := 0;
    for i := 0 to Pow2(n)
      invariant found <==> i > 0
      invariant found ==> best == Max(EvalValues(g, nodes, mapping), i)
    {
      var x := MaskBits(i, n);
      var sol := SolOf(nodes, x);
      SolOfValid(nodes, x);
      var fineSol := LiftEvery(sol, mapping);
      LiftedFollowsLabels(sol, mapping);
      var val := CutOf(g.edges, fineSol);
      if !found || val > best {
        best := val;
      }
      found := true;
    }
  }

  /** The lifting loop of `evaluate_coarsening`: like `lift_solution`, but
      reading `sol[c]` directly, which needs every label to be present. It
      then agrees with `lift_solution`. */
  method LiftEvery(sol: map<int, int>, mapping: seq<seq<int>>) returns (fineSol: map<int, int>)
    requires forall c :: 0 <= c < |mapping| ==> c in sol
    ensures fineSol == Lifted(sol, mapping)
  {
    fineSol := map[];
    for c := 0 to |mapping|
      invariant fineSol == Lifted(sol, mapping[..c])
    {
      var members := mapping[c];
      ghost var base := fineSol;
      for j := 0 to |members|
        invariant fineSol == Tag(base, members[..j], sol[c])
      {
        Contraction.TagStep(base, members, j, sol[c]);
        fineSol := fineSol[members[j] := sol[c]];
      }
      assert members[..|members|] == members;
      assert mapping[..c + 1][..c] == mapping[..c];
    }
    assert mapping[..|mapping|] == mapping;
  }

  /** The weight of the cut edges, summed in edge order. */
  method CutOf(edges: seq<Edge>, y: map<int, int>) returns (val: int)
    requires Assigns(y, edges)
    ensures val == CutValue(edges, y)
  {
    val := 0;
    for k := 0 to |edges|
      invariant val == CutValue(edges[..k], y)
    {
      var e := edges[k];
      assert edges[..k + 1][..k] == edges[..k];
      if y[e.u] != y[e.v] {
        val := val + W(e);
      }
    }
    assert edges[..|edges|] == edges;
  }

  /** When the mapping covers every node, no lifted assignment beats the exact
      optimum, so the coarsening's value is at most `exact_maxcut_value(G)`. */
  lemma EvalBelowExact(g: Graph, coarseNodes: seq<int>, mapping: seq<seq<int>>)
    requires EndpointsIn(g)
    requires forall v :: v in g.nodes ==> v in Members(mapping)
    ensures EvalBest(g, coarseNodes, mapping) <= ExactBest(g)
  {
    var f := EvalValues(g, coarseNodes, mapping);
    var i := MaxAttained(f, Pow2(|coarseNodes|));
    var x := SolOf(coarseNodes, MaskBits(i, |coarseNodes|));
    SolOfValid(coarseNodes, MaskBits(i, |coarseNodes|));
    MaskBitsAreBits(i, |coarseNodes|);
    var y := Lifted(x, mapping);
    LiftedFollowsLabels(x, mapping);
    LiftedBinary(x, mapping);
    ExactIsUpperBound(g, y);
  }

  /** With non-negative weights the coarsening's value is not negative. */
  lemma EvalNonNegative(g: Graph, coarseNodes: seq<int>, mapping: seq<seq<int>>)
    requires forall e :: e in g.edges ==> W(e) >= 0
    ensures EvalBest(g, coarseNodes, mapping) >= 0
  {
    var f := EvalValues(g, coarseNodes, mapping);
    MaxIsUpper(f, Pow2(|coarseNodes|));
    var y := Lifted(SolOf(coarseNodes, MaskBits(0, |coarseNodes|)), mapping);
    if Assigns(y, g.edges) {
      CutNonNegative(g.edges, y);
    }
    assert f(0) >= 0;
  }

  lemma {:induction false} MaxSame(f1: nat -> int, f2: nat -> int, m: nat)
    requires m >= 1
    requires forall i: nat :: i < m ==> f1(i) == f2(i)
    ensures Max(f1, m) == Max(f2, m)
  {
    if m > 1 {
      MaxSame(f1, f2, m - 1);
    }
  }

  /** Over distinct nodes, `sol` gives `nodes[j]` the bit `x[j]`. */
  lemma {:induction false} SolOfAt(nodes: seq<int>, x: seq<int>)
    requires |nodes| <= |x| && Distinct(nodes)
    ensures forall j :: 0 <= j < |nodes| ==> nodes[j] in SolOf(nodes, x) && SolOf(nodes, x)[nodes[j]] == x[j]
  {
    if nodes != [] {
      var k := |nodes| - 1;
      SolOfAt(nodes[..k], x);
      SolOfValid(nodes[..k], x);
    }
  }

  /** For the mapping and coarse graph of `_contract_pairs`, the value of the
      coarsening is exactly the MaxCut optimum of the coarse graph: lifting
      keeps every cut. */
  lemma EvalIsCoarseOptimum(g: Graph, pairs: seq<seq<int>>)
    requires EndpointsIn(g)
    ensures var mapping, coarse := Mapping(g, pairs), CoarseGraph(g, pairs);
            EvalBest(g, coarse.nodes, mapping) == ExactBest(coarse)
  {
    var mapping, coarse := Mapping(g, pairs), CoarseGraph(g, pairs);
    var m := |mapping|;
    var f1, f2 := EvalValues(g, coarse.nodes, mapping), ExactValues(coarse);
    forall i: nat | i < Pow2(m) ensures f1(i) == f2(i) {
      var bits := MaskBits(i, m);
      var x := SolOf(coarse.nodes, bits);
      SolOfValid(coarse.nodes, bits);
      SolOfAt(coarse.nodes, bits);
      forall c | 0 <= c < m ensures c in x && x[c] == Bit(i, c) {
        assert coarse.nodes[c] == c;
      }
      LiftPreservesCut(g, pairs, x);
      forall e | e in coarse.edges
        ensures x[e.u] == Bit(i, FirstIndex(coarse.nodes, e.u)) && x[e.v] == Bit(i, FirstIndex(coarse.nodes, e.v))
      {
        assert e.u in x && e.v in x;
        assert FirstIndex(coarse.nodes, e.u) == e.u;
        assert FirstIndex(coarse.nodes, e.v) == e.v;
      }
      MaskCutIsCut(coarse.edges, coarse.nodes, i, x);
    }
    MaxSame(f1, f2, Pow2(m));
  }
}
