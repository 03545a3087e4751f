/** `_contract_pairs` (src/coarsening/classical.py): contract node groups into
    a coarse graph whose node `c` stands for group `c`, dropping the edges
    inside a group and summing the weights of parallel coarse edges. */
module Contraction {
  import opened Graphs
  import opened Groups

  // ---------------------------------------------------------------------------
  // The contraction map

  /** The groups after every node not yet in a group has been given a
      singleton group of its own, in node order. */
  function Fill(pairs: seq<seq<int>>, nodes: seq<int>): (r: seq<seq<int>>)
    ensures Members(r) == Members(pairs) + set v | v in nodes
    ensures |pairs| <= |r| && r[..|pairs|] == pairs
    ensures forall c :: |pairs| <= c < |r| ==>
              |r[c]| == 1 && r[c][0] in nodes && r[c][0] !in Members(pairs)
  {
    if nodes == [] then
      assert pairs[..|pairs|] == pairs;
      pairs
    else
      var gs := Fill(pairs, nodes[..|nodes| - 1]);
      var v := nodes[|nodes| - 1];
      assert nodes == nodes[..|nodes| - 1] + [v];
      if v in Members(gs) then gs
      else
        var r := gs + [[v]];
        assert r[..|gs|] == gs;
        assert r[..|pairs|] == gs[..|pairs|];
        assert Members(r) == Members(gs) + {v} by {
          assert r[..|r| - 1] == gs;
          assert (set x | x in [v]) == {v};
        }
        r
  }

  /** Singletons of nodes outside every group keep the groups disjoint. */
  lemma {:induction false} FillDisjoint(pairs: seq<seq<int>>, nodes: seq<int>)
    requires PairwiseDisjoint(pairs)
    ensures PairwiseDisjoint(Fill(pairs, nodes))
  {
    if nodes != [] {
      var gs := Fill(pairs, nodes[..|nodes| - 1]);
      var v := nodes[|nodes| - 1];
      FillDisjoint(pairs, nodes[..|nodes| - 1]);
      if v !in Members(gs) {
        AppendDisjoint(gs, [v]);
      }
    }
  }

  /** When the groups already hold every node the singleton pass adds nothing. */
  lemma {:induction false} FillNoOp(pairs: seq<seq<int>>, nodes: seq<int>)
    requires forall v :: v in nodes ==> v in Members(pairs)
    ensures Fill(pairs, nodes) == pairs
  {
    if nodes != [] {
      FillNoOp(pairs, nodes[..|nodes| - 1]);
      assert nodes[|nodes| - 1] in nodes;
    }
  }

  /** The mapping `_contract_pairs` returns: the given groups, then singletons. */
  function Mapping(g: Graph, pairs: seq<seq<int>>): seq<seq<int>>
  {
    Fill(pairs, g.nodes)
  }

  /** When the groups are disjoint and hold only nodes of `g`, the mapping
      partitions the nodes of `g`. */
  lemma MappingPartitions(g: Graph, pairs: seq<seq<int>>)
    requires PairwiseDisjoint(pairs)
    requires Members(pairs) <= NodeSet(g)
    ensures Partitions(Mapping(g, pairs), g.nodes)
  {
    FillDisjoint(pairs, g.nodes);
  }

  // ---------------------------------------------------------------------------
  // Summing edge weights between aggregates (`edge_weights`)

  predicate Labelled(edges: seq<Edge>, lab: map<int, int>)
  {
    forall e :: e in edges ==> e.u in lab && e.v in lab
  }

  /** The dictionary key of an unordered pair of labels, smaller label first. */
  function Key(a: int, b: int): (int, int)
  {
    if a > b then (b, a) else (a, b)
  }

  /** `edge_weights`: its keys in insertion order and the summed weights. */
  datatype Table = Table(keys: seq<(int, int)>, sums: map<(int, int), int>)

  function Accumulate(edges: seq<Edge>, lab: map<int, int>): Table
    requires Labelled(edges, lab)
  {
    if edges == [] then Table([], map[])
    else
      var t := Accumulate(edges[..|edges| - 1], lab);
      var e := edges[|edges| - 1];
      var cu, cv := lab[e.u], lab[e.v];
      if cu == cv then t
      else
        var k := Key(cu, cv);
        if k in t.sums then Table(t.keys, t.sums[k := t.sums[k] + W(e)])
        else Table(t.keys + [k], t.sums[k := W(e)])
  }

  /** The table's keys are distinct, exactly its dictionary's keys, and each
      is a pair of two different labels in increasing order. */
  ghost predicate TableValid(t: Table)
  {
    && Distinct(t.keys)
    && (forall k :: k in t.keys <==> k in t.sums)
    && (forall k :: k in t.keys ==> k.0 < k.1)
  }

  lemma {:induction false} AccumulateValid(edges: seq<Edge>, lab: map<int, int>)
    requires Labelled(edges, lab)
    ensures TableValid(Accumulate(edges, lab))
  {
    if edges != [] {
      AccumulateValid(edges[..|edges| - 1], lab);
    }
  }

  /** Every key is a pair of labels that some node carries. */
  lemma {:induction false} KeysAreLabels(edges: seq<Edge>, lab: map<int, int>, n: int)
    requires Labelled(edges, lab)
    requires forall v :: v in lab ==> 0 <= lab[v] < n
    ensures forall k :: k in Accumulate(edges, lab).keys ==> 0 <= k.0 && k.1 < n
  {
    if edges != [] {
      KeysAreLabels(edges[..|edges| - 1], lab, n);
      var e := edges[|edges| - 1];
      assert e.u in lab && e.v in lab;
    }
  }

  /** Sum of the table's weights over the keys satisfying `P`. */
  function SumWhere(keys: seq<(int, int)>, sums: map<(int, int), int>, P: ((int, int)) -> bool): int
    requires forall k :: k in keys ==> k in sums
  {
    if keys == [] then 0
    else
      var k := keys[|keys| - 1];
      SumWhere(keys[..|keys| - 1], sums, P) + (if P(k) then sums[k] else 0)
  }

  /** Sum of the weights of the fine edges joining two different aggregates
      whose key satisfies `P`. */
  function CrossSumWhere(edges: seq<Edge>, lab: map<int, int>, P: ((int, int)) -> bool): int
    requires Labelled(edges, lab)
  {
    if edges == [] then 0
    else
      var e := edges[|edges| - 1];
      var cu, cv := lab[e.u], lab[e.v];
      CrossSumWhere(edges[..|edges| - 1], lab, P) + (if cu != cv && P(Key(cu, cv)) then W(e) else 0)
  }

  lemma {:induction false} SumWhereFresh(keys: seq<(int, int)>, sums: map<(int, int), int>,
                                         k: (int, int), d: int, P: ((int, int)) -> bool)
    requires forall j :: j in keys ==> j in sums
    requires k !in keys
    ensures SumWhere(keys, sums[k := d], P) == SumWhere(keys, sums, P)
  {
    if keys != [] {
      SumWhereFresh(keys[..|keys| - 1], sums, k, d, P);
    }
  }

  lemma {:induction false} SumWhereBump(keys: seq<(int, int)>, sums: map<(int, int), int>,
                                        k: (int, int), d: int, P: ((int, int)) -> bool)
    requires forall j :: j in keys ==> j in sums
    requires Distinct(keys) && k in keys
    ensures SumWhere(keys, sums[k := sums[k] + d], P) == SumWhere(keys, sums, P) + (if P(k) then d else 0)
  {
    var n := |keys|;
    var init := keys[..n - 1];
    if keys[n - 1] == k {
      assert k !in init;
      SumWhereFresh(init, sums, k, sums[k] + d, P);
    } else {
      SumWhereBump(init, sums, k, d, P);
    }
  }

  /** The table sums exactly the weights of the fine edges between aggregates:
      for every key predicate `P` the two sums agree. */
  lemma {:induction false} AccumulateSums(edges: seq<Edge>, lab: map<int, int>, P: ((int, int)) -> bool)
    requires Labelled(edges, lab)
    ensures TableValid(Accumulate(edges, lab))
    ensures var t := Accumulate(edges, lab);
            SumWhere(t.keys, t.sums, P) == CrossSumWhere(edges, lab, P)
  {
    AccumulateValid(edges, lab);
    if edges != [] {
      var init := edges[..|edges| - 1];
      var t := Accumulate(init, lab);
      AccumulateSums(init, lab, P);
      var e := edges[|edges| - 1];
      var cu, cv := lab[e.u], lab[e.v];
      if cu != cv {
        var k := Key(cu, cv);
        if k in t.sums {
          SumWhereBump(t.keys, t.sums, k, W(e), P);
        } else {
          SumWhereFresh(t.keys, t.sums, k, W(e), P);
          assert (t.keys + [k])[..|t.keys|] == t.keys;
        }
      }
    }
  }

  /** With distinct keys, summing over the keys equal to `k` picks out `k`'s weight. */
  lemma {:induction false} SumWhereOne(keys: seq<(int, int)>, sums: map<(int, int), int>, k: (int, int))
    requires forall j :: j in keys ==> j in sums
    requires Distinct(keys)
    ensures SumWhere(keys, sums, j => j == k) == if k in keys then sums[k] else 0
  {
    if keys != [] {
      var init := keys[..|keys| - 1];
      SumWhereOne(init, sums, k);
      assert keys == init + [keys[|keys| - 1]];
    }
  }

  // ---------------------------------------------------------------------------
  // The coarse graph

  function Labels(n: nat): (r: seq<int>)
    ensures |r| == n && forall c :: 0 <= c < n ==> r[c] == c
  {
    seq(n, c => c)
  }

  function CoarseEdges(keys: seq<(int, int)>, sums: map<(int, int), int>): (r: seq<Edge>)
    requires forall k :: k in keys ==> k in sums
    ensures |r| == |keys|
    ensures forall i :: 0 <= i < |keys| ==> r[i] == Edge(keys[i].0, keys[i].1, Some(sums[keys[i]]))
  {
    if keys == [] then []
    else
      var k := keys[|keys| - 1];
      CoarseEdges(keys[..|keys| - 1], sums) + [Edge(k.0, k.1, Some(sums[k]))]
  }

  /** The final `node_to_coarse`: every end of an edge has a label, and every
      label names a group of the mapping. */
  function CoarseLabels(g: Graph, pairs: seq<seq<int>>): (lab: map<int, int>)
    requires EndpointsIn(g)
    ensures Labelled(g.edges, lab)
    ensures forall v :: v in lab ==> 0 <= lab[v] < |Mapping(g, pairs)|
  {
    LabelMapValid(Mapping(g, pairs));
    LabelMap(Mapping(g, pairs))
  }

  function CoarseTable(g: Graph, pairs: seq<seq<int>>): Table
    requires EndpointsIn(g)
  {
    Accumulate(g.edges, CoarseLabels(g, pairs))
  }

  /** The graph `_contract_pairs` returns. */
  function CoarseGraph(g: Graph, pairs: seq<seq<int>>): Graph
    requires EndpointsIn(g)
  {
    var t := CoarseTable(g, pairs);
    AccumulateValid(g.edges, CoarseLabels(g, pairs));
    Graph(Labels(|Mapping(g, pairs)|), CoarseEdges(t.keys, t.sums))
  }

  /** Weight of the fine edges with one end in group `a` and the other in group `b`. */
  function CrossWeight(edges: seq<Edge>, mapping: seq<seq<int>>, a: int, b: int): int
    requires 0 <= a < |mapping| && 0 <= b < |mapping|
  {
    if edges == [] then 0
    else
      var e := edges[|edges| - 1];
      CrossWeight(edges[..|edges| - 1], mapping, a, b)
        + (if (e.u in mapping[a] && e.v in mapping[b]) || (e.u in mapping[b] && e.v in mapping[a])
           then W(e) else 0)
  }

  /** Weight of the fine edges inside one aggregate. */
  function IntraWeight(edges: seq<Edge>, lab: map<int, int>): int
    requires Labelled(edges, lab)
  {
    if edges == [] then 0
    else
      var e := edges[|edges| - 1];
      IntraWeight(edges[..|edges| - 1], lab) + (if lab[e.u] == lab[e.v] then W(e) else 0)
  }

  lemma {:induction false} CrossWeightByLabel(edges: seq<Edge>, mapping: seq<seq<int>>, a: int, b: int)
    requires PairwiseDisjoint(mapping)
    requires Labelled(edges, LabelMap(mapping))
    requires 0 <= a < b < |mapping|
    ensures CrossWeight(edges, mapping, a, b) == CrossSumWhere(edges, LabelMap(mapping), j => j == (a, b))
  {
    if edges != [] {
      var lab := LabelMap(mapping);
      LabelMapValid(mapping);
      CrossWeightByLabel(edges[..|edges| - 1], mapping, a, b);
      var e := edges[|edges| - 1];
      assert e.u in lab && e.v in lab;
      forall x, c | x in lab && 0 <= c < |mapping| ensures x in mapping[c] <==> lab[x] == c {
        if x in mapping[c] { LabelOfMember(mapping, c, x); }
      }
    }
  }

  lemma {:induction false} CrossAllIsTotalMinusIntra(edges: seq<Edge>, lab: map<int, int>)
    requires Labelled(edges, lab)
    ensures CrossSumWhere(edges, lab, _ => true) == TotalWeight(edges) - IntraWeight(edges, lab)
  {
    if edges != [] {
      CrossAllIsTotalMinusIntra(edges[..|edges| - 1], lab);
    }
  }

  /** The keys whose two aggregates get different values under `x`. */
  function Splits(x: map<int, int>): ((int, int)) -> bool
  {
    (k: (int, int)) => k.0 in x && k.1 in x && x[k.0] != x[k.1]
  }

  /** The coarse edges are the table's entries, so their cut under a coarse
      assignment is the table's sum over the keys whose ends differ. */
  lemma {:induction false} CoarseCutIsSum(keys: seq<(int, int)>, sums: map<(int, int), int>, x: map<int, int>)
    requires forall k :: k in keys ==> k in sums && k.0 in x && k.1 in x
    ensures Assigns(x, CoarseEdges(keys, sums))
    ensures CutValue(CoarseEdges(keys, sums), x)
            == SumWhere(keys, sums, Splits(x))
  {
    if keys != [] {
      var init := keys[..|keys| - 1];
      CoarseCutIsSum(init, sums, x);
      assert CoarseEdges(keys, sums)[..|init|] == CoarseEdges(init, sums);
    }
  }

  /** A fine assignment that gives every node its aggregate's value cuts
      exactly the fine edges between aggregates with different values. */
  lemma {:induction false} FineCutIsCrossSum(edges: seq<Edge>, lab: map<int, int>, x: map<int, int>, y: map<int, int>)
    requires Labelled(edges, lab) && Assigns(y, edges)
    requires forall v :: v in lab ==> lab[v] in x
    requires forall e :: e in edges ==> y[e.u] == x[lab[e.u]] && y[e.v] == x[lab[e.v]]
    ensures CutValue(edges, y) == CrossSumWhere(edges, lab, Splits(x))
  {
    if edges != [] {
      FineCutIsCrossSum(edges[..|edges| - 1], lab, x, y);
      var e := edges[|edges| - 1];
      assert e.u in lab && e.v in lab;
    }
  }

  // ---------------------------------------------------------------------------
  // Properties of the coarse graph

  /** Each table entry sums the fine edges whose aggregates form its key. */
  lemma TableEntry(edges: seq<Edge>, lab: map<int, int>, k: (int, int))
    requires Labelled(edges, lab)
    requires k in Accumulate(edges, lab).keys
    ensures k in Accumulate(edges, lab).sums
    ensures Accumulate(edges, lab).sums[k] == CrossSumWhere(edges, lab, j => j == k)
  {
    var t := Accumulate(edges, lab);
    AccumulateValid(edges, lab);
    AccumulateSums(edges, lab, j => j == k);
    SumWhereOne(t.keys, t.sums, k);
  }

  lemma {:induction false} CrossNonNegative(edges: seq<Edge>, lab: map<int, int>, P: ((int, int)) -> bool)
    requires Labelled(edges, lab)
    requires forall e :: e in edges ==> W(e) >= 0
    ensures CrossSumWhere(edges, lab, P) >= 0
  {
    if edges != [] {
      CrossNonNegative(edges[..|edges| - 1], lab, P);
    }
  }

  lemma TableEdgesApart(t: Table)
    requires TableValid(t)
    ensures var es := CoarseEdges(t.keys, t.sums);
            forall i, j :: 0 <= i < j < |es| ==> !SamePair(es[i], es[j])
  {
    var es := CoarseEdges(t.keys, t.sums);
    forall i, j | 0 <= i < j < |es| ensures !SamePair(es[i], es[j]) {
      assert t.keys[i] != t.keys[j];
    }
  }

  lemma TableEdgesInside(t: Table, n: nat)
    requires TableValid(t)
    requires forall k :: k in t.keys ==> 0 <= k.0 && k.1 < n && t.sums[k] >= 0
    ensures var es := CoarseEdges(t.keys, t.sums);
            forall e :: e in es ==> e.u in Labels(n) && e.v in Labels(n) && e.u != e.v && W(e) >= 0
  {
    var es := CoarseEdges(t.keys, t.sums);
    forall e | e in es ensures e.u in Labels(n) && e.v in Labels(n) && e.u != e.v && W(e) >= 0 {
      var i :| 0 <= i < |es| && es[i] == e;
      var k := t.keys[i];
      assert k in t.keys;
      assert Labels(n)[k.0] == k.0 && Labels(n)[k.1] == k.1;
    }
  }

  /** A table with distinct increasing keys below `n` and non-negative sums
      gives a well-formed graph on the labels `0 .. n - 1`. */
  lemma ValidTableGraph(t: Table, n: nat)
    requires TableValid(t)
    requires forall k :: k in t.keys ==> 0 <= k.0 && k.1 < n && t.sums[k] >= 0
    ensures WellFormed(Graph(Labels(n), CoarseEdges(t.keys, t.sums)))
  {
    TableEdgesApart(t);
    TableEdgesInside(t, n);
  }

  /** The coarse graph is a well-formed graph: one node per group, labels
      `0 .. |mapping| - 1`, no self-loops, no parallel edges, and, when the fine
      weights are non-negative, non-negative weights. */
  lemma CoarseWellFormed(g: Graph, pairs: seq<seq<int>>)
    requires EndpointsIn(g)
    requires forall e :: e in g.edges ==> W(e) >= 0
    ensures WellFormed(CoarseGraph(g, pairs))
  {
    var mapping := Mapping(g, pairs);
    var lab := CoarseLabels(g, pairs);
    var t := CoarseTable(g, pairs);
    AccumulateValid(g.edges, lab);
    KeysAreLabels(g.edges, lab, |mapping|);
    forall k | k in t.keys ensures t.sums[k] >= 0 {
      TableEntry(g.edges, lab, k);
      CrossNonNegative(g.edges, lab, j => j == k);
    }
    ValidTableGraph(t, |mapping|);
  }

  /** Weight conservation: every coarse edge `{A, B}` weighs the sum of the
      fine edges with one end in group `A` and the other in group `B`. */
  lemma CoarseEdgeWeights(g: Graph, pairs: seq<seq<int>>)
    requires EndpointsIn(g)
    requires PairwiseDisjoint(pairs)
    ensures var c := CoarseGraph(g, pairs); var mapping := Mapping(g, pairs);
            forall i :: 0 <= i < |c.edges| ==>
              0 <= c.edges[i].u < c.edges[i].v < |mapping|
              && W(c.edges[i]) == CrossWeight(g.edges, mapping, c.edges[i].u, c.edges[i].v)
  {
    var mapping := Mapping(g, pairs);
    var lab := CoarseLabels(g, pairs);
    var t := CoarseTable(g, pairs);
    var c := CoarseGraph(g, pairs);
    FillDisjoint(pairs, g.nodes);
    AccumulateValid(g.edges, lab);
    KeysAreLabels(g.edges, lab, |mapping|);
    assert c.edges == CoarseEdges(t.keys, t.sums);
    forall i | 0 <= i < |c.edges|
      ensures 0 <= c.edges[i].u < c.edges[i].v < |mapping|
      ensures W(c.edges[i]) == CrossWeight(g.edges, mapping, c.edges[i].u, c.edges[i].v)
    {
      var k := t.keys[i];
      assert k in t.keys;
      TableEntry(g.edges, lab, k);
      CrossWeightByLabel(g.edges, mapping, k.0, k.1);
    }
  }

  /** The coarse graph weighs the fine graph minus the weight inside aggregates. */
  lemma CoarseTotalWeight(g: Graph, pairs: seq<seq<int>>)
    requires EndpointsIn(g)
    ensures TotalWeight(CoarseGraph(g, pairs).edges)
            == TotalWeight(g.edges) - IntraWeight(g.edges, CoarseLabels(g, pairs))
  {
    var lab := CoarseLabels(g, pairs);
    var t := CoarseTable(g, pairs);
    AccumulateValid(g.edges, lab);
    TotalIsSumAll(t.keys, t.sums);
    AccumulateSums(g.edges, lab, _ => true);
    CrossAllIsTotalMinusIntra(g.edges, lab);
  }

  lemma {:induction false} TotalIsSumAll(keys: seq<(int, int)>, sums: map<(int, int), int>)
    requires forall k :: k in keys ==> k in sums
    ensures TotalWeight(CoarseEdges(keys, sums)) == SumWhere(keys, sums, _ => true)
  {
    if keys != [] {
      var init := keys[..|keys| - 1];
      TotalIsSumAll(init, sums);
      assert CoarseEdges(keys, sums)[..|init|] == CoarseEdges(init, sums);
    }
  }

  lemma {:induction false} KeysAreCrossings(edges: seq<Edge>, lab: map<int, int>, k: (int, int))
    requires Labelled(edges, lab)
    requires k.0 < k.1
    ensures k in Accumulate(edges, lab).keys
            <==> exists f :: f in edges && lab[f.u] != lab[f.v] && Key(lab[f.u], lab[f.v]) == k
  {
    if edges != [] {
      var init := edges[..|edges| - 1];
      var e := edges[|edges| - 1];
      KeysAreCrossings(init, lab, k);
      AccumulateValid(init, lab);
      assert forall f :: f in edges <==> f in init || f == e;
    }
  }

  /** Aggregates `a < b` are joined by a coarse edge exactly when some fine
      edge runs between them. */
  lemma CoarseEdgeIffCrossing(g: Graph, pairs: seq<seq<int>>, a: int, b: int)
    requires EndpointsIn(g)
    requires a < b
    ensures var lab := CoarseLabels(g, pairs);
            (exists e :: e in CoarseGraph(g, pairs).edges && e.u == a && e.v == b)
            <==> (exists f :: f in g.edges && lab[f.u] != lab[f.v] && Key(lab[f.u], lab[f.v]) == (a, b))
  {
    var lab := CoarseLabels(g, pairs);
    var t := CoarseTable(g, pairs);
    KeysAreCrossings(g.edges, lab, (a, b));
    AccumulateValid(g.edges, lab);
    EdgeOfKey(t.keys, t.sums, a, b);
  }

  lemma EdgeOfKey(keys: seq<(int, int)>, sums: map<(int, int), int>, a: int, b: int)
    requires forall k :: k in keys ==> k in sums
    ensures (exists e :: e in CoarseEdges(keys, sums) && e.u == a && e.v == b) <==> (a, b) in keys
  {
    var es := CoarseEdges(keys, sums);
    if (a, b) in keys {
      var i :| 0 <= i < |keys| && keys[i] == (a, b);
      assert es[i] in es;
    }
    if exists e :: e in es && e.u == a && e.v == b {
      var e :| e in es && e.u == a && e.v == b;
      var i :| 0 <= i < |es| && es[i] == e;
      assert keys[i] == (a, b);
    }
  }

  // ---------------------------------------------------------------------------
  // The operation, phase by phase

  lemma LabelMapAppend(gs: seq<seq<int>>, h: seq<int>)
    ensures LabelMap(gs + [h]) == Tag(LabelMap(gs), h, |gs|)
  {
    assert (gs + [h])[..|gs|] == gs;
  }

  lemma TagStep(base: map<int, int>, group: seq<int>, j: int, idx: int)
    requires 0 <= j < |group|
    ensures Tag(base, group[..j + 1], idx) == Tag(base, group[..j], idx)[group[j] := idx]
  {
    assert group[..j + 1][..j] == group[..j];
  }

  lemma FillStep(pairs: seq<seq<int>>, nodes: seq<int>, i: int)
    requires 0 <= i < |nodes|
    ensures var gs := Fill(pairs, nodes[..i]);
            Fill(pairs, nodes[..i + 1]) == if nodes[i] in Members(gs) then gs else gs + [[nodes[i]]]
  {
    assert nodes[..i + 1][..i] == nodes[..i];
  }

  /** Gives the members of group `idx` the label `idx`, in group order. */
  method LabelGroups(pairs: seq<seq<int>>) returns (mapping: seq<seq<int>>, nodeToCoarse: map<int, int>)
    ensures mapping == pairs && nodeToCoarse == LabelMap(pairs)
  {
    mapping := [];
    nodeToCoarse := map[];
    for idx := 0 to |pairs|
      invariant mapping == pairs[..idx]
      invariant nodeToCoarse == LabelMap(mapping)
    {
      var group := pairs[idx];
      for j := 0 to |group|
        invariant nodeToCoarse == Tag(LabelMap(mapping), group[..j], idx)
      {
        TagStep(LabelMap(mapping), group, j, idx);
        nodeToCoarse := nodeToCoarse[group[j] := idx];
      }
      assert group[..|group|] == group;
      LabelMapAppend(mapping, group);
      mapping := mapping + [group];
      assert pairs[..idx + 1] == pairs[..idx] + [group];
    }
    assert pairs[..|pairs|] == pairs;
  }

  /** Nodes outside every group become singleton aggregates with the next labels. */
  method AddSingletons(nodes: seq<int>, pairs: seq<seq<int>>, nodeToCoarse0: map<int, int>)
    returns (mapping: seq<seq<int>>, nodeToCoarse: map<int, int>)
    requires nodeToCoarse0 == LabelMap(pairs)
    ensures mapping == Fill(pairs, nodes) && nodeToCoarse == LabelMap(mapping)
  {
    mapping, nodeToCoarse := pairs, nodeToCoarse0;
    var idx := |pairs|;
    for i := 0 to |nodes|
      invariant mapping == Fill(pairs, nodes[..i])
      invariant nodeToCoarse == LabelMap(mapping)
      invariant idx == |mapping|
    {
      var v := nodes[i];
      FillStep(pairs, nodes, i);
      LabelMapValid(mapping);
      if v !in nodeToCoarse {
        LabelMapAppend(mapping, [v]);
        assert [v][..0] == [];
        nodeToCoarse := nodeToCoarse[v := idx];
        mapping := mapping + [[v]];
        idx := idx + 1;
      }
    }
    assert nodes[..|nodes|] == nodes;
  }

  /** The `edge_weights` loop: sums the weights of the edges between
      different aggregates under the key of their pair of labels. */
  method SumEdgeWeights(edges: seq<Edge>, nodeToCoarse: map<int, int>)
    returns (keys: seq<(int, int)>, edgeWeights: map<(int, int), int>)
    requires Labelled(edges, nodeToCoarse)
    ensures Table(keys, edgeWeights) == Accumulate(edges, nodeToCoarse)
    ensures TableValid(Table(keys, edgeWeights))
  {
    keys, edgeWeights := [], map[];
    for i := 0 to |edges|
      invariant Table(keys, edgeWeights) == Accumulate(edges[..i], nodeToCoarse)
    {
      var e := edges[i];
      assert edges[..i + 1][..i] == edges[..i];
      var cu, cv := nodeToCoarse[e.u], nodeToCoarse[e.v];
      if cu == cv {
        continue;
      }
      var w := W(e);
      if cu > cv {
        cu, cv := cv, cu;
      }
      if (cu, cv) !in edgeWeights {
        keys := keys + [(cu, cv)];
        edgeWeights := edgeWeights[(cu, cv) := 0];
      }
      edgeWeights := edgeWeights[(cu, cv) := edgeWeights[(cu, cv)] + w];
    }
    assert edges[..|edges|] == edges;
    AccumulateValid(edges, nodeToCoarse);
  }

  /** One weighted coarse edge per key, in key order. */
  method BuildCoarseEdges(keys: seq<(int, int)>, edgeWeights: map<(int, int), int>) returns (coarseEdges: seq<Edge>)
    requires forall k :: k in keys ==> k in edgeWeights
    ensures coarseEdges == CoarseEdges(keys, edgeWeights)
  {
    coarseEdges := [];
    for k := 0 to |keys|
      invariant coarseEdges == CoarseEdges(keys[..k], edgeWeights)
    {
      assert keys[..k + 1][..k] == keys[..k];
      coarseEdges := coarseEdges + [Edge(keys[k].0, keys[k].1, Some(edgeWeights[keys[k]]))];
    }
    assert keys[..|keys|] == keys;
  }

  /** `_contract_pairs(G, pairs)`: labels the groups `0 .. |pairs| - 1`, gives
      every node outside the groups a singleton group with the next label,
      then sums the fine edges between different aggregates into coarse edges. */
  method ContractPairs(g: Graph, pairs: seq<seq<int>>) returns (coarse: Graph, mapping: seq<seq<int>>)
    requires EndpointsIn(g)
    ensures mapping == Mapping(g, pairs) && coarse == CoarseGraph(g, pairs)
    ensures coarse.nodes == Labels(|mapping|)
    ensures forall e :: e in coarse.edges ==> 0 <= e.u < e.v < |mapping|
  {
    var labelled, nodeToCoarse := LabelGroups(pairs);
    mapping, nodeToCoarse := AddSingletons(g.nodes, labelled, nodeToCoarse);
    assert nodeToCoarse == CoarseLabels(g, pairs);
    var keys, edgeWeights := SumEdgeWeights(g.edges, nodeToCoarse);
    var coarseEdges := BuildCoarseEdges(keys, edgeWeights);
    coarse := Graph(Labels(|mapping|), coarseEdges);

    KeysAreLabels(g.edges, nodeToCoarse, |mapping|);
  }
}
