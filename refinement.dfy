/** src/refinement.py: lifting a coarse MaxCut assignment back to
    the fine graph, and the greedy one-flip improvement of an assignment. */
module Refinement {
  import opened Graphs
  import opened Groups
  import opened Contraction

  // ---------------------------------------------------------------------------
  // Lifting

  /** `coarse_solution.get(cnode, 0)`. */
  function ValueOf(x: map<int, int>, c: int): int
  {
    if c in x then x[c] else 0
  }

  /** The dictionary `lift_solution` builds: group by group, each member gets
      its group's coarse value, a later group overriding an earlier one. */
  function Lifted(x: map<int, int>, mapping: seq<seq<int>>): map<int, int>
  {
    if mapping == [] then map[]
    else
      var c := |mapping| - 1;
      Tag(Lifted(x, mapping[..c]), mapping[c], ValueOf(x, c))
  }

  /** Every member of the mapping, and nothing else, gets a value, and it is
      the value of the group `node_to_coarse` assigns it to. */
  lemma {:induction false} LiftedFollowsLabels(x: map<int, int>, mapping: seq<seq<int>>)
    ensures Lifted(x, mapping).Keys == LabelMap(mapping).Keys == Members(mapping)
    ensures forall v :: v in Lifted(x, mapping) ==> Lifted(x, mapping)[v] == ValueOf(x, LabelMap(mapping)[v])
  {
    LabelMapValid(mapping);
    if mapping != [] {
      var c := |mapping| - 1;
      var init := mapping[..c];
      LiftedFollowsLabels(x, init);
      TagValid(Lifted(x, init), mapping[c], ValueOf(x, c));
      TagValid(LabelMap(init), mapping[c], c);
      assert Members(mapping) == Members(init) + set v | v in mapping[c];
      forall v ensures v in Lifted(x, mapping) <==> v in Members(mapping) {
        assert v in Lifted(x, mapping) <==> v in Lifted(x, init) || v in mapping[c];
      }
    }
  }

  /** With disjoint groups, each member of group `c` gets `c`'s value. */
  lemma LiftedMember(x: map<int, int>, mapping: seq<seq<int>>, c: int, v: int)
    requires PairwiseDisjoint(mapping)
    requires 0 <= c < |mapping| && v in mapping[c]
    ensures v in Lifted(x, mapping) && Lifted(x, mapping)[v] == ValueOf(x, c)
  {
    LiftedFollowsLabels(x, mapping);
    LabelOfMember(mapping, c, v);
  }

  /** A 0/1 coarse assignment lifts to a 0/1 fine assignment (a missing
      label lifts as 0). */
  lemma LiftedBinary(x: map<int, int>, mapping: seq<seq<int>>)
    requires Binary(x)
    ensures Binary(Lifted(x, mapping))
  {
    LiftedFollowsLabels(x, mapping);
  }

  /** `lift_solution(coarse_solution, mapping)`. */
  method LiftSolution(x: map<int, int>, mapping: seq<seq<int>>) returns (fine: map<int, int>)
    ensures fine == Lifted(x, mapping)
  {
    fine := map[];
    for c := 0 to |mapping|
      invariant fine == Lifted(x, mapping[..c])
    {
      var val := ValueOf(x, c);
      var members := mapping[c];
      ghost var base := fine;
      for j := 0 to |members|
        invariant fine == Tag(base, members[..j], val)
      {
        TagStep(base, members, j, val);
        fine := fine[members[j] := val];
      }
      assert members[..|members|] == members;
      assert mapping[..c + 1][..c] == mapping[..c];
    }
    assert mapping[..|mapping|] == mapping;
  }

  /** Lifting keeps the cut: for a coarse assignment `x` of every coarse node,
      the coarse graph's cut under `x` equals the fine graph's cut under the
      lifted assignment. */
  lemma LiftPreservesCut(g: Graph, pairs: seq<seq<int>>, x: map<int, int>)
    requires EndpointsIn(g)
    requires forall c :: 0 <= c < |Mapping(g, pairs)| ==> c in x
    ensures var coarse, y := CoarseGraph(g, pairs), Lifted(x, Mapping(g, pairs));
            Assigns(x, coarse.edges) && Assigns(y, g.edges)
            && CutValue(coarse.edges, x) == CutValue(g.edges, y)
  {
    var mapping := Mapping(g, pairs);
    var lab := CoarseLabels(g, pairs);
    var t := CoarseTable(g, pairs);
    var y := Lifted(x, mapping);
    LiftedFollowsLabels(x, mapping);
    KeysAreLabels(g.edges, lab, |mapping|);
    AccumulateValid(g.edges, lab);
    assert forall k :: k in t.keys ==> k.0 in x && k.1 in x;
    CoarseCutIsSum(t.keys, t.sums, x);
    AccumulateSums(g.edges, lab, Splits(x));
    assert forall e :: e in g.edges ==> y[e.u] == x[lab[e.u]] && y[e.v] == x[lab[e.v]];
    FineCutIsCrossSum(g.edges, lab, x, y);
  }

  // ---------------------------------------------------------------------------
  // Local refinement

  /** Every node has a value, so every edge's ends have one. */
  ghost predicate Covers(g: Graph, x: map<int, int>)
  {
    Assigns(x, g.edges) && forall v :: v in g.nodes ==> v in x
  }

  /** No single flip increases the cut. */
  ghost predicate OneFlipOptimal(g: Graph, x: map<int, int>)
    requires Covers(g, x)
  {
    forall v :: v in g.nodes ==> CutValue(g.edges, Flip(x, v)) <= CutValue(g.edges, x)
  }

  /** The inner `cut_value(sol)`: minus the weight of the cut edges. */
  method NegatedCut(edges: seq<Edge>, sol: map<int, int>) returns (val: int)
    requires Assigns(sol, edges)
    ensures val == -CutValue(edges, sol)
  {
    val := 0;
    for i := 0 to |edges|
      invariant val == -CutValue(edges[..i], sol)
    {
      var e := edges[i];
      assert edges[..i + 1][..i] == edges[..i];
      if sol[e.u] != sol[e.v] {
        val := val - W(e);
      }
    }
    assert edges[..|edges|] == edges;
  }

  /** Tries each node of `nodes` once, keeping a flip when it strictly
      increases the cut. */
  method RefinePass(g: Graph, sol0: map<int, int>, nodes: seq<int>) returns (sol: map<int, int>, improved: bool)
    requires Covers(g, sol0)
    requires multiset(nodes) == multiset(g.nodes)
    ensures sol.Keys == sol0.Keys && Covers(g, sol)
    ensures Binary(sol0) ==> Binary(sol)
    ensures improved ==> CutValue(g.edges, sol) > CutValue(g.edges, sol0)
    ensures !improved ==> sol == sol0 && OneFlipOptimal(g, sol)
    ensures OneFlipOptimal(g, sol0) ==> !improved
  {
    sol, improved := sol0, false;
    assert forall v :: v in nodes ==> v in g.nodes by {
      forall v | v in nodes ensures v in g.nodes {
        assert v in multiset(nodes);
      }
    }
    for j := 0 to |nodes|
      invariant sol.Keys == sol0.Keys && Covers(g, sol)
      invariant Binary(sol0) ==> Binary(sol)
      invariant improved ==> CutValue(g.edges, sol) > CutValue(g.edges, sol0)
      invariant !improved ==> sol == sol0
      invariant !improved ==> forall q :: 0 <= q < j ==> CutValue(g.edges, Flip(sol, nodes[q])) <= CutValue(g.edges, sol)
      invariant OneFlipOptimal(g, sol0) ==> !improved
    {
      var v := nodes[j];
      ghost var before := sol;
      var current := sol[v];
      sol := sol[v := 1 - current];
      assert sol == Flip(before, v);
      var newVal := NegatedCut(g.edges, sol);
      sol := sol[v := current];
      assert sol == before;
      var oldVal := NegatedCut(g.edges, sol);
      if newVal < oldVal {
        sol := sol[v := 1 - current];
        improved := true;
      }
    }
    assert forall v :: v in g.nodes ==> v in nodes by {
      forall v | v in g.nodes ensures v in nodes {
        assert v in multiset(g.nodes);
      }
    }
  }

  /** `local_refinement(G, solution, max_iter)`: passes over the nodes in any
      order (the source shuffles them) until a pass keeps no flip or
      `max_iter` passes have run. With `max_iter <= 0` no pass runs and no
      value is looked up, so the solution need not cover the graph. */
  method LocalRefinement(g: Graph, solution: map<int, int>, maxIter: int) returns (sol: map<int, int>)
    requires maxIter > 0 ==> Covers(g, solution)
    ensures sol.Keys == solution.Keys
    ensures Binary(solution) ==> Binary(sol)
    ensures maxIter <= 0 ==> sol == solution
    ensures g.edges == [] ==> sol == solution
    ensures Covers(g, solution) ==> Covers(g, sol)
    ensures Covers(g, solution) ==> CutValue(g.edges, sol) >= CutValue(g.edges, solution)
    ensures Covers(g, solution) && sol != solution ==> CutValue(g.edges, sol) > CutValue(g.edges, solution)
    ensures Covers(g, solution) && OneFlipOptimal(g, solution) ==> sol == solution
    ensures Covers(g, solution) ==> OneFlipOptimal(g, sol) || CutValue(g.edges, sol) >= CutValue(g.edges, solution) + maxIter
  {
    sol := solution;
    var improved := true;
    var it := 0;
    while improved && it < maxIter
      invariant 0 <= it && (maxIter > 0 ==> it <= maxIter) && (maxIter <= 0 ==> it == 0)
      invariant sol.Keys == solution.Keys
      invariant Binary(solution) ==> Binary(sol)
      invariant it == 0 ==> sol == solution && improved
      invariant Covers(g, solution) ==> Covers(g, sol)
      invariant Covers(g, solution) && sol != solution ==> CutValue(g.edges, sol) > CutValue(g.edges, solution)
      invariant Covers(g, solution) && improved ==> CutValue(g.edges, sol) >= CutValue(g.edges, solution) + it
      invariant Covers(g, solution) && !improved ==> CutValue(g.edges, sol) >= CutValue(g.edges, solution) && OneFlipOptimal(g, sol)
      invariant Covers(g, solution) && OneFlipOptimal(g, solution) ==> sol == solution && (it > 0 ==> !improved)
      decreases maxIter - it
    {
      it := it + 1;
      var nodes :| multiset(nodes) == multiset(g.nodes);
      sol, improved := RefinePass(g, sol, nodes);
    }
    if g.edges == [] && maxIter > 0 {
      assert OneFlipOptimal(g, solution);
    }
  }
}
