/** The classical coarsening strategies of src/coarsening/classical.py: each
    picks node groups and hands them to the contraction. */
module Classical {
  import opened Graphs
  import opened Groups
  import opened Sorting
  import opened Matching
  import opened Contraction

  // ---------------------------------------------------------------------------
  // Random matching

  /** A group of random matching: a single node, or two different adjacent nodes. */
  predicate MatchedGroup(edges: seq<Edge>, group: seq<int>)
  {
    |group| == 1 || (|group| == 2 && group[0] != group[1] && Adjacent(edges, group[0], group[1]))
  }

  /** `[u for u in s if u in unmatched]`. */
  function Keep(s: seq<int>, unmatched: set<int>): (r: seq<int>)
    ensures forall u :: u in r <==> u in s && u in unmatched
  {
    if s == [] then []
    else
      var rest := Keep(s[1..], unmatched);
      assert forall u :: u in s <==> u == s[0] || u in s[1..];
      if s[0] in unmatched then [s[0]] + rest else rest
  }

  /** Groups of at most two nodes that partition the nodes number at least
      half the nodes. */
  lemma AtLeastHalf(gs: seq<seq<int>>, nodes: seq<int>)
    requires Partitions(gs, nodes)
    requires forall c :: 0 <= c < |gs| ==> |gs[c]| <= 2
    ensures 2 * |gs| >= |set v | v in nodes|
  {
    MembersAtMost(gs, 2);
  }

  /** What the `while unmatched` loop keeps: the groups so far are disjoint
      matched groups holding exactly the nodes no longer unmatched. */
  ghost predicate RandomState(g: Graph, unmatched: set<int>, pairs: seq<seq<int>>)
  {
    && unmatched <= NodeSet(g)
    && PairwiseDisjoint(pairs)
    && Members(pairs) == NodeSet(g) - unmatched
    && forall c :: 0 <= c < |pairs| ==> MatchedGroup(g.edges, pairs[c])
  }

  /** Appending `[v]` or `[v, u]` for nodes just taken out of `unmatched`. */
  lemma RandomStep(g: Graph, unmatched: set<int>, pairs: seq<seq<int>>, group: seq<int>, rest: set<int>)
    requires RandomState(g, unmatched, pairs)
    requires MatchedGroup(g.edges, group)
    requires forall x :: x in group ==> x in unmatched
    requires rest == unmatched - set x | x in group
    ensures RandomState(g, rest, pairs + [group])
  {
    AppendDisjoint(pairs, group);
    var pairs' := pairs + [group];
    var taken := set x | x in group;
    assert Members(pairs') == (NodeSet(g) - unmatched) + taken;
    assert forall x :: x in taken ==> x in unmatched;
    assert taken <= unmatched;
    assert (NodeSet(g) - unmatched) + taken == NodeSet(g) - rest;
    forall c | 0 <= c < |pairs'| ensures MatchedGroup(g.edges, pairs'[c]) {
      if c < |pairs| {
        assert pairs'[c] == pairs[c];
      }
    }
  }

  /** When nothing is left unmatched the groups partition the nodes, the
      contraction adds no singleton, and there are at least half as many
      groups as nodes. */
  lemma RandomDone(g: Graph, pairs: seq<seq<int>>)
    requires RandomState(g, {}, pairs)
    ensures Partitions(pairs, g.nodes) && Mapping(g, pairs) == pairs
    ensures 2 * |pairs| >= |NodeSet(g)|
  {
    FillNoOp(pairs, g.nodes);
    AtLeastHalf(pairs, g.nodes);
    assert NodeSet(g) == set v | v in g.nodes;
  }

  /** One turn of the `while unmatched` loop: pops an arbitrary unmatched
      node `v`, and pairs it with an arbitrary unmatched neighbour if it has
      one, else leaves it on its own. */
  method MatchOne(g: Graph, unmatched: set<int>, pairs: seq<seq<int>>) returns (rest: set<int>, pairs': seq<seq<int>>)
    requires RandomState(g, unmatched, pairs) && unmatched != {}
    ensures RandomState(g, rest, pairs')
    ensures |rest| < |unmatched|
  {
    assert (forall x :: x !in unmatched) ==> unmatched == {};
    var v :| v in unmatched;
    rest := unmatched - {v};
    var neighbors := Keep(Neighbors(g.edges, v), rest);
    var group;
    if neighbors != [] {
      ghost var some := neighbors[0];
      assert some in neighbors;
      var u :| u in neighbors;
      rest := rest - {u};
      group := [v, u];
      assert (set x | x in group) == {v, u};
    } else {
      group := [v];
      assert (set x | x in group) == {v};
    }
    RandomStep(g, unmatched, pairs, group, rest);
    pairs' := pairs + [group];
  }

  /** `random_matching(G)`: groups the nodes one turn at a time until none is
      unmatched, then contracts. The choices `set.pop` and `random.choice`
      make are left open: the contract holds for every one. */
  method RandomMatching(g: Graph) returns (coarse: Graph, mapping: seq<seq<int>>)
    requires EndpointsIn(g)
    ensures Partitions(mapping, g.nodes)
    ensures forall c :: 0 <= c < |mapping| ==> MatchedGroup(g.edges, mapping[c])
    ensures Mapping(g, mapping) == mapping && coarse == CoarseGraph(g, mapping)
    ensures 2 * |coarse.nodes| >= |NodeSet(g)|
  {
    var unmatched := set v | v in g.nodes;
    var pairs: seq<seq<int>> := [];
    while unmatched != {}
      invariant RandomState(g, unmatched, pairs)
      decreases |unmatched|
    {
      unmatched, pairs := MatchOne(g, unmatched, pairs);
    }
    RandomDone(g, pairs);
    coarse, mapping := ContractPairs(g, pairs);
  }

  // ---------------------------------------------------------------------------
  // Heavy-edge matching

  /** The sort key of `sorted(..., key=weight, reverse=True)`: a stable
      ascending sort on the negated weight keeps equal weights in edge order,
      as Python's reversed sort does. */
  function NegWeight(e: Edge): real
  {
    -(W(e) as real)
  }

  /** The edges in the order heavy-edge matching visits them. */
  function HeavyOrder(g: Graph): (r: seq<Edge>)
    ensures multiset(r) == multiset(g.edges)
    ensures forall i, j :: 0 <= i < j < |r| ==> W(r[i]) >= W(r[j])
  {
    var r := SortBy(g.edges, NegWeight);
    assert forall i, j :: 0 <= i < j < |r| ==> NegWeight(r[i]) <= NegWeight(r[j]);
    r
  }

  /** The pairs heavy-edge matching accepts. */
  function HeavyAccepted(g: Graph): seq<(int, int)>
  {
    Accepted(EdgePairs(HeavyOrder(g)))
  }

  /** The groups heavy-edge matching hands to the contraction. */
  function HeavyPairs(g: Graph): seq<seq<int>>
  {
    GreedyPairs(g.nodes, EdgePairs(HeavyOrder(g)))
  }

  lemma HeavyCandidates(g: Graph)
    ensures forall p :: p in EdgePairs(HeavyOrder(g)) <==> exists e :: e in g.edges && p == (e.u, e.v)
  {
    var order := HeavyOrder(g);
    var cands := EdgePairs(order);
    assert forall e :: e in order <==> e in g.edges by {
      forall e ensures e in order <==> e in g.edges {
        assert e in order <==> e in multiset(order);
      }
    }
    forall p | p in cands ensures exists e :: e in g.edges && p == (e.u, e.v) {
      var i :| 0 <= i < |cands| && cands[i] == p;
      assert order[i] in order;
    }
    forall e | e in g.edges ensures (e.u, e.v) in cands {
      var i :| 0 <= i < |order| && order[i] == e;
      assert cands[i] == (e.u, e.v);
    }
  }

  /** The accepted pairs form a maximal matching of the graph: no two share a
      node, and every edge has an end in some accepted pair. */
  lemma HeavyMaximalMatching(g: Graph)
    ensures forall i, j :: 0 <= i < j < |HeavyAccepted(g)| ==> Apart(HeavyAccepted(g)[i], HeavyAccepted(g)[j])
    ensures forall e :: e in g.edges ==> e.u in Ends(HeavyAccepted(g)) || e.v in Ends(HeavyAccepted(g))
  {
    var cands := EdgePairs(HeavyOrder(g));
    AcceptedDisjoint(cands);
    AcceptedMaximal(cands);
    HeavyCandidates(g);
    forall e | e in g.edges ensures (e.u, e.v) in cands {
    }
  }

  /** The heaviest edge is always accepted, as the first pair. Because the
      sort is stable, it is the first edge of maximal weight in edge order. */
  lemma HeaviestAccepted(g: Graph)
    requires |g.edges| > 0
    ensures var h := HeavyOrder(g)[0];
            && h in g.edges
            && (forall e :: e in g.edges ==> W(e) <= W(h))
            && (exists i :: 0 <= i < |g.edges| && g.edges[i] == h && forall j :: 0 <= j < i ==> W(g.edges[j]) < W(h))
            && |HeavyAccepted(g)| > 0 && HeavyAccepted(g)[0] == (h.u, h.v)
  {
    var order := HeavyOrder(g);
    assert |multiset(order)| == |multiset(g.edges)|;
    var h := order[0];
    assert h in multiset(order);
    forall e | e in g.edges ensures W(e) <= W(h) {
      assert e in multiset(order);
      var i :| 0 <= i < |order| && order[i] == e;
    }
    var k := NegWeight(h);
    SortStable(g.edges, NegWeight, k);
    assert Keyed(order, NegWeight, k)[0] == h;
    var i := KeyedFirst(g.edges, NegWeight, k);
    forall j | 0 <= j < i ensures W(g.edges[j]) < W(h) {
      assert g.edges[j] in g.edges;
    }
    FirstAccepted(EdgePairs(order));
  }

  lemma ExampleOrder(e0: Edge, e1: Edge)
    requires e0 == Edge(0, 1, Some(5)) && e1 == Edge(1, 2, Some(1))
    ensures SortBy([e0, e1], NegWeight) == [e0, e1]
  {
    assert [e1][1..] == [];
    assert SortBy([e1], NegWeight) == Insert(e1, SortBy([], NegWeight), NegWeight) == [e1];
    assert [e0, e1][1..] == [e1];
    assert NegWeight(e0) <= NegWeight(e1);
  }

  lemma ExampleAccepted()
    ensures Accepted([(0, 1), (1, 2)]) == [(0, 1)]
  {
    var cands := [(0, 1), (1, 2)];
    assert cands[..1] == [(0, 1)];
    assert [(0, 1)][..0] == [];
    assert Accepted([(0, 1)]) == [(0, 1)];
    var acc := [(0, 1)];
    assert acc[..0] == [];
    assert Ends(acc) == {0, 1};
  }

  lemma ExampleGroups()
    ensures GreedyPairs([0, 1, 2], [(0, 1), (1, 2)]) == [[0, 1], [2]]
  {
    ExampleAccepted();
    var acc := [(0, 1)];
    assert acc[..0] == [];
    assert Ends(acc) == {0, 1};
    assert AsGroups(acc) == [[0, 1]];
    var ns := [0, 1, 2];
    assert ns[..2][..1] == [0];
    assert [0][..0] == [];
    assert ns[..2] == [0, 1];
    assert Singletons(ns, {0, 1}) == [[2]];
  }

  /** The scenario of the repository's test: edges `0 - 1` (weight 5) and
      `1 - 2` (weight 1); nodes 0 and 1 share a group and 2 is on its own. */
  lemma HeavyEdgeExample()
    ensures HeavyPairs(Graph([0, 1, 2], [Edge(0, 1, Some(5)), Edge(1, 2, Some(1))])) == [[0, 1], [2]]
  {
    var e0, e1 := Edge(0, 1, Some(5)), Edge(1, 2, Some(1));
    var g := Graph([0, 1, 2], [e0, e1]);
    ExampleOrder(e0, e1);
    assert HeavyOrder(g) == [e0, e1];
    assert EdgePairs([e0, e1]) == [(0, 1), (1, 2)];
    ExampleGroups();
  }

  /** The heavy-edge groups hold every node, so the contraction adds no singleton. */
  lemma HeavyCovers(g: Graph)
    ensures Mapping(g, HeavyPairs(g)) == HeavyPairs(g)
  {
    GreedyMembers(g.nodes, EdgePairs(HeavyOrder(g)));
    FillNoOp(HeavyPairs(g), g.nodes);
  }

  /** On a graph with distinct nodes the heavy-edge groups partition the nodes. */
  lemma HeavyPartitions(g: Graph)
    requires EndpointsIn(g) && Distinct(g.nodes)
    ensures Partitions(HeavyPairs(g), g.nodes)
  {
    var cands := EdgePairs(HeavyOrder(g));
    HeavyCandidates(g);
    forall p | p in cands ensures p.0 in g.nodes && p.1 in g.nodes {
      var e :| e in g.edges && p == (e.u, e.v);
    }
    GreedyPartitions(g.nodes, cands);
  }

  /** `heavy_edge_matching(G)`: visits the edges heaviest first, accepts an
      edge when neither end is matched yet, adds the unmatched nodes as
      singletons and contracts. */
  method HeavyEdgeMatching(g: Graph) returns (coarse: Graph, mapping: seq<seq<int>>)
    requires EndpointsIn(g)
    ensures mapping == HeavyPairs(g) && coarse == CoarseGraph(g, mapping)
  {
    var edges := SortBy(g.edges, NegWeight);
    var pairs := GreedyMatch(g.nodes, EdgePairs(edges));
    coarse, mapping := ContractPairs(g, pairs);
    HeavyCovers(g);
  }

  // ---------------------------------------------------------------------------
  // AMG-inspired seed-and-grow grouping

  /** The sort key of `sorted(G.degree(), key=lambda x: -x[1])`. */
  function DegreeKey(g: Graph): int -> real
  {
    v => -(Degree(g, v) as real)
  }

  /** A group grown from its seed `group[0]`: one to three distinct nodes, the
      others neighbours of the seed. */
  predicate Grown(edges: seq<Edge>, group: seq<int>)
  {
    && 1 <= |group| <= 3
    && Distinct(group)
    && forall t :: 1 <= t < |group| ==> Adjacent(edges, group[0], group[t])
  }

  /** The nodes of groups `0 .. c`. */
  function UpTo(gs: seq<seq<int>>, c: int): set<int>
    requires 0 <= c < |gs|
  {
    Members(gs[..c + 1])
  }

  lemma UpToAppend(gs: seq<seq<int>>, h: seq<int>)
    ensures forall c :: 0 <= c < |gs| ==> UpTo(gs + [h], c) == UpTo(gs, c)
  {
    forall c | 0 <= c < |gs| ensures UpTo(gs + [h], c) == UpTo(gs, c) {
      assert (gs + [h])[..c + 1] == gs[..c + 1];
    }
  }

  /** The inner loop: starting from the seed `v`, takes the neighbours of `v`
      in order while they are unused and the group has fewer than three nodes. */
  method GrowGroup(g: Graph, v: int, used0: set<int>) returns (group: seq<int>, used: set<int>)
    requires EndpointsIn(g)
    requires v !in used0
    ensures |group| > 0 && group[0] == v && Grown(g.edges, group)
    ensures used == used0 + set x | x in group
    ensures forall x :: x in group ==> x !in used0
    ensures forall x :: x in group && x != v ==> x in g.nodes
    ensures |group| < 3 ==> forall u :: u in Neighbors(g.edges, v) ==> u in used
  {
    group := [v];
    used := used0 + {v};
    var nbrs := Neighbors(g.edges, v);
    for j := 0 to |nbrs|
      invariant 1 <= |group| <= 3 && group[0] == v
      invariant Grown(g.edges, group)
      invariant used == used0 + set x | x in group
      invariant forall x :: x in group ==> x !in used0
      invariant forall x :: x in group && x != v ==> x in g.nodes
      invariant |group| < 3 ==> forall t :: 0 <= t < j ==> nbrs[t] in used
    {
      var u := nbrs[j];
      assert u in nbrs;
      if u !in used && |group| < 3 {
        var e :| e in g.edges && ((e.u == v && e.v == u) || (e.u == u && e.v == v));
        used := used + {u};
        group := group + [u];
      }
    }
  }

  /** What the seed loop keeps after visiting `order[..i]`: the groups are
      disjoint, hold exactly the used nodes, each grew from its seed, the seeds
      were taken at increasing positions of `order`, and a group short of three
      nodes left no unused neighbour of its seed behind. */
  ghost predicate AmgState(g: Graph, order: seq<int>, i: int, used: set<int>,
                           pairs: seq<seq<int>>, seeds: seq<int>)
  {
    && 0 <= i <= |order|
    && used == Members(pairs) && used <= NodeSet(g)
    && PairwiseDisjoint(pairs)
    && (forall k :: 0 <= k < i ==> order[k] in used)
    && (forall c :: 0 <= c < |pairs| ==> Grown(g.edges, pairs[c]))
    && |seeds| == |pairs|
    && (forall c :: 0 <= c < |pairs| ==> 0 <= seeds[c] < i && pairs[c][0] == order[seeds[c]])
    && (forall c, d :: 0 <= c < d < |pairs| ==> seeds[c] < seeds[d])
    && (forall c :: 0 <= c < |pairs| && |pairs[c]| < 3 ==>
          forall u :: u in Neighbors(g.edges, pairs[c][0]) ==> u in UpTo(pairs, c))
  }

  lemma AmgSkip(g: Graph, order: seq<int>, i: int, used: set<int>, pairs: seq<seq<int>>, seeds: seq<int>)
    requires AmgState(g, order, i, used, pairs, seeds) && i < |order| && order[i] in used
    ensures AmgState(g, order, i + 1, used, pairs, seeds)
  {
  }

  lemma AmgAdd(g: Graph, order: seq<int>, i: int, used0: set<int>, pairs: seq<seq<int>>, seeds: seq<int>,
               group: seq<int>, used: set<int>)
    requires AmgState(g, order, i, used0, pairs, seeds) && i < |order|
    requires |group| > 0 && group[0] == order[i] && Grown(g.edges, group)
    requires used == used0 + set x | x in group
    requires forall x :: x in group ==> x !in used0
    requires forall x :: x in group && x != order[i] ==> x in g.nodes
    requires order[i] in g.nodes
    requires |group| < 3 ==> forall u :: u in Neighbors(g.edges, order[i]) ==> u in used
    ensures AmgState(g, order, i + 1, used, pairs + [group], seeds + [i])
  {
    AppendDisjoint(pairs, group);
    UpToAppend(pairs, group);
    var pairs' := pairs + [group];
    assert UpTo(pairs', |pairs|) == Members(pairs') by {
      assert pairs'[..|pairs| + 1] == pairs';
    }
    assert forall c :: 0 <= c < |pairs| ==> pairs'[c] == pairs[c];
  }

  /** After the last seed the groups partition the nodes, and the seeds come
      in non-increasing degree. */
  lemma AmgDone(g: Graph, order: seq<int>, used: set<int>, pairs: seq<seq<int>>, seeds: seq<int>)
    requires AmgState(g, order, |order|, used, pairs, seeds)
    requires forall v :: v in order <==> v in g.nodes
    requires SortedBy(order, DegreeKey(g))
    ensures Partitions(pairs, g.nodes)
    ensures forall c, d :: 0 <= c < d < |pairs| && |pairs[c]| > 0 && |pairs[d]| > 0 ==>
              Degree(g, pairs[c][0]) >= Degree(g, pairs[d][0])
  {
    forall c, d | 0 <= c < d < |pairs| && |pairs[c]| > 0 && |pairs[d]| > 0
      ensures Degree(g, pairs[c][0]) >= Degree(g, pairs[d][0])
    {
      assert DegreeKey(g)(order[seeds[c]]) <= DegreeKey(g)(order[seeds[d]]);
    }
    forall v | v in g.nodes ensures v in used {
      var k :| 0 <= k < |order| && order[k] == v;
    }
  }

  /** `amg_inspired_placeholder(G)`: takes the nodes by non-increasing degree;
      each node not yet used seeds a group and takes up to two of its unused
      neighbours, in neighbour order. */
  method AmgInspiredPlaceholder(g: Graph) returns (coarse: Graph, mapping: seq<seq<int>>)
    requires EndpointsIn(g)
    ensures Partitions(mapping, g.nodes)
    ensures forall c :: 0 <= c < |mapping| ==> Grown(g.edges, mapping[c])
    ensures forall c, d :: 0 <= c < d < |mapping| && |mapping[c]| > 0 && |mapping[d]| > 0 ==>
              Degree(g, mapping[c][0]) >= Degree(g, mapping[d][0])
    ensures forall c :: 0 <= c < |mapping| && 0 < |mapping[c]| < 3 ==>
              forall u :: u in Neighbors(g.edges, mapping[c][0]) ==> u in UpTo(mapping, c)
    ensures Mapping(g, mapping) == mapping && coarse == CoarseGraph(g, mapping)
  {
    var order := SortBy(g.nodes, DegreeKey(g));
    SortKeepsElements(g.nodes, DegreeKey(g));
    var used: set<int> := {};
    var pairs: seq<seq<int>> := [];
    ghost var seeds: seq<int> := [];
    for i := 0 to |order|
      invariant AmgState(g, order, i, used, pairs, seeds)
    {
      var v := order[i];
      if v in used {
        AmgSkip(g, order, i, used, pairs, seeds);
        continue;
      }
      var group, used' := GrowGroup(g, v, used);
      AmgAdd(g, order, i, used, pairs, seeds, group, used');
      used := used';
      pairs := pairs + [group];
      seeds := seeds + [i];
    }
    AmgDone(g, order, used, pairs, seeds);
    FillNoOp(pairs, g.nodes);
    coarse, mapping := ContractPairs(g, pairs);
  }
}
