/** The greedy disjoint-pair selection shared by `heavy_edge_matching`
    (src/coarsening/classical.py) and `contract_edge_list`
    (src/coarsening/ml_guided.py): scan candidate pairs in order, accept a pair
    when neither end is used yet, then give every node left over a singleton
    group of its own. */
module Matching {
  import opened Graphs
  import opened Groups

  /** The ends of the accepted pairs: the `used` / `matched` set. */
  function Ends(ps: seq<(int, int)>): set<int>
  {
    if ps == [] then {} else Ends(ps[..|ps| - 1]) + {ps[|ps| - 1].0, ps[|ps| - 1].1}
  }

  lemma {:induction false} EndsOf(ps: seq<(int, int)>)
    ensures forall i :: 0 <= i < |ps| ==> ps[i].0 in Ends(ps) && ps[i].1 in Ends(ps)
  {
    if ps != [] {
      var init := ps[..|ps| - 1];
      EndsOf(init);
      assert forall i :: 0 <= i < |init| ==> init[i] == ps[i];
    }
  }

  /** Pairs drawn from a set of nodes have their ends in it. */
  lemma {:induction false} EndsWithin(ps: seq<(int, int)>, nodes: seq<int>)
    requires forall p :: p in ps ==> p.0 in nodes && p.1 in nodes
    ensures forall v :: v in Ends(ps) ==> v in nodes
  {
    if ps != [] {
      var init := ps[..|ps| - 1];
      assert forall p :: p in init ==> p in ps;
      EndsWithin(init, nodes);
    }
  }

  /** The pairs the scan accepts, in scan order. */
  function Accepted(cands: seq<(int, int)>): seq<(int, int)>
  {
    if cands == [] then []
    else
      var acc := Accepted(cands[..|cands| - 1]);
      var e := cands[|cands| - 1];
      if e.0 in Ends(acc) || e.1 in Ends(acc) then acc else acc + [e]
  }

  /** `pairs.append([u, v])` for each accepted pair. */
  function AsGroups(ps: seq<(int, int)>): (r: seq<seq<int>>)
    ensures |r| == |ps|
  {
    if ps == [] then [] else AsGroups(ps[..|ps| - 1]) + [[ps[|ps| - 1].0, ps[|ps| - 1].1]]
  }

  /** `pairs.append([v])` for each node, in node order, that is not in `used`. */
  function Singletons(nodes: seq<int>, used: set<int>): seq<seq<int>>
  {
    if nodes == [] then []
    else
      var v := nodes[|nodes| - 1];
      Singletons(nodes[..|nodes| - 1], used) + (if v in used then [] else [[v]])
  }

  /** The groups the greedy scan builds. */
  function GreedyPairs(nodes: seq<int>, cands: seq<(int, int)>): seq<seq<int>>
  {
    var acc := Accepted(cands);
    AsGroups(acc) + Singletons(nodes, Ends(acc))
  }

  // ---------------------------------------------------------------------------
  // Properties of the scan

  /** Every accepted pair is a candidate. */
  lemma {:induction false} AcceptedAreCandidates(cands: seq<(int, int)>)
    ensures forall p :: p in Accepted(cands) ==> p in cands
  {
    if cands != [] {
      var init := cands[..|cands| - 1];
      AcceptedAreCandidates(init);
      assert forall p :: p in init ==> p in cands;
    }
  }

  /** Two pairs share no end. */
  predicate Apart(p: (int, int), q: (int, int))
  {
    p.0 != q.0 && p.0 != q.1 && p.1 != q.0 && p.1 != q.1
  }

  /** No two accepted pairs share an end. */
  lemma {:induction false} AcceptedDisjoint(cands: seq<(int, int)>)
    ensures forall i, j :: 0 <= i < j < |Accepted(cands)| ==> Apart(Accepted(cands)[i], Accepted(cands)[j])
  {
    if cands != [] {
      var init := cands[..|cands| - 1];
      var acc := Accepted(init);
      var e := cands[|cands| - 1];
      AcceptedDisjoint(init);
      if !(e.0 in Ends(acc) || e.1 in Ends(acc)) {
        EndsOf(acc);
        var acc' := acc + [e];
        assert Accepted(cands) == acc';
        forall i, j | 0 <= i < j < |acc'| ensures Apart(acc'[i], acc'[j]) {
          if j == |acc| {
            assert acc'[i] == acc[i];
          } else {
            assert acc'[i] == acc[i] && acc'[j] == acc[j];
          }
        }
      }
    }
  }

  /** Maximality: every candidate, accepted or not, has an end used by an
      accepted pair, so a rejected candidate shares an end with an accepted one. */
  lemma {:induction false} AcceptedMaximal(cands: seq<(int, int)>)
    ensures forall e :: e in cands ==> e.0 in Ends(Accepted(cands)) || e.1 in Ends(Accepted(cands))
  {
    if cands != [] {
      var init := cands[..|cands| - 1];
      var acc := Accepted(init);
      var e := cands[|cands| - 1];
      AcceptedMaximal(init);
      assert (acc + [e])[..|acc|] == acc;
      assert forall f :: f in cands <==> f in init || f == e;
    }
  }

  /** The first candidate is always accepted. */
  lemma {:induction false} FirstAccepted(cands: seq<(int, int)>)
    requires |cands| > 0
    ensures |Accepted(cands)| > 0 && Accepted(cands)[0] == cands[0]
  {
    var init := cands[..|cands| - 1];
    if |cands| == 1 {
      assert init == [];
    } else {
      FirstAccepted(init);
      assert init[0] == cands[0];
    }
  }

  /** The groups of the accepted pairs are disjoint and hold exactly their ends. */
  lemma {:induction false} AcceptedGroups(cands: seq<(int, int)>)
    ensures PairwiseDisjoint(AsGroups(Accepted(cands)))
    ensures Members(AsGroups(Accepted(cands))) == Ends(Accepted(cands))
  {
    if cands != [] {
      var init := cands[..|cands| - 1];
      var acc := Accepted(init);
      var e := cands[|cands| - 1];
      AcceptedGroups(init);
      if !(e.0 in Ends(acc) || e.1 in Ends(acc)) {
        var acc' := acc + [e];
        assert acc'[..|acc|] == acc;
        AppendDisjoint(AsGroups(acc), [e.0, e.1]);
        assert (set v | v in [e.0, e.1]) == {e.0, e.1};
      }
    }
  }

  lemma {:induction false} SingletonsDisjoint(base: seq<seq<int>>, nodes: seq<int>, used: set<int>)
    requires PairwiseDisjoint(base) && Members(base) == used
    requires Distinct(nodes)
    ensures PairwiseDisjoint(base + Singletons(nodes, used))
  {
    if nodes == [] {
      assert base + [] == base;
    } else {
      var init := nodes[..|nodes| - 1];
      var v := nodes[|nodes| - 1];
      var gs := base + Singletons(init, used);
      SingletonsDisjoint(base, init, used);
      if v in used {
        assert base + Singletons(nodes, used) == gs;
      } else {
        assert base + Singletons(nodes, used) == gs + [[v]];
        MembersConcat(base, Singletons(init, used));
        SingletonsMembers(init, used);
        assert v !in init by {
          assert forall i :: 0 <= i < |init| ==> init[i] == nodes[i] != v;
        }
        AppendDisjoint(gs, [v]);
      }
    }
  }

  /** Appending the singletons of the nodes outside `used` to disjoint groups
      holding exactly `used` keeps them disjoint and covers every node. */
  lemma SingletonsCover(base: seq<seq<int>>, nodes: seq<int>, used: set<int>)
    requires PairwiseDisjoint(base) && Members(base) == used
    requires Distinct(nodes)
    ensures PairwiseDisjoint(base + Singletons(nodes, used))
    ensures Members(base + Singletons(nodes, used)) == used + set v | v in nodes
  {
    SingletonsDisjoint(base, nodes, used);
    MembersConcat(base, Singletons(nodes, used));
    SingletonsMembers(nodes, used);
    assert used + (set v | v in nodes && v !in used) == used + set v | v in nodes;
  }

  lemma {:induction false} SingletonsMembers(nodes: seq<int>, used: set<int>)
    ensures Members(Singletons(nodes, used)) == set v | v in nodes && v !in used
  {
    if nodes != [] {
      var init := nodes[..|nodes| - 1];
      var v := nodes[|nodes| - 1];
      var gs := Singletons(init, used);
      SingletonsMembers(init, used);
      assert nodes == init + [v];
      var before := set x | x in init && x !in used;
      var after := set x | x in nodes && x !in used;
      if v !in used {
        assert after == before + {v};
        assert (gs + [[v]])[..|gs|] == gs;
        assert (set x | x in [v]) == {v};
      } else {
        assert after == before;
        assert Singletons(nodes, used) == gs;
      }
    }
  }

  /** Whatever the nodes and candidates, the greedy groups hold every node and
      the ends of the accepted pairs, so the singleton pass of the contraction
      has nothing left to add. */
  lemma GreedyMembers(nodes: seq<int>, cands: seq<(int, int)>)
    ensures Members(GreedyPairs(nodes, cands)) == Ends(Accepted(cands)) + set v | v in nodes
  {
    var acc := Accepted(cands);
    AcceptedGroups(cands);
    SingletonsMembers(nodes, Ends(acc));
    MembersConcat(AsGroups(acc), Singletons(nodes, Ends(acc)));
  }

  /** With distinct nodes and candidates between nodes, the greedy groups
      partition the nodes. */
  lemma GreedyPartitions(nodes: seq<int>, cands: seq<(int, int)>)
    requires Distinct(nodes)
    requires forall p :: p in cands ==> p.0 in nodes && p.1 in nodes
    ensures Partitions(GreedyPairs(nodes, cands), nodes)
  {
    var acc := Accepted(cands);
    AcceptedGroups(cands);
    SingletonsCover(AsGroups(acc), nodes, Ends(acc));
    AcceptedAreCandidates(cands);
    EndsWithin(acc, nodes);
    assert GreedyPairs(nodes, cands) == AsGroups(acc) + Singletons(nodes, Ends(acc));
    var all := set v | v in nodes;
    var used := Ends(acc);
    assert forall v :: v in used ==> v in nodes;
    assert used <= all;
    assert used + all == all;
  }

  lemma {:induction false} EndsCount(cands: seq<(int, int)>)
    requires forall p :: p in cands ==> p.0 != p.1
    ensures |Ends(Accepted(cands))| == 2 * |Accepted(cands)|
  {
    if cands != [] {
      var init := cands[..|cands| - 1];
      var acc := Accepted(init);
      var e := cands[|cands| - 1];
      assert forall p :: p in init ==> p in cands;
      EndsCount(init);
      if !(e.0 in Ends(acc) || e.1 in Ends(acc)) {
        assert (acc + [e])[..|acc|] == acc;
      }
    }
  }

  lemma {:induction false} SingletonsCount(nodes: seq<int>, used: set<int>)
    requires Distinct(nodes)
    ensures |Singletons(nodes, used)| + |used * set v | v in nodes| == |nodes|
  {
    if nodes != [] {
      var init := nodes[..|nodes| - 1];
      var v := nodes[|nodes| - 1];
      SingletonsCount(init, used);
      assert nodes == init + [v];
      assert v !in init;
      var before, after := set x | x in init, set x | x in nodes;
      assert after == before + {v};
      assert v !in before;
      if v in used {
        assert used * after == (used * before) + {v};
      } else {
        assert used * after == used * before;
      }
    }
  }

  /** Each accepted pair of two different nodes merges two nodes into one
      group, so the scan ends with one group fewer per accepted pair. */
  lemma GreedyCount(nodes: seq<int>, cands: seq<(int, int)>)
    requires Distinct(nodes)
    requires forall p :: p in cands ==> p.0 in nodes && p.1 in nodes && p.0 != p.1
    ensures |GreedyPairs(nodes, cands)| == |nodes| - |Accepted(cands)|
  {
    var acc := Accepted(cands);
    EndsCount(cands);
    SingletonsCount(nodes, Ends(acc));
    AcceptedAreCandidates(cands);
    EndsWithin(acc, nodes);
    var all := set v | v in nodes;
    var used := Ends(acc);
    assert forall v :: v in used ==> v in nodes;
    assert used <= all;
    assert used * all == used;
    assert GreedyPairs(nodes, cands) == AsGroups(acc) + Singletons(nodes, Ends(acc));
  }

  // ---------------------------------------------------------------------------
  // The scan as the source writes it

  /** The `used` / `matched` loop over the candidates, then the singleton loop
      over the nodes. */
  method GreedyMatch(nodes: seq<int>, cands: seq<(int, int)>) returns (pairs: seq<seq<int>>)
    ensures pairs == GreedyPairs(nodes, cands)
  {
    pairs := [];
    var used: set<int> := {};
    ghost var acc: seq<(int, int)> := [];
    for i := 0 to |cands|
      invariant acc == Accepted(cands[..i])
      invariant used == Ends(acc) && pairs == AsGroups(acc)
    {
      var (u, v) := cands[i];
      assert cands[..i + 1][..i] == cands[..i];
      if u in used || v in used {
        continue;
      }
      pairs := pairs + [[u, v]];
      used := used + {u};
      used := used + {v};
      assert (acc + [(u, v)])[..|acc|] == acc;
      acc := acc + [(u, v)];
    }
    assert cands[..|cands|] == cands;
    ghost var groups := pairs;
    for i := 0 to |nodes|
      invariant pairs == groups + Singletons(nodes[..i], used)
    {
      var v := nodes[i];
      assert nodes[..i + 1][..i] == nodes[..i];
      if v !in used {
        pairs := pairs + [[v]];
      }
    }
    assert nodes[..|nodes|] == nodes;
  }
}
