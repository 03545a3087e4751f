/** Contraction maps: a list of node groups, group `c` standing for the
    coarse node labelled `c{c}`. */
module Groups {

  /** The nodes that appear in some group. */
  function Members(gs: seq<seq<int>>): set<int>
  {
    if gs == [] then {}
    else
      var last := gs[|gs| - 1];
      Members(gs[..|gs| - 1]) + set v | v in last
  }

  lemma {:induction false} MembersIff(gs: seq<seq<int>>)
    ensures forall v :: v in Members(gs) <==> exists c :: 0 <= c < |gs| && v in gs[c]
  {
    if gs != [] {
      var init := gs[..|gs| - 1];
      MembersIff(init);
      assert forall c :: 0 <= c < |init| ==> init[c] == gs[c];
    }
  }

  /** No node is in two different groups. */
  ghost predicate PairwiseDisjoint(gs: seq<seq<int>>)
  {
    forall c, d, v :: 0 <= c < |gs| && 0 <= d < |gs| && v in gs[c] && v in gs[d] ==> c == d
  }

  /** Every node is in exactly one group and every member is a node. */
  ghost predicate Partitions(gs: seq<seq<int>>, nodes: seq<int>)
  {
    PairwiseDisjoint(gs) && Members(gs) == set v | v in nodes
  }

  /** `node_to_coarse[v] = c` for each `v` of `h` in turn. */
  function Tag(base: map<int, int>, h: seq<int>, c: int): map<int, int>
  {
    if h == [] then base else Tag(base, h[..|h| - 1], c)[h[|h| - 1] := c]
  }

  /** Tagging adds exactly the nodes of `h`, gives them `c` and leaves every
      other entry alone. */
  lemma {:induction false} TagValid(base: map<int, int>, h: seq<int>, c: int)
    ensures forall v :: v in Tag(base, h, c) <==> v in base || v in h
    ensures forall v :: v in h ==> Tag(base, h, c)[v] == c
    ensures forall v :: v in base && v !in h ==> Tag(base, h, c)[v] == base[v]
  {
    if h != [] {
      var init := h[..|h| - 1];
      TagValid(base, init, c);
      assert forall v :: v in h <==> v in init || v == h[|h| - 1];
    }
  }

  /** `node_to_coarse`: each member mapped to the label of its group, a later
      group overriding an earlier one as the dictionary assignment does. */
  function LabelMap(gs: seq<seq<int>>): map<int, int>
  {
    if gs == [] then map[] else Tag(LabelMap(gs[..|gs| - 1]), gs[|gs| - 1], |gs| - 1)
  }

  /** Every member has a label, and its label names a group that holds it. */
  lemma {:induction false} LabelMapValid(gs: seq<seq<int>>)
    ensures LabelMap(gs).Keys == Members(gs)
    ensures forall v :: v in LabelMap(gs) ==> 0 <= LabelMap(gs)[v] < |gs| && v in gs[LabelMap(gs)[v]]
  {
    if gs != [] {
      var init := gs[..|gs| - 1];
      LabelMapValid(init);
      var last := gs[|gs| - 1];
      TagValid(LabelMap(init), last, |gs| - 1);
      assert Members(gs) == Members(init) + set v | v in last;
      forall v ensures v in LabelMap(gs) <==> v in Members(gs) {
        assert v in LabelMap(gs) <==> v in LabelMap(init) || v in last;
      }
      assert forall c :: 0 <= c < |init| ==> init[c] == gs[c];
    }
  }

  /** In disjoint groups a member's label is the index of its group. */
  lemma LabelOfMember(gs: seq<seq<int>>, c: int, v: int)
    requires PairwiseDisjoint(gs)
    requires 0 <= c < |gs| && v in gs[c]
    ensures v in LabelMap(gs) && LabelMap(gs)[v] == c
  {
    LabelMapValid(gs);
    MembersIff(gs);
    var m := LabelMap(gs);
    assert v in m;
    assert v in gs[m[v]];
  }

  lemma {:induction false} AppendDisjoint(gs: seq<seq<int>>, h: seq<int>)
    requires PairwiseDisjoint(gs)
    requires forall v :: v in h ==> v !in Members(gs)
    ensures PairwiseDisjoint(gs + [h])
    ensures Members(gs + [h]) == Members(gs) + set v | v in h
  {
    var gs' := gs + [h];
    assert gs'[..|gs'| - 1] == gs;
    MembersIff(gs);
    assert forall c :: 0 <= c < |gs| ==> gs'[c] == gs[c];
    forall c, d, v | 0 <= c < |gs'| && 0 <= d < |gs'| && v in gs'[c] && v in gs'[d]
      ensures c == d
    {
      if c < |gs| && d < |gs| {
        assert v in gs[c] && v in gs[d];
      }
    }
  }

  lemma {:induction false} MembersConcat(a: seq<seq<int>>, b: seq<seq<int>>)
    ensures Members(a + b) == Members(a) + Members(b)
  {
    if b == [] {
      assert a + b == a;
    } else {
      var init := b[..|b| - 1];
      MembersConcat(a, init);
      assert (a + b)[..|a + b| - 1] == a + init;
    }
  }

  lemma {:induction false} SeqSetSize(s: seq<int>)
    ensures |set v | v in s| <= |s|
  {
    if s != [] {
      var init := s[..|s| - 1];
      SeqSetSize(init);
      assert (set v | v in s) == (set v | v in init) + {s[|s| - 1]};
    }
  }

  lemma UnionAtMost(a: set<int>, b: set<int>)
    ensures |a + b| <= |a| + |b|
  {
    assert |a + b| + |a * b| == |a| + |b|;
  }

  /** Groups of at most `k` nodes hold at most `k` nodes per group. */
  lemma {:induction false} MembersAtMost(gs: seq<seq<int>>, k: nat)
    requires forall c :: 0 <= c < |gs| ==> |gs[c]| <= k
    ensures |Members(gs)| <= k * |gs|
  {
    if gs != [] {
      var n := |gs| - 1;
      var init := gs[..n];
      var last := gs[n];
      assert forall c :: 0 <= c < n ==> init[c] == gs[c];
      MembersAtMost(init, k);
      SeqSetSize(last);
      var here := set v | v in last;
      UnionAtMost(Members(init), here);
      assert k * |gs| == k * n + k by {
        assert |gs| == n + 1;
      }
    }
  }
}
