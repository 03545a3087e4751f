# Multilevel MaxCut coarsening, modelled in Dafny

This project models the core of a multilevel MaxCut pipeline and proves properties of that model. The pipeline does five things:

- It shrinks a weighted graph by grouping its nodes into aggregates. The grouping comes from random matching, heavy-edge matching, a seed-and-grow heuristic, or a list of edges chosen by a learned scorer.
- It contracts each group to a coarse node labelled `c0`, `c1`, …, merging parallel coarse edges and dropping edges inside a group.
- It builds the QUBO matrix of a MaxCut instance and evaluates its quadratic energy.
- It lifts a coarse 0/1 assignment back to the fine nodes and improves it with greedy single-node flips.
- It computes exact MaxCut by enumerating bitmasks, and scores a coarsening by enumerating the coarse assignments and lifting each one.

## Modules

- `graph.dfy` (`Graphs`): the graph value. It has a node sequence and an edge sequence whose weight attribute is optional (`W(e)` defaults to 1). It also defines neighbours, degrees, assignments and cut values.
- `groups.dfy` (`Groups`): the members of a list of groups, disjointness, and `node_to_coarse` (`LabelMap`), which is built one dictionary write at a time.
- `sorting.dfy` (`Sorting`): Python's stable `sorted` as a stable insertion sort on a real key.
- `contraction.dfy` (`Contraction`): `_contract_pairs` and the facts about the coarse graph.
- `matching.dfy` (`Matching`): the greedy "accept an edge if neither end is used" scan plus the singleton pass. Heavy-edge matching and `contract_edge_list` share it.
- `classical.dfy` (`Classical`): `random_matching`, `heavy_edge_matching` and `amg_inspired_placeholder`.
- `ml_guided.dfy` (`MlGuided`): `extract_edge_features`, `predict_edges_to_contract` and `contract_edge_list`.
- `refinement.dfy` (`Refinement`): `lift_solution`, `local_refinement` and its inner `cut_value`.
- `qubo.dfy` (`Qubo`): `maxcut_to_qubo` on a Dafny `array2`, and `qubo_energy`.
- `experiments.dfy` (`Experiments`): `exact_maxcut_value` and `evaluate_coarsening`.

## How the source maps to Dafny

- Coarse labels `c{idx}` are the integers `idx`.
- A mapping `{label: members}` is a `seq<seq<int>>` indexed by label.
- Weights are integers and are summed exactly.
- Loops that update state are methods with loop invariants. Each is proved either equal to a specification function whose properties are lemmas, or directly to establish the properties its contract states (random matching, group growing, seed-and-grow, the refinement passes). Random choices are nondeterministic choices (`:|`), so every contract holds for every choice the source could make.

Where the code and its documentation disagree, the model follows the code:

- **Edge count `k`.** The code computes `max(1, int(top_k * n))` only for `0 < top_k < 1`, and plain `int(top_k)` otherwise.
  - Truncation, not rounding, is used.
  - A `k` of 0 returns every edge, because `[-0:]` slices from the start.
  - A negative `k` drops the first `-k` edges.
  - A non-positive `top_k` is never clamped to 1.
- **Chosen-edge order.** The chosen edges come in ascending score order (an argsort tail), and `contract_edge_list` scans them in that order, not in descending score.
- **QUBO energy.** The matrix `maxcut_to_qubo` builds does not encode the negated cut. For a 0/1 vector, its energy is the sum over edges of `w·(x_i + x_j − 4·x_i·x_j)`. That equals the cut minus twice the weight of the edges with both ends at 1 (`Qubo.EnergyAgainstCut`).

## Model

| member | source | states |
|---|---|---|
| Graphs.Neighbors | src/coarsening/classical.py:62 | `G.neighbors(v)`: a node is listed iff an edge joins it to `v` |
| Graphs.NeighborsAmongNodes | src/coarsening/ml_guided.py:22 | the neighbours of a node are exactly the graph's nodes joined to it by an edge |
| Graphs.CutNonNegative | experiments/baseline_vs_ml.py:27-33 | with non-negative weights a cut value is never negative |
| Graphs.CutOfConstant | experiments/baseline_vs_ml.py:27-33 | an assignment constant on every edge end cuts nothing |
| Graphs.CutAgrees | src/refinement.py:31-39 | the cut depends only on the values at the edge ends |
| Groups.LabelMapValid | src/coarsening/classical.py:17-22 | `node_to_coarse` has exactly the members as keys, and each label names a group holding that node |
| Groups.LabelOfMember | src/coarsening/classical.py:18-21 | with disjoint groups, a member of group `c` is labelled `c` |
| Groups.TagValid | src/coarsening/classical.py:20-21 | tagging a group adds exactly its nodes, gives them the label and leaves other entries alone |
| Groups.AppendDisjoint | src/coarsening/classical.py:22 | appending a group of fresh nodes keeps the groups disjoint and adds its nodes to the members |
| Groups.MembersAtMost | src/coarsening/classical.py:60-68 | groups of at most `k` nodes each hold at most `k` times as many nodes as there are groups |
| Sorting.SortBy | src/coarsening/classical.py:80 | `sorted` returns a permutation of its input in non-decreasing key order |
| Sorting.SortStable | src/coarsening/classical.py:80 | `sorted` is stable: for every key, the elements with that key keep their input order (this also holds with `reverse=True`, which is the ascending sort on the negated key) |
| Sorting.KeyedInsert | src/coarsening/classical.py:80 | insertion puts the new element ahead of every element with the same key |
| Sorting.KeyedFirst | src/coarsening/classical.py:80 | the first element kept for a key is the first element of the input with that key |
| Sorting.KeyedOrder | src/coarsening/classical.py:80 | two elements with the same key appear in the kept sequence in their input order |
| Sorting.InsertSorted | src/coarsening/classical.py:80 | stable insertion keeps a sorted sequence sorted |
| Sorting.InsertPermutes | src/coarsening/classical.py:80 | insertion adds exactly the one element |
| Contraction.Fill | src/coarsening/classical.py:24-31 | the singleton pass keeps the given groups as a prefix and appends one singleton per uncovered node, so that every node is then a member |
| Contraction.FillDisjoint | src/coarsening/classical.py:24-31 | the singleton pass keeps disjoint groups disjoint |
| Contraction.FillNoOp | src/coarsening/ml_guided.py:91-106 | when the groups already hold every node the singleton pass adds nothing, so `contract_edge_list`'s inline copy, which lacks it, agrees with `_contract_pairs` |
| Contraction.MappingPartitions | src/coarsening/classical.py:17-31 | disjoint groups of graph nodes give a mapping that partitions the nodes |
| Contraction.CoarseLabels | src/coarsening/classical.py:17-31 | every end of every edge has a label, and every label is below the number of groups |
| Contraction.AccumulateValid | src/coarsening/classical.py:33-43 | the `edge_weights` keys are distinct, ordered pairs, each with an entry |
| Contraction.KeysAreLabels | src/coarsening/classical.py:33-43 | every key pairs two labels of the mapping |
| Contraction.KeysAreCrossings | src/coarsening/classical.py:35-43 | a pair is a key iff some fine edge crosses between those two groups |
| Contraction.TableEntry | src/coarsening/classical.py:35-43 | each accumulated weight is the sum of the weights of the fine edges crossing between its two groups |
| Contraction.AccumulateSums | src/coarsening/classical.py:33-43 | summing the table over any set of keys gives the summed weight of the crossing edges with those keys |
| Contraction.CrossWeightByLabel | src/coarsening/classical.py:35-43 | with disjoint groups, the weight crossing from group `a` to `b` is the weight of the edges whose labels are `(a, b)` |
| Contraction.CrossAllIsTotalMinusIntra | src/coarsening/classical.py:38-39 | the weight of the crossing edges is the total weight minus the intra-group weight |
| Contraction.CoarseCutIsSum | src/coarsening/classical.py:46-47 | the coarse cut is the sum of the table entries whose two groups get different values |
| Contraction.FineCutIsCrossSum | src/coarsening/classical.py:35-43 | a fine assignment that follows the labels cuts exactly the crossing edges between differently valued groups |
| Contraction.ValidTableGraph | src/coarsening/classical.py:45-47 | a valid table yields a graph with distinct nodes, no self-loops, no parallel edges and non-negative weights |
| Contraction.CoarseWellFormed | src/coarsening/classical.py:35-47 | the coarse graph has one node per group, no self-loops, no parallel edges and, for non-negative fine weights, non-negative weights |
| Contraction.CoarseEdgeWeights | src/coarsening/classical.py:34-47 | every coarse edge `{A, B}` weighs the summed weight of the fine edges between group `A` and group `B` |
| Contraction.CoarseTotalWeight | src/coarsening/classical.py:34-47 | total coarse weight equals total fine weight minus intra-group weight |
| Contraction.CoarseEdgeIffCrossing | src/coarsening/classical.py:35-47 | a coarse edge `(a, b)` exists iff a fine edge crosses between groups `a` and `b` |
| Contraction.LabelGroups | src/coarsening/classical.py:17-22 | the labelling loop builds `node_to_coarse` and the mapping of the given groups |
| Contraction.AddSingletons | src/coarsening/classical.py:24-31 | the singleton loop gives each uncovered node the next fresh label |
| Contraction.SumEdgeWeights | src/coarsening/classical.py:33-43 | the accumulation loop builds the valid table of crossing weights |
| Contraction.BuildCoarseEdges | src/coarsening/classical.py:45-47 | one coarse edge per table key, carrying the accumulated weight |
| Contraction.ContractPairs | src/coarsening/classical.py:11-49 | `_contract_pairs`: the coarse graph has the labels `0 .. |mapping| - 1` as nodes and edges only between different labels |
| Matching.AcceptedAreCandidates | src/coarsening/classical.py:81-86 | every accepted pair is a candidate |
| Matching.AcceptedDisjoint | src/coarsening/classical.py:81-86 | no two accepted pairs share a node |
| Matching.AcceptedMaximal | src/coarsening/classical.py:81-86 | every candidate has an end in some accepted pair (maximality) |
| Matching.FirstAccepted | src/coarsening/classical.py:81-86 | the first candidate is always accepted, as the first pair |
| Matching.AcceptedGroups | src/coarsening/classical.py:86 | the accepted pairs as groups are disjoint and hold exactly their ends |
| Matching.SingletonsDisjoint | src/coarsening/classical.py:88-91 | adding singletons for the unused nodes keeps the groups disjoint |
| Matching.SingletonsCover | src/coarsening/classical.py:88-91 | after the singletons, the groups are disjoint and hold every node |
| Matching.SingletonsMembers | src/coarsening/classical.py:88-91 | the singletons hold exactly the unused nodes |
| Matching.GreedyMembers | src/coarsening/ml_guided.py:82-94 | the groups hold every node and every end of an accepted pair |
| Matching.GreedyPartitions | src/coarsening/ml_guided.py:82-94 | with distinct nodes and candidates between nodes, the groups partition the nodes |
| Matching.EndsCount | src/coarsening/ml_guided.py:84-89 | the accepted pairs have twice as many ends as pairs |
| Matching.SingletonsCount | src/coarsening/ml_guided.py:91-94 | one singleton per node outside the used set |
| Matching.GreedyCount | src/coarsening/ml_guided.py:84-94 | the number of groups is the number of nodes minus the number of accepted pairs |
| Matching.GreedyMatch | src/coarsening/ml_guided.py:82-94 | the scan-and-fill loops build the greedy groups |
| Classical.Keep | src/coarsening/classical.py:62 | the comprehension keeps exactly the unmatched members of the list |
| Classical.AtLeastHalf | src/coarsening/classical.py:60-68 | groups of at most two that partition the nodes number at least half the nodes |
| Classical.RandomStep | src/coarsening/classical.py:61-68 | one turn keeps the groups disjoint, made of single nodes or adjacent pairs, and holding exactly the nodes no longer unmatched |
| Classical.RandomDone | src/coarsening/classical.py:60-70 | when nothing is unmatched the groups partition the nodes, and the contraction adds no singleton |
| Classical.MatchOne | src/coarsening/classical.py:61-68 | one turn of the `while unmatched` loop keeps that invariant and shrinks `unmatched` |
| Classical.RandomMatching | src/coarsening/classical.py:52-71 | `random_matching` for every outcome of `set.pop` and `random.choice`: the groups partition the nodes, each is a node or two adjacent nodes, and there are at least half as many coarse nodes as nodes |
| Classical.HeavyOrder | src/coarsening/classical.py:80 | the visiting order is a permutation of the edges with non-increasing weights |
| Classical.HeavyCandidates | src/coarsening/classical.py:80-81 | the candidates are exactly the edges' end pairs |
| Classical.HeavyMaximalMatching | src/coarsening/classical.py:80-86 | the accepted pairs form a matching, and every edge has an end in it |
| Classical.HeaviestAccepted | src/coarsening/classical.py:80-86 | the first edge of the order is the first edge of maximal weight in edge order, and it is always accepted first |
| Classical.HeavyEdgeExample | tests/test_coarsening.py:12-18 | for edges `0-1` of weight 5 and `1-2` of weight 1, the groups are `[0, 1]` and `[2]` |
| Classical.HeavyCovers | src/coarsening/classical.py:88-93 | the heavy-edge groups hold every node, so the contraction adds no singleton |
| Classical.HeavyPartitions | src/coarsening/classical.py:74-94 | with distinct nodes the heavy-edge groups partition the nodes |
| Classical.HeavyEdgeMatching | src/coarsening/classical.py:74-94 | `heavy_edge_matching` contracts the greedy groups of the heaviest-first order |
| Classical.UpToAppend | src/coarsening/classical.py:114 | appending a group does not change the nodes used before an earlier group |
| Classical.GrowGroup | src/coarsening/classical.py:108-113 | a grown group is its seed plus up to two unused neighbours of the seed; a group smaller than three means every neighbour of the seed is now used |
| Classical.AmgSkip | src/coarsening/classical.py:106-107 | skipping a used node keeps the loop invariant |
| Classical.AmgAdd | src/coarsening/classical.py:108-114 | adding a grown group keeps the loop invariant |
| Classical.AmgDone | src/coarsening/classical.py:102-114 | at the end the groups partition the nodes and their seeds come in non-increasing degree order |
| Classical.AmgInspiredPlaceholder | src/coarsening/classical.py:97-117 | the groups partition the nodes and hold 1–3 distinct nodes, each a seed plus neighbours of it. Seeds come in non-increasing degree order. A group under three nodes left no unused neighbour of its seed. |
| MlGuided.CommonNeighborsIff | src/coarsening/ml_guided.py:29 | a node is a common neighbour iff it is adjacent to both ends and is neither end |
| MlGuided.DegreeMapValid | src/coarsening/ml_guided.py:22 | `dict(G.degree())` has every node, with its degree |
| MlGuided.CommonAmongNodes | src/coarsening/ml_guided.py:29 | `nx.common_neighbors(G, u, v)` is the set of graph nodes adjacent to both ends, other than the ends |
| MlGuided.FeaturesMeaning | src/coarsening/ml_guided.py:22-36 | the row has 7 entries. They are the number of nodes adjacent to each end, the two clustering values (0.0 when absent), the weight (1 when absent), the number of nodes adjacent to both ends other than the ends, and the Jaccard value. |
| MlGuided.EdgeRow | src/coarsening/ml_guided.py:28-36 | the row built from the precomputed degree dictionary is the edge's feature row |
| MlGuided.ExtractOne | src/coarsening/ml_guided.py:27-38 | one turn appends the edge's pair and its row |
| MlGuided.ExtractEdgeFeatures | src/coarsening/ml_guided.py:12-40 | the edge pairs in edge order, and one row per edge: row `i` is edge `i`'s feature row, whose entries `FeaturesMeaning` describes |
| MlGuided.Trunc | src/coarsening/ml_guided.py:70 | `int(x)` truncates toward zero |
| MlGuided.KRuleFraction | src/coarsening/ml_guided.py:69-70 | a fraction asks for at least one edge and, on a non-empty graph, at most all of them |
| MlGuided.SliceKeeps | src/coarsening/ml_guided.py:74 | `[-k:]` keeps the last `min(k, n)` for `k >= 1`, everything for `k == 0`, and all but the first `-k` for `k < 0` |
| MlGuided.ArgsortValid | src/coarsening/ml_guided.py:74 | `argsort` is a permutation of the edge indices in non-decreasing score order |
| MlGuided.ArgsortTies | src/coarsening/ml_guided.py:74 | indices with equal scores stay in increasing index order |
| MlGuided.PredictEdgesToContract | src/coarsening/ml_guided.py:61-76 | the chosen pairs are the end pairs of the argsort tail, in that order |
| MlGuided.PredictCount | src/coarsening/ml_guided.py:67-75 | how many edges come back for each sign of `k` |
| MlGuided.TopKAbove | src/coarsening/ml_guided.py:74-75 | every chosen edge scores at least as much as every edge left out |
| MlGuided.TopKAscending | src/coarsening/ml_guided.py:74-75 | the chosen edges come in ascending score order |
| MlGuided.ZeroKeepsAll | src/coarsening/ml_guided.py:71-74 | `k == 0` returns every edge |
| MlGuided.ContractEdgeList | src/coarsening/ml_guided.py:79-123 | `contract_edge_list` builds the greedy groups of the list and contracts them. The result equals `_contract_pairs` on those groups, and the coarse nodes are the labels. |
| MlGuided.ContractEdgeListShape | src/coarsening/ml_guided.py:84-119 | for a list of edges between distinct nodes, the groups partition the nodes, and the coarse graph has one node fewer than the fine graph per accepted edge |
| Refinement.LiftedFollowsLabels | src/refinement.py:18-23 | the lifted keys are exactly the members, and each member gets the coarse value of its label (0 when the label is missing) |
| Refinement.LiftedMember | src/refinement.py:19-22 | with disjoint groups, every member of group `c` gets `c`'s value |
| Refinement.LiftedBinary | src/refinement.py:20-22 | a 0/1 coarse assignment lifts to a 0/1 fine assignment |
| Refinement.LiftSolution | src/refinement.py:10-23 | the nested loop builds the lifted dictionary |
| Refinement.LiftPreservesCut | src/refinement.py:19-22 | for the mapping of `_contract_pairs`, the fine cut of the lifted assignment equals the coarse cut |
| Refinement.NegatedCut | src/refinement.py:31-39 | `cut_value` is minus the cut |
| Refinement.RefinePass | src/refinement.py:47-56 | a pass keeps the keys and 0/1 values. If it keeps a flip, the cut strictly increases; if not, the solution is unchanged and no single flip increases the cut. A pass over a 1-flip-optimal solution keeps no flip. |
| Refinement.LocalRefinement | src/refinement.py:26-57 | `max_iter <= 0` returns the input, even a partial one. Otherwise the keys and 0/1 values are kept, the cut never decreases, and a changed result has a strictly larger cut. A 1-flip-optimal input, or any input on a graph without edges, comes back unchanged. The result is 1-flip optimal unless every one of `max_iter` passes improved it. |
| Qubo.IndexMapValid | src/quantum/qubo.py:16-19 | over distinct nodes, `idx` and `node_list` are inverse to each other |
| Qubo.AddEdge | src/quantum/qubo.py:24-28 | the four updates of one edge add its contribution and change nothing else |
| Qubo.MaxcutToQubo | src/quantum/qubo.py:6-30 | `Q` is `n`-by-`n` over the node list, each cell is the sum of the edge contributions, and an edgeless graph gives the zero matrix |
| Qubo.QEntrySymmetric | src/quantum/qubo.py:24-28 | `Q` is symmetric |
| Qubo.QEntryDiagonal | src/quantum/qubo.py:24-26 | a diagonal cell is the weighted degree of its node |
| Qubo.QEntryOffDiagonal | src/quantum/qubo.py:27-28 | an off-diagonal cell is -2 times the weight joining its two nodes |
| Qubo.PairWeightOfEdge | src/quantum/qubo.py:27-28 | without parallel edges, the weight joining an edge's ends is that edge's weight |
| Qubo.QCellOffDiagonal | src/quantum/qubo.py:20-28 | on a simple graph an off-diagonal cell is -2·w for the edge joining its nodes and 0 for non-adjacent nodes |
| Qubo.TriangleQubo | src/quantum/qubo.py:20-28 | the unit triangle gives 2 on the diagonal and -2 elsewhere |
| Qubo.EnergyAdd | src/quantum/qubo.py:33-36 | the energy is additive in the matrix |
| Qubo.EnergyOfEdges | src/quantum/qubo.py:20-28 | for a 0/1 vector the energy of the accumulated matrix is the sum over edges of `w·(x_i + x_j − 4·x_i·x_j)` |
| Qubo.QuboEnergyOfGraph | src/quantum/qubo.py:33-36 | `qubo_energy(x, Q)` of the matrix `maxcut_to_qubo` builds is that sum over edges |
| Qubo.EnergyAgainstCut | src/quantum/qubo.py:20-28 | that sum is the cut minus twice the weight of the edges with both ends at 1 |
| Qubo.ZeroQuboEnergy | src/quantum/qubo.py:33-36 | the all-zero vector has energy 0 |
| Experiments.EncodeBits | experiments/baseline_vs_ml.py:25-26 | every 0/1 vector of length `n` is the bit vector of some `i < 2^n` |
| Experiments.BitIsBit | experiments/baseline_vs_ml.py:26 | `(i >> j) & 1` is 0 or 1 |
| Experiments.FirstIndex | experiments/baseline_vs_ml.py:30-31 | `nodes.index(v)` is the first position holding `v` |
| Experiments.MaxIsUpper | experiments/baseline_vs_ml.py:34-36 | the running maximum is at least every value seen |
| Experiments.MaxAttained | experiments/baseline_vs_ml.py:34-36 | the running maximum is one of the values seen |
| Experiments.MaskCutIsCut | experiments/baseline_vs_ml.py:27-33 | the value of mask `i` is the cut of the assignment that gives each node its bit |
| Experiments.ExactMaxcutValue | experiments/baseline_vs_ml.py:19-37 | the enumeration returns the largest mask value |
| Experiments.ExactIsUpperBound | experiments/baseline_vs_ml.py:25-37 | the result is at least the cut of every 0/1 assignment of the nodes |
| Experiments.ExactAttained | experiments/baseline_vs_ml.py:25-37 | the result is the cut of some 0/1 assignment of the nodes |
| Experiments.ExactEmpty | experiments/baseline_vs_ml.py:23-37 | with no nodes or no edges the result is 0 |
| Experiments.ExactNonNegative | experiments/baseline_vs_ml.py:25-37 | with non-negative weights the result is at least 0 |
| Experiments.SolOfValid | experiments/baseline_vs_ml.py:49 | `sol` has exactly the coarse nodes as keys, with 0/1 values for a 0/1 vector |
| Experiments.SolOfAt | experiments/baseline_vs_ml.py:49 | over distinct coarse nodes, `sol[nodes[j]]` is `x[j]` |
| Experiments.LiftEvery | experiments/baseline_vs_ml.py:51-54 | the inline lifting equals `lift_solution` when every label has a value |
| Experiments.CutOf | experiments/baseline_vs_ml.py:56-60 | the inline loop computes the cut |
| Experiments.EvaluateCoarsening | experiments/baseline_vs_ml.py:40-63 | the enumeration returns the largest fine cut over the lifted coarse masks |
| Experiments.EvalBelowExact | experiments/baseline_vs_ml.py:46-62 | when the mapping covers every node, the value of a coarsening is at most the exact MaxCut |
| Experiments.EvalNonNegative | experiments/baseline_vs_ml.py:46-62 | with non-negative weights the value of a coarsening is at least 0 |
| Experiments.EvalIsCoarseOptimum | experiments/baseline_vs_ml.py:40-63 | for a coarsening made by `_contract_pairs`, the value equals the exact MaxCut of the coarse graph |

## Left out

- Floating point: weights, sums, `qubo_energy`'s `float(...)` and the `-inf` start value. Weights are exact integers, and the `-inf` start is a "nothing seen yet" flag.
- Refinement.LocalRefinement: the bound "at least `max_iter` more cut unless 1-flip optimal" relies on integer weights. With real weights only the strict increase per improving pass carries over.
- Randomness: `random.seed`, `random.choice`, `random.shuffle` and the order of `set.pop`. These are open choices, and the contracts hold for all of them; reproducibility under a seed is not modelled.
- The learned scorer: `train_edge_scorer`, scikit-learn's forest and `train_test_split`. `model.predict` is replaced by a sequence of scores given as input.
- MlGuided.ExtractEdgeFeatures: the clustering coefficients and the Jaccard coefficient are networkx computations on floats. They are inputs (`clustering`, `jaccard`), and the `StopIteration` fallback is not modelled.
- MlGuided.PredictEdgesToContract: equal scores are kept in index order by a stable sort. `np.argsort`'s default sort leaves the order of ties unspecified.
- Contraction.ContractPairs: the coarse edges come in the order their keys were first added to `edge_weights`. The networkx graph built from them lists its edges in adjacency order, which can differ. Only the order differs, not the edges or weights.
- Graphs.Neighbors: neighbours come in edge order. networkx iterates its adjacency dictionaries in insertion order, which can differ, and the order decides `random.choice`'s list and the grow order of seed-and-grow groups.
- Graphs.Degree counts a self-loop once where networkx counts it twice. The diagonal lemmas of `Qubo` assume graphs without self-loops.
- Contraction.ContractPairs: labels are compared as integers where the source compares the strings `c{idx}`. This only decides which end comes first in a coarse edge key, and any consistent order merges the same parallel edges.
- Missing keys: where the source would raise `KeyError` or `ValueError`, the model has a precondition. This covers an edge end with no label, a node with no value in `local_refinement` when `max_iter > 0`, a coarse label missing from the coarse graph in `evaluate_coarsening`, and `nodes.index` of a non-node.
- `best_assign` in `exact_maxcut_value` is written but never returned, so it is not modelled.
- Experiment orchestration (`run_once`, `main`), graph generation and the QAOA stand-in are outside this model.
