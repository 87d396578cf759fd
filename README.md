# QIRO graph reduction, modelled in Dafny

This project models the graph-reduction engine of a QIRO solver
(Quantum-Informed Recursive Optimization) for minimum vertex cover and
maximum independent set. The engine works on a `Problem`, a mutable
undirected graph, assumed here to have no self-loops. Each round, a
correlation oracle scores every node and every edge. The scores are ranked
by descending absolute value. The simplifier then applies the first
elimination rule that accepts an entry. A rule moves nodes into the
solution, deletes nodes from the graph and sweeps out the nodes left with
degree zero. The solver repeats rounds until no edge remains.

Modules, one file each:

- `results.dfy`: `Option`, `Result` and the two errors the engine raises.
- `graphs.dfy`: the graph as a value. It has a node set and a symmetric edge
  set holding both orientations of each edge. `Valid` says that edges join
  two distinct present nodes and come in both orientations.
- `problem.dfy`: class `Problem`, whose field `graph` the mutating methods
  reassign.
- `validity.dfy`: the solution checks over an edge list, tied to
  graph-level predicates.
- `rules.dfy`: the four rules. Each has a specification function from
  (graph, solution) to the step it takes, and an imperative method on
  `Problem` proved against that function. Lemmas state what each step does
  and what it guarantees.
- `correlations.dfy`: `_build_corr_entries`. It covers the sorted node and
  edge lists, the positional pairing with the scores and the stable ranking
  by descending absolute score.
- `simplifier.dfy`: class `Simplifier`. Its `Simplify` loop is proved
  against `FirstApplicable`.
- `solver.dfy`: the round (`Reducer.Reduce`) and the fixpoint loop
  (`QIROSolver.Solve`), with the loop invariants of each rule family.

Two details of the code shape the model:

- In the anti-correlated vertex-cover two-point rule, a degree tie keeps `u`
  (algorithms/qiro/rules.py:79).
- The ranking by absolute score happens in `_build_corr_entries`
  (algorithms/commons/state_preparation.py:196). The simplifier walks the
  list in the order given and does not reorder it.

The model also proves a fact about a round. The ranked list always holds a
one-point entry for every node, and one-point rules never decline. So a
round on a graph with an edge cannot raise
`NoApplicableSimplificationRuleError` (`Solver.RoundNeverRaises`). The only
error a round itself raises is the length `ValueError` of
`_build_corr_entries`. This holds for entries that `_build_corr_entries`
built from the measured score vector. Failures on the measurement side are
outside the model (see "Left out").

## Model

| member | source | states |
|---|---|---|
| `Graphs.Graph.WithoutNodes` | algorithms/problems/problems.py:22-23 | Deleting nodes keeps the graph valid. The result's nodes are the old ones minus the deleted set. A surviving node's neighbours are its old neighbours minus the deleted set. |
| `Graphs.WithoutNodesPresentPart` | algorithms/problems/problems.py:22-23 | Two removal sets with the same present nodes give the same graph. Absent nodes in a partly absent set are skipped. |
| `Graphs.Graph.WithoutEdges` | algorithms/problems/problems.py:28-29 | Deleting edges keeps validity and every node. An edge survives exactly when neither of its orientations was deleted. |
| `Graphs.WithoutAbsentNodes` | algorithms/problems/problems.py:22-23 | Removing nodes that are not in the graph changes nothing. |
| `Graphs.WithoutNodesTwice` | algorithms/problems/problems.py:22-23 | Removing `a` and then `b` equals removing `a + b`. |
| `Graphs.WithoutNodesInduced` | algorithms/problems/problems.py:22-23 | Removing nodes from an induced subgraph of `g` yields an induced subgraph of `g`. |
| `Graphs.DegreeCountsIncidentEdges` | algorithms/problems/problems.py:34-38 | The degree (the number of neighbours) equals the number of incident edges. |
| `Graphs.IsolatedMeansNoEdge` | algorithms/qiro/rules.py:56 | A node has degree zero exactly when no edge touches it. |
| `Graphs.NoEdgesIff` | algorithms/problems/problems.py:49-50 | The undirected edge count is zero exactly when the edge set is empty. |
| `Problems.Problem.constructor` | algorithms/problems/problems.py:16-17 | The problem wraps the given valid graph. |
| `Problems.Problem.RemoveNode` | algorithms/problems/problems.py:19-20 | Requires the node to be present. Deletes it and its incident edges and nothing else. The node count drops by one. |
| `Problems.Problem.RemoveNodes` | algorithms/problems/problems.py:22-23 | Deletes the present nodes of the set and their edges, and skips absent ones. |
| `Problems.Problem.RemoveEdge` | algorithms/problems/problems.py:25-26 | Requires the edge to be present. Deletes it in both orientations and no node. The edge count drops by one. |
| `Problems.RemovedEdgeCount` | algorithms/problems/problems.py:25-26 | Deleting one present undirected edge lowers the edge count by exactly one. |
| `Problems.Problem.RemoveEdges` | algorithms/problems/problems.py:28-29 | Deletes the listed edges in either orientation, skips absent ones and keeps every node. |
| `Problems.Problem.Degree` | algorithms/problems/problems.py:34-35 | Requires the node to be present. Returns the number of edges incident to it. |
| `Problems.Problem.Neighbors` | algorithms/problems/problems.py:37-38 | Requires the node to be present. Returns exactly the nodes adjacent to it. These are present nodes, and the node itself is not among them. |
| `Problems.Problem.Edges` | algorithms/problems/problems.py:43-44 | Returns each undirected edge once, as (smaller, larger). |
| `Problems.Problem.NumberOfNodes` | algorithms/problems/problems.py:46-47 | Equals the size of `nodes()`. |
| `Problems.Problem.NumberOfEdges` | algorithms/problems/problems.py:49-50 | Equals the size of `edges()`, and is zero exactly when the graph has no edge. |
| `Problems.Problem.Copy` | algorithms/problems/problems.py:52-53 | Returns a fresh problem with an equal graph. Mutating one later cannot affect the other. |
| `Validity.IsVertexCover` | utils.py:34-47 | Defines `is_vertex_cover` over the edge list. `VertexCoverIffNoneUncovered` and `ChecksAgreeWithGraph` characterise it. |
| `Validity.UncoveredEdges` | utils.py:49-59 | Lists exactly the edges, in list order, with neither endpoint in the cover. |
| `Validity.IsIndependentSet` | utils.py:62-63 | Defines `is_independent_set` over the edge list. `IndependentIffNoneViolating` and `ChecksAgreeWithGraph` characterise it. |
| `Validity.ViolatingEdges` | utils.py:65-66 | Lists exactly the edges, in list order, with both endpoints in the set. |
| `Validity.VertexCoverIffNoneUncovered` | utils.py:47-59 | `is_vertex_cover` holds exactly when `uncovered_edges` is empty. |
| `Validity.IndependentIffNoneViolating` | utils.py:62-66 | `is_independent_set` holds exactly when `violating_edges` is empty. |
| `Validity.EdgelessAcceptsEverything` | utils.py:47-63 | On an edgeless graph, both checks accept every set. |
| `Validity.ChecksAgreeWithGraph` | utils.py:34-63 | On a list of the graph's edges, the list checks agree with the graph-level cover and independence predicates. |
| `Validity.UncoveredEdgesKeepOrder` | utils.py:59 | Filtering a concatenation concatenates the filtered parts, so list order is kept. |
| `Validity.ViolatingEdgesKeepOrder` | utils.py:66 | Filtering a concatenation concatenates the filtered parts, so list order is kept. |
| `Rules.SweepIsFinal` | algorithms/qiro/rules.py:56-57 | The sweep deletes no edge and leaves no node of degree zero. |
| `Rules.SweepAfterRemoval` | algorithms/qiro/rules.py:122-127 | After deleting a set, the swept nodes are exactly those whose every neighbour was deleted. The survivors are those with a neighbour left. |
| `Rules.RemovalShrinks` | algorithms/qiro/rules.py:46-57 | Deleting a set holding a present node, then sweeping, has three results. The graph stays a valid induced subgraph, has no isolated node, and has strictly fewer nodes. |
| `Rules.RemovalProgress` | algorithms/qiro/rules.py:46-57 | Such a removal, adding only deleted nodes to the solution, makes progress under either sweep. |
| `Rules.DropKeepsCover` | algorithms/qiro/rules.py:46-57 | A vertex-cover step leaves every deleted edge covered when each edge touching the deleted set has an endpoint in the new solution. |
| `Rules.CollectKeepsIndependence` | algorithms/qiro/rules.py:111-127 | An independent-set step adds no two adjacent nodes and leaves no added node adjacent to the graph. This holds when the added nodes' neighbours are all deleted. |
| `Rules.VertexCoverOnePoint` | algorithms/qiro/rules.py:46-57 | The step of the vertex-cover one-point rule. `VertexCoverOnePointEffect` and `VertexCoverOnePointSound` characterise it. |
| `Rules.VertexCoverOnePointEffect` | algorithms/qiro/rules.py:46-57 | If c >= 0: the node and its neighbours leave, and exactly the neighbours join the solution; the node does not. If c < 0: the node leaves and joins the solution. In both cases the sweep then drops the nodes the removal strands, without adding them. The survivors are exactly the nodes that keep a neighbour. |
| `Rules.VertexCoverOnePointSound` | algorithms/qiro/rules.py:46-62 | The rule makes progress, and every edge it deletes has an endpoint in the solution. |
| `Rules.Chosen` | algorithms/qiro/rules.py:79 | Picks `u` or `v`, and the pick has the larger degree. On a tie it picks `u`. |
| `Rules.VertexCoverTwoPoints` | algorithms/qiro/rules.py:78-89 | The step of the vertex-cover two-point rule. `VertexCoverTwoPointsEffect` and `VertexCoverTwoPointsSound` characterise it. |
| `Rules.VertexCoverTwoPointsEffect` | algorithms/qiro/rules.py:78-89 | If c < 0: `u` leaves and joins the solution when degree(u) >= degree(v), otherwise `v` does, and the other endpoint is not added. If c >= 0: both leave and join the solution. In every case the sweep then drops the nodes the removal strands, without adding them. The survivors are exactly the nodes that keep a neighbour. |
| `Rules.VertexCoverTwoPointsSound` | algorithms/qiro/rules.py:78-94 | The rule makes progress, and every edge it deletes stays covered. |
| `Rules.MaxIndependentSetOnePoint` | algorithms/qiro/rules.py:111-127 | The step of the independent-set one-point rule. `MaxIndependentSetOnePointEffect` and `MaxIndependentSetOnePointSound` characterise it. |
| `Rules.MaxIndependentSetOnePointEffect` | algorithms/qiro/rules.py:111-127 | If c <= 0: the node and its neighbours leave, and the node joins the solution. If c > 0: the node leaves and is not added. In both cases the nodes the removal strands also leave and join the solution. The survivors are exactly the nodes that keep a neighbour. |
| `Rules.MaxIndependentSetOnePointSound` | algorithms/qiro/rules.py:111-129 | The rule makes progress, and no added node has a neighbour that is added with it or left in the graph. |
| `Rules.MaxIndependentSetTwoPoints` | algorithms/qiro/rules.py:147-166 | The step of the independent-set two-point rule, or `None` when it declines. `MaxIndependentSetTwoPointsEffect` and `MaxIndependentSetTwoPointsSound` characterise it. |
| `Rules.MaxIndependentSetTwoPointsEffect` | algorithms/qiro/rules.py:147-166 | It declines exactly when c < 0 and `u`, `v` share no neighbour. If c < 0 otherwise, the common neighbours leave. If c >= 0, `u` and `v` leave and neither is added. In both applying cases the nodes the removal strands also leave and join the solution. The survivors are exactly the nodes that keep a neighbour. |
| `Rules.MaxIndependentSetTwoPointsSound` | algorithms/qiro/rules.py:147-168 | When it applies, the rule makes progress and keeps independence. |
| `Rules.IsolatedNodes` | algorithms/qiro/rules.py:56 | The comprehension over `nodes()` and `degree()` yields exactly the nodes of degree zero. |
| `Rules.RemoveIsolatedNodes` | algorithms/qiro/rules.py:56-57 | The vertex-cover sweep removes exactly the degree-zero nodes. |
| `Rules.CollectIsolatedNodes` | algorithms/qiro/rules.py:122-127 | The independent-set sweep adds the degree-zero nodes to the solution and removes them, or does nothing when there are none. |
| `Rules.ApplyVertexCoverOnePoint` | algorithms/qiro/rules.py:37-62 | Requires the node to be present. Always reports applied, and leaves the graph and solution of `VertexCoverOnePoint`. |
| `Rules.ApplyVertexCoverTwoPoints` | algorithms/qiro/rules.py:67-94 | Requires both endpoints present only when c < 0. Always reports applied, and leaves the state of `VertexCoverTwoPoints`. |
| `Rules.ApplyMaxIndependentSetOnePoint` | algorithms/qiro/rules.py:99-129 | Requires the node to be present. Always reports applied, and leaves the state of `MaxIndependentSetOnePoint`. |
| `Rules.ApplyMaxIndependentSetTwoPoints` | algorithms/qiro/rules.py:135-168 | Reports applied exactly when the specification applies. When it declines, graph and solution are untouched. |
| `Rules.OnePointRule.Outcome` | algorithms/qiro/rules.py:11-20 | A one-point rule never declines. |
| `Rules.OnePointRule.Apply` | algorithms/qiro/rules.py:18-20 | Dispatches to the chosen rule. Reports applied exactly when it applies, and otherwise changes nothing. |
| `Rules.TwoPointsRule.Outcome` | algorithms/qiro/rules.py:22-31 | A two-point rule declines only when it is the independent-set rule, c < 0 and the endpoints share no neighbour. |
| `Rules.TwoPointsRule.Apply` | algorithms/qiro/rules.py:29-31 | Dispatches to the chosen rule. Reports applied exactly when it applies, and otherwise changes nothing. |
| `Correlations.SortedSeq` | algorithms/commons/state_preparation.py:173-174 | `sorted()` of distinct values lists every element once, in strictly increasing order. |
| `Correlations.NodeOrder` | algorithms/commons/state_preparation.py:173 | One entry per node. |
| `Correlations.NodeOrderIsSorted` | algorithms/commons/state_preparation.py:173 | The node list holds exactly the nodes, ascending. |
| `Correlations.EdgeOrder` | algorithms/commons/state_preparation.py:174 | One entry per undirected edge. |
| `Correlations.EdgeOrderIsSorted` | algorithms/commons/state_preparation.py:174 | The edge list holds exactly the (min, max) edges, once each, in lexicographic order. |
| `Correlations.Insert` | algorithms/commons/state_preparation.py:196 | Insertion adds the entry and keeps every other entry. |
| `Correlations.InsertKeepsRanked` | algorithms/commons/state_preparation.py:196 | Insertion keeps a list ranked by non-increasing absolute score. |
| `Correlations.InsertIsStable` | algorithms/commons/state_preparation.py:196 | The inserted entry lands behind every entry of equal absolute score. |
| `Correlations.RankByAbs` | algorithms/commons/state_preparation.py:196 | The sort by descending absolute score. `RankByAbsIsRanked`, `RankByAbsIsPermutation` and `RankByAbsIsStable` characterise it. |
| `Correlations.RankByAbsIsRanked` | algorithms/commons/state_preparation.py:196 | The sorted list has non-increasing absolute scores. |
| `Correlations.RankByAbsIsPermutation` | algorithms/commons/state_preparation.py:196 | The sort is a permutation of its input. |
| `Correlations.RankByAbsIsStable` | algorithms/commons/state_preparation.py:196 | Entries of equal absolute score keep their input order, as Python's stable sort with `reverse=True` does. |
| `Correlations.RankingKeeps` | algorithms/commons/state_preparation.py:196 | The sort drops no entry. |
| `Correlations.Unranked` | algorithms/commons/state_preparation.py:182-193 | Before sorting there is one entry per score. |
| `Correlations.UnrankedByPosition` | algorithms/commons/state_preparation.py:182-193 | The k-th node gets `results[k]` as (x, x). The k-th edge gets `results[n + k]` as (min, max). |
| `Correlations.PairScores` | algorithms/commons/state_preparation.py:182-193 | The two enumerating loops build exactly the node entries followed by the edge entries. |
| `Correlations.BuildCorrEntries` | algorithms/commons/state_preparation.py:163-197 | Fails with `ValueError(n + m, len)` exactly when the score count is not n + m. Otherwise returns the stably ranked pairing. |
| `Correlations.EntriesNameGraph` | algorithms/commons/state_preparation.py:173-196 | The output has n + m entries, ranked. Each entry names a present node as (x, x) or an edge as (min, max) with min < max. |
| `Correlations.EveryNodeRanked` | algorithms/commons/state_preparation.py:188-189 | Every node's one-point entry, with its positional score, is in the output. |
| `Correlations.EveryEdgeRanked` | algorithms/commons/state_preparation.py:192-193 | Every edge's two-point entry, with its positional score, is in the output. |
| `Simplifiers.EntryOutcome` | algorithms/qiro/simplifier.py:40-43 | An (x, x) entry goes to the one-point rule and never declines. Any other entry goes to the two-point rule. It declines only under the independent-set rule with a negative score and no common neighbour. |
| `Simplifiers.FirstApplicable` | algorithms/qiro/simplifier.py:38-48 | The only failure is `NoApplicableSimplificationRuleError`. |
| `Simplifiers.FirstApplicableIndex` | algorithms/qiro/simplifier.py:38-48 | The step is that of the first entry whose rule applies, and every earlier entry declined. It fails exactly when every entry declines, including on the empty list. |
| `Simplifiers.LaterEntriesIgnored` | algorithms/qiro/simplifier.py:45-46 | Entries after the first applicable one have no effect. A prefix that all declines is skipped. |
| `Simplifiers.NeverRaises` | algorithms/qiro/simplifier.py:40-48 | With a one-point entry, or with the vertex-cover two-point rule and some entry, the walk cannot fail. |
| `Simplifiers.EntrySound` | algorithms/qiro/simplifier.py:40-43 | An (x, x) entry goes to the one-point rule and any other to the two-point rule. The applied rule makes progress and keeps its family's invariant. |
| `Simplifiers.FirstApplicableSound` | algorithms/qiro/simplifier.py:38-46 | The simplifier's step makes progress. With rules of one family, it keeps that family's invariant. |
| `Simplifiers.Simplifier.constructor` | algorithms/qiro/simplifier.py:14-21 | Stores the two rules. |
| `Simplifiers.Simplifier.Simplify` | algorithms/qiro/simplifier.py:23-48 | Leaves exactly the graph and solution of `FirstApplicable`. On failure it returns the error with the graph untouched. |
| `Solver.InvariantsHoldInitially` | algorithms/qiro/qiro.py:28-29 | The copy with an empty solution satisfies the loop invariants. |
| `Solver.ReducedStep` | algorithms/qiro/qiro.py:35 | A round keeps the working graph a valid induced subgraph of the original. The solution stays a set of original nodes that have left the graph. |
| `Solver.CoverStep` | algorithms/qiro/qiro.py:35 | Vertex cover: every original edge stays in the graph or gets covered. |
| `Solver.IndependenceStep` | algorithms/qiro/qiro.py:35 | Independent set: the solution stays independent in the original graph, and no graph node is adjacent to it. |
| `Solver.RoundKeepsInvariants` | algorithms/qiro/qiro.py:32-36 | A round keeps both the general invariant and its family's invariant. |
| `Solver.InvariantAtFixpoint` | algorithms/qiro/qiro.py:32-37 | With no edge left, the invariant says the solution is a cover, or an independent set, of the original graph. |
| `Solver.RoundNeverRaises` | algorithms/qiro/reducer.py:33-36 | On a graph with an edge and a correctly sized score vector, the simplifier cannot fail. |
| `Solver.RankedEntriesCallable` | algorithms/qiro/reducer.py:33-36 | Every ranked entry names the graph, so no rule call looks up an absent node. |
| `Solver.Reducer.constructor` | algorithms/qiro/reducer.py:14-21 | Stores the simplifier. |
| `Solver.Reducer.Reduce` | algorithms/qiro/reducer.py:22-36 | A wrong score count gives the `ValueError` and leaves the graph alone. Otherwise the graph and solution are the simplifier's step. The step makes progress, keeps its family's invariant, and does not fail on a graph with an edge. |
| `Solver.QIROSolver.constructor` | algorithms/qiro/qiro.py:13-18 | Stores the reducer. |
| `Solver.QIROSolver.Round` | algorithms/qiro/qiro.py:32-36 | One loop iteration. The solution only grows. The working graph stays a valid induced subgraph of the input, and the family invariant is kept. A node is removed. It fails exactly when the score count is wrong, and then only with `ValueError`. |
| `Solver.QIROSolver.Solve` | algorithms/qiro/qiro.py:20-37 | The caller's problem is not modified. An edgeless input gives the empty set with no round. There are at most as many rounds as nodes. The result is a subset of the nodes. With vertex-cover rules it is a cover, and with independent-set rules it is independent. With correctly sized score vectors from the oracle it never fails. Otherwise the only error is `ValueError`. |

## Left out

- The correlation oracle is a parameter of `Solve`. This replaces the
  QAOA state preparation, parameter optimisation and circuit execution that
  `Reducer.reduce` calls (`optimize`, `correlations`). It yields the raw
  score vector for a round number and the current graph. The round number
  lets the vector differ between rounds. The initial parameters are drawn
  once, when `QAOAConfig` is built (algorithms/commons/state_preparation.py:29-30),
  and are reused in every round. The vectors still differ between rounds
  because each one is estimated from a finite number of shots
  (algorithms/commons/state_preparation.py:23).
  The oracle is total. The measurement side's own failures are not modelled:
  the `RuntimeError` of a failed optimisation
  (algorithms/commons/state_preparation.py:80-81) and the `TypeError` checks
  (algorithms/commons/state_preparation.py:51-52, 134-137). The calls
  `optimize` and `correlations` that `Reducer.reduce` makes are not defined
  by the `StatePreparation` class shown, so the code as written would fail
  there with `AttributeError`. The model assumes those calls deliver a score
  vector, and that `_build_corr_entries` builds the entries from it.
- Scores are exact reals, not floats. Only their sign and absolute value
  are used.
- The `print` tracing in the rules and the solver is not modelled.
- The Hamiltonian-building subclasses of `Problem` are not modelled. They
  only call PennyLane constructors.
- `Problem.get_graph` and `Problem.nodes` are plain reads of the `graph`
  field and carry no contract.
- `Problem.copy` keeps the concrete subclass; here there is only `Problem`.
- Networkx stores adjacency in insertion order. The model's graph is a set,
  so `nodes()` and `edges()` have no order. Networkx also orients each edge
  of `edges()` by that order, so it may report (5, 3). `Problem.Edges`
  reports each edge as (smaller, larger) instead. The engine itself only
  reads `edges()` through the `(min, max)` normalisation of
  `_build_corr_entries`, and the utility checks are stated for a list in
  either orientation (`Validity.ChecksAgreeWithGraph`).
- The oracle is assumed to give its scores in the order that
  `_build_corr_entries` reads them. That is one score per node in ascending
  node order, then one per edge in ascending (min, max) order. The source's
  correlation circuit emits them in networkx's insertion order instead:
  `G.nodes()`, then `G.edges()` (algorithms/commons/qaoa_builder.py:122-123).
  `_build_corr_entries` pairs them by position with the sorted lists
  (algorithms/commons/state_preparation.py:173-174, 188-193). The two orders
  agree only when the nodes and edges were inserted in ascending order. For
  a graph built from the single edge (5, 3), node 3 would receive the score
  measured on node 5. The model does not capture that mismatch.
- Problems.Problem.constructor: the source wraps any networkx graph,
  including one with self-loops (algorithms/problems/problems.py:16-17).
  The model requires a graph without self-loops (`Graph.Valid`), and every
  result proved here depends on that restriction. On a self-loop, networkx
  lists the node among its own neighbours and counts the loop twice in
  its degree. `_build_corr_entries` would then give the loop edge an entry
  (x, x), which the simplifier hands to the one-point rule. The
  independent-set guarantee of `QIROSolver.Solve` fails on such input: with
  a non-positive score, the one-point rule (algorithms/qiro/rules.py:111-113)
  puts a node with a loop into the solution, and a node with a loop is never
  independent.
- A call that networkx would reject is a precondition, not an error value.
  These are: removing, or asking the degree or neighbours of, an absent
  node, and removing an absent edge. The engine never makes such a call on
  the inputs `_build_corr_entries` produces (`Solver.RankedEntriesCallable`).
- QIROSolver.Solve: the returned solution is proved a cover or an independent set of
  the input graph. Its size relative to an optimum is not stated; the source
  promises no bound.
- QIROSolver.Round: its contract does not name the exact new graph and
  solution. It states the invariants, the growth of the solution and the
  lost node. The exact step, the simplifier's `FirstApplicable` on the
  ranked entries, is stated by `Reducer.Reduce`, which `Round` calls.
