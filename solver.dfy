/**
  The QIRO fixpoint loop (algorithms/qiro/qiro.py). `solve` works on a copy
  of the problem, starts from an empty solution and runs reduction rounds
  until the working graph has no edge left.

  One round is what `Reducer.reduce` does: the correlation oracle measures
  a score vector for the current graph, `_build_corr_entries` ranks it, and
  the simplifier applies the first applicable rule. The oracle is a
  parameter: for each round number and graph it yields the raw scores.
 */
module Solver {
  import opened Graphs
  import opened Results
  import opened Problems
  import opened Rules
  import opened Correlations
  import opened Simplifiers
  import opened Validity

  /** What every round preserves, whatever the rules: the working graph is
      a valid induced subgraph of the original, and the solution holds
      only original nodes that have left the working graph. */
  ghost predicate Reduced(g0: Graph, g: Graph, solution: set<int>) {
    && g.Valid()
    && g.IsInducedSubgraphOf(g0)
    && solution <= g0.nodes
    && solution !! g.nodes
  }

  /** Vertex cover: every original edge is still in the graph or covered. */
  ghost predicate CoverInvariant(g0: Graph, g: Graph, solution: set<int>) {
    forall e | e in g0.edges :: e in g.edges || e.0 in solution || e.1 in solution
  }

  /** Independent set: the solution is independent in the original graph,
      and no node of the graph is adjacent to a solution node. */
  ghost predicate IndependenceInvariant(g0: Graph, g: Graph, solution: set<int>) {
    && Independent(g0, solution)
    && forall e | e in g0.edges && e.0 in solution :: e.1 !in g.nodes
  }

  /** The loop invariant of the family. */
  ghost predicate FamilyInvariant(family: Family, g0: Graph, g: Graph, solution: set<int>) {
    match family
    case VertexCover => CoverInvariant(g0, g, solution)
    case MaxIndependentSet => IndependenceInvariant(g0, g, solution)
  }

  /** The invariants hold before the first round. */
  lemma InvariantsHoldInitially(g0: Graph, family: Family)
    requires g0.Valid()
    ensures Reduced(g0, g0, {}) && FamilyInvariant(family, g0, g0, {})
  {
    WithoutAbsentNodes(g0, g0.nodes - g0.nodes);
  }

  /** A step that makes progress keeps the working graph reduced. */
  lemma ReducedStep(g0: Graph, before: Step, after: Step)
    requires g0.Valid() && Reduced(g0, before.graph, before.solution) && Progress(before, after)
    ensures Reduced(g0, after.graph, after.solution)
  {
    var g, h := before.graph, after.graph;
    WithoutNodesInduced(g0, g, g.nodes - h.nodes);
    forall x | x in after.solution ensures x in g0.nodes && x !in h.nodes {
      if x !in before.solution {
        assert x in after.solution - before.solution;
      }
    }
  }

  lemma CoverStep(g0: Graph, before: Step, after: Step)
    requires g0.Valid() && Reduced(g0, before.graph, before.solution)
    requires CoverInvariant(g0, before.graph, before.solution)
    requires Progress(before, after) && KeepsCover(before, after)
    ensures CoverInvariant(g0, after.graph, after.solution)
  {
  }

  lemma IndependenceStep(g0: Graph, before: Step, after: Step)
    requires g0.Valid() && Reduced(g0, before.graph, before.solution)
    requires IndependenceInvariant(g0, before.graph, before.solution)
    requires Progress(before, after) && KeepsIndependence(before, after)
    ensures IndependenceInvariant(g0, after.graph, after.solution)
  {
    var g, h := before.graph, after.graph;
    var s, added := before.solution, after.solution - before.solution;
    assert g == g0.WithoutNodes(g0.nodes - g.nodes);
    forall e | e in g0.edges && e.0 in after.solution
      ensures e.1 !in after.solution && e.1 !in h.nodes
    {
      if e.0 in s {
        assert e.1 !in g.nodes;
        assert (e.1, e.0) in g0.edges;
      } else {
        assert e.0 in added && e.0 in g.nodes;
        if e.1 in g.nodes {
          assert e in g.edges;
        } else {
          assert (e.1, e.0) in g0.edges;
        }
      }
    }
  }

  /** A round's step keeps all invariants. */
  lemma RoundKeepsInvariants(g0: Graph, family: Family, before: Step, after: Step)
    requires g0.Valid() && Reduced(g0, before.graph, before.solution)
    requires FamilyInvariant(family, g0, before.graph, before.solution)
    requires Progress(before, after) && Keeps(family, before, after)
    ensures Reduced(g0, after.graph, after.solution)
    ensures FamilyInvariant(family, g0, after.graph, after.solution)
  {
    ReducedStep(g0, before, after);
    match family
    case VertexCover => CoverStep(g0, before, after);
    case MaxIndependentSet => IndependenceStep(g0, before, after);
  }

  /** When no edge is left, the invariant is the property checked by
      utils.py. */
  lemma InvariantAtFixpoint(g0: Graph, family: Family, g: Graph, solution: set<int>)
    requires FamilyInvariant(family, g0, g, solution) && g.edges == {}
    ensures family == VertexCover ==> Covers(g0, solution)
    ensures family == MaxIndependentSet ==> Independent(g0, solution)
  {
  }

  /** The ranked entries of a graph with an edge always contain a node's
      one-point entry, so the round cannot raise. */
  lemma RoundNeverRaises(one: OnePointRule, two: TwoPointsRule, g: Graph, solution: set<int>, scores: seq<real>)
    requires g.Valid() && g.edges != {} && |scores| == |g.nodes| + g.NumberOfEdges()
    ensures FirstApplicable(one, two, g, solution, RankedEntries(scores, g)).Ok?
  {
    var entries := RankedEntries(scores, g);
    var e := Choose(g.edges);
    var nodes, edges := NodeOrder(g), EdgeOrder(g);
    assert |nodes| > 0 by {
      assert e.0 in g.nodes;
    }
    EveryNodeRanked(scores, nodes, edges, 0);
    var i :| 0 <= i < |entries| && entries[i] == Entry(scores[0], nodes[0], nodes[0]);
    NeverRaises(one, two, g, solution, entries, i);
  }

  /** Every ranked entry of a graph names it, so every rule call is defined. */
  lemma RankedEntriesCallable(one: OnePointRule, two: TwoPointsRule, g: Graph, scores: seq<real>)
    requires g.Valid() && |scores| == |g.nodes| + g.NumberOfEdges()
    ensures var entries := RankedEntries(scores, g);
      && (forall i | 0 <= i < |entries| :: NamesGraph(g, entries[i]))
      && (forall i | 0 <= i < |entries| :: Callable(one, two, g, entries[i]))
  {
    EntriesNameGraph(scores, g);
  }

  /** Every call of the oracle yields a vector of the right length. */
  ghost predicate WellSized(oracle: (nat, Graph) -> seq<real>) {
    forall k, g :: |oracle(k, g)| == |g.nodes| + g.NumberOfEdges()
  }

  /** One round (algorithms/qiro/reducer.py): the scores measured on the
      current graph are ranked and handed to the simplifier. */
  class Reducer {
    const simplifier: Simplifier

    constructor (simplifier: Simplifier)
      ensures this.simplifier == simplifier
    {
      this.simplifier := simplifier;
    }

    /** The rules' common family, when they share one. */
    function Family(): Option<Family> {
      var one, two := simplifier.onePointRule, simplifier.twoPointsRule;
      if one.Family() == two.Family() then Some(one.Family()) else None
    }

    method Reduce(problem: Problem, updatedSolution: set<int>, scores: seq<real>) returns (result: Result<set<int>>)
      requires problem.Valid() && updatedSolution !! problem.graph.nodes
      modifies problem
      ensures problem.Valid()
      ensures var g := old(problem.graph);
        |scores| != |g.nodes| + g.NumberOfEdges() ==> result == Err(ValueError(|g.nodes| + g.NumberOfEdges(), |scores|))
      ensures var g := old(problem.graph);
        result.Ok? ==>
          && |scores| == |g.nodes| + g.NumberOfEdges()
          && var step := FirstApplicable(simplifier.onePointRule, simplifier.twoPointsRule, g, updatedSolution, RankedEntries(scores, g));
             step.Ok? && Step(problem.graph, result.value) == step.value
      ensures result.Err? ==> problem.graph == old(problem.graph)
      ensures var g := old(problem.graph);
        g.edges != {} && |scores| == |g.nodes| + g.NumberOfEdges() ==> result.Ok?
      ensures result.Ok? ==>
        var before, after := Step(old(problem.graph), updatedSolution), Step(problem.graph, result.value);
        && Progress(before, after)
        && (Family().Some? ==> Keeps(Family().value, before, after))
    {
      var g := problem.graph;
      var entries := BuildCorrEntries(scores, g);
      if entries.Err? {
        return Err(entries.error);
      }
      RankedEntriesCallable(simplifier.onePointRule, simplifier.twoPointsRule, g, scores);
      FirstApplicableSound(simplifier.onePointRule, simplifier.twoPointsRule, g, updatedSolution, entries.value);
      if g.edges != {} {
        RoundNeverRaises(simplifier.onePointRule, simplifier.twoPointsRule, g, updatedSolution, scores);
      }
      result := simplifier.Simplify(problem, updatedSolution, entries.value);
    }
  }

  class QIROSolver {
    const reducer: Reducer

    constructor (reducer: Reducer)
      ensures this.reducer == reducer
    {
      this.reducer := reducer;
    }

    /** One iteration of the loop of `solve`: a reduction of the working
        problem, which keeps the loop invariants and removes a node. */
    method Round(updatedProblem: Problem, solution: set<int>, scores: seq<real>, ghost g0: Graph, ghost family: Family)
        returns (result: Result<set<int>>)
      requires g0.Valid() && updatedProblem.Valid() && updatedProblem.graph.edges != {}
      requires Reduced(g0, updatedProblem.graph, solution)
      requires reducer.Family() == Some(family) ==> FamilyInvariant(family, g0, updatedProblem.graph, solution)
      modifies updatedProblem
      ensures updatedProblem.Valid()
      ensures result.Ok? ==>
        && solution <= result.value
        && Reduced(g0, updatedProblem.graph, result.value)
        && (reducer.Family() == Some(family) ==> FamilyInvariant(family, g0, updatedProblem.graph, result.value))
        && |updatedProblem.graph.nodes| < |old(updatedProblem.graph.nodes)|
      ensures result.Err? <==> |scores| != |old(updatedProblem.graph.nodes)| + old(updatedProblem.graph).NumberOfEdges()
      ensures result.Err? ==> result.error.ValueError?
    {
      ghost var g := updatedProblem.graph;
      result := reducer.Reduce(updatedProblem, solution, scores);
      if result.Ok? {
        if reducer.Family() == Some(family) {
          RoundKeepsInvariants(g0, family, Step(g, solution), Step(updatedProblem.graph, result.value));
        } else {
          ReducedStep(g0, Step(g, solution), Step(updatedProblem.graph, result.value));
        }
      }
    }

    /** Reduces a copy of `problem` until no edge is left; `oracle` yields
        the scores measured in each round. The caller's problem is not
        modified; `rounds` counts the reductions. */
    method Solve(problem: Problem, oracle: (nat, Graph) -> seq<real>) returns (result: Result<set<int>>, ghost rounds: nat)
      requires problem.Valid()
      ensures rounds <= |problem.graph.nodes|
      ensures problem.graph.edges == {} ==> result == Ok({}) && rounds == 0
      ensures result.Ok? ==> result.value <= problem.graph.nodes
      ensures result.Ok? && reducer.Family() == Some(VertexCover) ==> Covers(problem.graph, result.value)
      ensures result.Ok? && reducer.Family() == Some(MaxIndependentSet) ==> Independent(problem.graph, result.value)
      ensures WellSized(oracle) ==> result.Ok?
      ensures result.Err? ==> result.error.ValueError?
    {
      ghost var g0 := problem.graph;
      ghost var family := reducer.simplifier.onePointRule.Family();
      var updatedProblem := problem.Copy();
      var solution: set<int> := {};
      InvariantsHoldInitially(g0, family);
      var numIteration: nat := 0;
      while updatedProblem.NumberOfEdges() > 0
        invariant fresh(updatedProblem) && updatedProblem.Valid()
        invariant Reduced(g0, updatedProblem.graph, solution)
        invariant reducer.Family() == Some(family) ==> FamilyInvariant(family, g0, updatedProblem.graph, solution)
        invariant numIteration + |updatedProblem.graph.nodes| <= |g0.nodes|
        invariant g0.edges == {} ==> solution == {} && numIteration == 0
        decreases |updatedProblem.graph.nodes|
      {
        ghost var edge := Choose(updatedProblem.graph.edges);
        assert edge in g0.edges;
        var scores := oracle(numIteration, updatedProblem.graph);
        var reduced := Round(updatedProblem, solution, scores, g0, family);
        if reduced.Err? {
          return Err(reduced.error), numIteration;
        }
        solution := reduced.value;
        numIteration := numIteration + 1;
      }
      if reducer.Family() == Some(family) {
        InvariantAtFixpoint(g0, family, updatedProblem.graph, solution);
      }
      return Ok(solution), numIteration;
    }
  }
}
