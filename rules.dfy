/**
  The elimination rules of QIRO (algorithms/qiro/rules.py). A rule reads the
  sign of one correlation and the local topology, moves nodes into the
  solution, deletes nodes from the problem graph, and then sweeps the nodes
  left with degree zero: the vertex-cover rules drop them, the
  independent-set rules add them to the solution first.

  Each rule is specified by a function from the graph and solution before
  the call to the `Step` after it; the methods that mutate a `Problem` are
  proved against these functions, and the lemmas state what the functions
  guarantee.
 */
module Rules {
  import opened Graphs
  import opened Results
  import opened Problems

  /** The graph and the solution set together. */
  datatype Step = Step(graph: Graph, solution: set<int>)

  /** The nodes outside `removed` that keep a neighbour outside `removed`. */
  function Remaining(g: Graph, removed: set<int>): set<int> {
    set x | x in g.nodes && x !in removed && g.Neighbors(x) - removed != {}
  }

  /** The nodes outside `removed` whose every neighbour is in `removed`. */
  function Stranded(g: Graph, removed: set<int>): set<int> {
    set x | x in g.nodes && x !in removed && g.Neighbors(x) - removed == {}
  }

  /** Vertex-cover sweep: isolated nodes leave the graph, not into the solution. */
  function DropIsolated(s: Step): Step {
    Step(s.graph.WithoutNodes(s.graph.Isolated()), s.solution)
  }

  /** Independent-set sweep: isolated nodes join the solution and leave the graph. */
  function CollectIsolated(s: Step): Step {
    Step(s.graph.WithoutNodes(s.graph.Isolated()), s.solution + s.graph.Isolated())
  }

  function VertexCoverOnePoint(g: Graph, solution: set<int>, node: int, correlation: real): Step {
    if correlation >= 0.0 then
      DropIsolated(Step(g.WithoutNodes(g.Neighbors(node) + {node}), solution + g.Neighbors(node)))
    else
      DropIsolated(Step(g.WithoutNodes({node}), solution + {node}))
  }

  /** The endpoint the anti-correlated vertex-cover rule keeps: the one of
      larger degree, `u` on a tie. */
  function Chosen(g: Graph, u: int, v: int): (r: int)
    ensures r == u || r == v
    ensures g.Degree(r) >= g.Degree(u) && g.Degree(r) >= g.Degree(v)
    ensures g.Degree(u) == g.Degree(v) ==> r == u
  {
    if g.Degree(u) >= g.Degree(v) then u else v
  }

  function VertexCoverTwoPoints(g: Graph, solution: set<int>, u: int, v: int, correlation: real): Step {
    if correlation < 0.0 then
      DropIsolated(Step(g.WithoutNodes({Chosen(g, u, v)}), solution + {Chosen(g, u, v)}))
    else
      DropIsolated(Step(g.WithoutNodes({u, v}), solution + {u, v}))
  }

  function MaxIndependentSetOnePoint(g: Graph, solution: set<int>, node: int, correlation: real): Step {
    if correlation <= 0.0 then
      CollectIsolated(Step(g.WithoutNodes(g.Neighbors(node) + {node}), solution + {node}))
    else
      CollectIsolated(Step(g.WithoutNodes({node}), solution))
  }

  /** `None` when the rule declines. */
  function MaxIndependentSetTwoPoints(g: Graph, solution: set<int>, u: int, v: int, correlation: real): Option<Step> {
    if correlation < 0.0 then
      var common := g.Neighbors(u) * g.Neighbors(v);
      if common == {} then None
      else Some(CollectIsolated(Step(g.WithoutNodes(common), solution)))
    else
      Some(CollectIsolated(Step(g.WithoutNodes({u, v}), solution)))
  }

  // ---------------------------------------------------------------------
  // What every rule guarantees

  /** A successful rule application: the graph is still valid, has no
      isolated node, is an induced subgraph of the one before and has
      strictly fewer nodes; the solution only grew, and only by nodes that
      were in the graph and have now left it. */
  ghost predicate Progress(before: Step, after: Step) {
    && after.graph.Valid()
    && after.graph.Isolated() == {}
    && after.graph.IsInducedSubgraphOf(before.graph)
    && |after.graph.nodes| < |before.graph.nodes|
    && before.solution <= after.solution
    && after.solution - before.solution <= before.graph.nodes - after.graph.nodes
  }

  /** Every edge the step deletes has an endpoint in the new solution. */
  ghost predicate KeepsCover(before: Step, after: Step) {
    forall e | e in before.graph.edges :: e in after.graph.edges || e.0 in after.solution || e.1 in after.solution
  }

  /** No neighbour of a node the step adds is added with it or left in the graph. */
  ghost predicate KeepsIndependence(before: Step, after: Step) {
    forall e | e in before.graph.edges && e.0 in after.solution - before.solution ::
      e.1 !in after.solution - before.solution && e.1 !in after.graph.nodes
  }

  /** Sweeping the isolated nodes of a valid graph deletes no edge and
      leaves no isolated node behind. */
  lemma SweepIsFinal(h: Graph)
    requires h.Valid()
    ensures forall e | e in h.edges :: e.0 !in h.Isolated() && e.1 !in h.Isolated()
    ensures h.WithoutNodes(h.Isolated()).edges == h.edges
    ensures h.WithoutNodes(h.Isolated()).Isolated() == {}
  {
    var iso := h.Isolated();
    var r := h.WithoutNodes(iso);
    forall e | e in h.edges ensures e in r.edges {
      assert e.1 in h.Neighbors(e.0);
      assert e.0 in h.Neighbors(e.1);
    }
    assert r.edges == h.edges;
    forall x | x in r.nodes ensures x !in r.Isolated() {
      var y := Choose(h.Neighbors(x));
      assert y in r.Neighbors(x);
    }
  }

  /** After deleting `removed`, the isolated nodes are the stranded ones and
      the nodes that survive the sweep are the remaining ones. */
  lemma SweepAfterRemoval(g: Graph, removed: set<int>)
    requires g.Valid()
    ensures var h := g.WithoutNodes(removed);
      && h.Isolated() == Stranded(g, removed)
      && h.WithoutNodes(h.Isolated()).nodes == Remaining(g, removed)
  {
    var h := g.WithoutNodes(removed);
    var iso := h.Isolated();
    forall x | x in h.nodes ensures x in iso <==> g.Neighbors(x) - removed == {} {
      assert h.Neighbors(x) == g.Neighbors(x) - removed;
    }
    assert iso == Stranded(g, removed);
    assert h.WithoutNodes(iso).nodes == Remaining(g, removed);
  }

  lemma {:induction false} VertexCoverOnePointEffect(g: Graph, solution: set<int>, node: int, correlation: real)
    requires g.Valid() && node in g.nodes && solution !! g.nodes
    ensures var r := VertexCoverOnePoint(g, solution, node, correlation);
      && (correlation >= 0.0 ==>
            && r.solution == solution + g.Neighbors(node) && node !in r.solution
            && r.graph.nodes == Remaining(g, g.Neighbors(node) + {node}))
      && (correlation < 0.0 ==>
            && r.solution == solution + {node}
            && r.graph.nodes == Remaining(g, {node}))
  {
    if correlation >= 0.0 {
      SweepAfterRemoval(g, g.Neighbors(node) + {node});
    } else {
      SweepAfterRemoval(g, {node});
    }
  }

  /** Deleting a set that holds a present node `w`, then sweeping, leaves a
      valid induced subgraph with no isolated node and fewer nodes. */
  lemma RemovalShrinks(g: Graph, removed: set<int>, w: int)
    requires g.Valid() && w in removed && w in g.nodes
    ensures var h := g.WithoutNodes(removed);
      var r := h.WithoutNodes(h.Isolated());
      && r.Valid() && r.Isolated() == {} && r.IsInducedSubgraphOf(g)
      && |r.nodes| < |g.nodes|
  {
    var h := g.WithoutNodes(removed);
    var r := h.WithoutNodes(h.Isolated());
    SweepIsFinal(h);
    WithoutAbsentNodes(g, {});
    WithoutNodesInduced(g, g, removed);
    WithoutNodesInduced(g, h, h.Isolated());
    SubsetCard(r.nodes, g.nodes - {w});
  }

  lemma SubsetCard(a: set<int>, b: set<int>)
    requires a <= b
    ensures |a| <= |b|
  {
    assert b == a + (b - a);
  }

  /** A removal of `removed`, one of whose nodes `w` is present, adding the
      present nodes `added` of `removed` to the solution, followed by either
      sweep, makes progress. */
  lemma RemovalProgress(g: Graph, solution: set<int>, removed: set<int>, added: set<int>, w: int)
    requires g.Valid() && w in removed && w in g.nodes
    requires forall x | x in added :: x in removed && x in g.nodes
    ensures Progress(Step(g, solution), DropIsolated(Step(g.WithoutNodes(removed), solution + added)))
    ensures Progress(Step(g, solution), CollectIsolated(Step(g.WithoutNodes(removed), solution + added)))
  {
    var h := g.WithoutNodes(removed);
    var iso := h.Isolated();
    var r := h.WithoutNodes(iso);
    RemovalShrinks(g, removed, w);
    assert DropIsolated(Step(h, solution + added)) == Step(r, solution + added);
    assert CollectIsolated(Step(h, solution + added)) == Step(r, solution + added + iso);
    forall x | x in solution + added + iso - solution ensures x in g.nodes - r.nodes {
      if x in added {
        assert x !in h.nodes;
      } else {
        assert x in iso;
      }
    }
    assert solution + added - solution <= solution + added + iso - solution;
  }

  /** A vertex-cover step keeps every deleted edge covered when each edge
      touching `removed` has an endpoint in the new solution. */
  lemma DropKeepsCover(g: Graph, solution: set<int>, removed: set<int>, added: set<int>)
    requires g.Valid()
    requires forall e | e in g.edges && e.0 in removed :: e.0 in solution + added || e.1 in solution + added
    ensures KeepsCover(Step(g, solution), DropIsolated(Step(g.WithoutNodes(removed), solution + added)))
  {
    var h := g.WithoutNodes(removed);
    SweepIsFinal(h);
    forall e | e in g.edges
      ensures e in h.edges || e.0 in solution + added || e.1 in solution + added
    {
      if e.1 in removed {
        assert (e.1, e.0) in g.edges;
      }
    }
  }

  /** An independent-set step keeps independence when every neighbour of
      an added node is removed and not itself added. */
  lemma CollectKeepsIndependence(g: Graph, solution: set<int>, removed: set<int>, added: set<int>)
    requires g.Valid() && solution !! g.nodes
    requires forall x | x in added :: x in g.nodes
    requires forall e | e in g.edges && e.0 in added :: e.1 in removed && e.1 !in added
    ensures KeepsIndependence(Step(g, solution), CollectIsolated(Step(g.WithoutNodes(removed), solution + added)))
  {
    var h := g.WithoutNodes(removed);
    var iso := h.Isolated();
    var after := CollectIsolated(Step(h, solution + added));
    SweepIsFinal(h);
    forall e | e in g.edges && e.0 in after.solution - solution
      ensures e.1 !in after.solution - solution && e.1 !in after.graph.nodes
    {
      if e.0 in added {
        assert e.1 !in iso;
      } else {
        assert e.0 in iso;
        assert e.1 in removed;
        assert (e.1, e.0) in g.edges;
      }
    }
  }

  // ---------------------------------------------------------------------
  // Each rule: what it does, and what it guarantees

  lemma VertexCoverOnePointSound(g: Graph, solution: set<int>, node: int, correlation: real)
    requires g.Valid() && node in g.nodes
    ensures var before := Step(g, solution);
      var after := VertexCoverOnePoint(g, solution, node, correlation);
      Progress(before, after) && KeepsCover(before, after)
  {
    if correlation >= 0.0 {
      RemovalProgress(g, solution, g.Neighbors(node) + {node}, g.Neighbors(node), node);
      DropKeepsCover(g, solution, g.Neighbors(node) + {node}, g.Neighbors(node));
    } else {
      RemovalProgress(g, solution, {node}, {node}, node);
      DropKeepsCover(g, solution, {node}, {node});
    }
  }

  lemma {:induction false} VertexCoverTwoPointsEffect(g: Graph, solution: set<int>, u: int, v: int, correlation: real)
    requires g.Valid() && u in g.nodes && v in g.nodes && u != v && solution !! g.nodes
    ensures var r := VertexCoverTwoPoints(g, solution, u, v, correlation);
      && (correlation < 0.0 && g.Degree(u) >= g.Degree(v) ==>
            r.solution == solution + {u} && v !in r.solution && r.graph.nodes == Remaining(g, {u}))
      && (correlation < 0.0 && g.Degree(u) < g.Degree(v) ==>
            r.solution == solution + {v} && u !in r.solution && r.graph.nodes == Remaining(g, {v}))
      && (correlation >= 0.0 ==>
            r.solution == solution + {u, v} && r.graph.nodes == Remaining(g, {u, v}))
  {
    if correlation < 0.0 {
      SweepAfterRemoval(g, {Chosen(g, u, v)});
    } else {
      SweepAfterRemoval(g, {u, v});
    }
  }

  lemma VertexCoverTwoPointsSound(g: Graph, solution: set<int>, u: int, v: int, correlation: real)
    requires g.Valid() && u in g.nodes && v in g.nodes
    ensures var before := Step(g, solution);
      var after := VertexCoverTwoPoints(g, solution, u, v, correlation);
      Progress(before, after) && KeepsCover(before, after)
  {
    var c := Chosen(g, u, v);
    if correlation < 0.0 {
      RemovalProgress(g, solution, {c}, {c}, c);
      DropKeepsCover(g, solution, {c}, {c});
    } else {
      RemovalProgress(g, solution, {u, v}, {u, v}, u);
      DropKeepsCover(g, solution, {u, v}, {u, v});
    }
  }

  lemma {:induction false} MaxIndependentSetOnePointEffect(g: Graph, solution: set<int>, node: int, correlation: real)
    requires g.Valid() && node in g.nodes && solution !! g.nodes
    ensures var r := MaxIndependentSetOnePoint(g, solution, node, correlation);
      var closed := g.Neighbors(node) + {node};
      && (correlation <= 0.0 ==>
            r.solution == solution + {node} + Stranded(g, closed) && r.graph.nodes == Remaining(g, closed))
      && (correlation > 0.0 ==>
            r.solution == solution + Stranded(g, {node}) && node !in r.solution
            && r.graph.nodes == Remaining(g, {node}))
  {
    if correlation <= 0.0 {
      SweepAfterRemoval(g, g.Neighbors(node) + {node});
    } else {
      SweepAfterRemoval(g, {node});
    }
  }

  lemma MaxIndependentSetOnePointSound(g: Graph, solution: set<int>, node: int, correlation: real)
    requires g.Valid() && node in g.nodes && solution !! g.nodes
    ensures var before := Step(g, solution);
      var after := MaxIndependentSetOnePoint(g, solution, node, correlation);
      Progress(before, after) && KeepsIndependence(before, after)
  {
    var closed := g.Neighbors(node) + {node};
    if correlation <= 0.0 {
      RemovalProgress(g, solution, closed, {node}, node);
      CollectKeepsIndependence(g, solution, closed, {node});
    } else {
      RemovalProgress(g, solution, {node}, {}, node);
      CollectKeepsIndependence(g, solution, {node}, {});
    }
  }

  lemma {:induction false} MaxIndependentSetTwoPointsEffect(g: Graph, solution: set<int>, u: int, v: int, correlation: real)
    requires g.Valid() && u in g.nodes && v in g.nodes && solution !! g.nodes
    ensures var r := MaxIndependentSetTwoPoints(g, solution, u, v, correlation);
      var common := g.Neighbors(u) * g.Neighbors(v);
      && (r.None? <==> correlation < 0.0 && common == {})
      && (correlation < 0.0 && r.Some? ==>
            r.value.solution == solution + Stranded(g, common) && r.value.graph.nodes == Remaining(g, common))
      && (correlation >= 0.0 ==>
            && r.value.solution == solution + Stranded(g, {u, v})
            && u !in r.value.solution && v !in r.value.solution
            && r.value.graph.nodes == Remaining(g, {u, v}))
  {
    if correlation < 0.0 {
      SweepAfterRemoval(g, g.Neighbors(u) * g.Neighbors(v));
    } else {
      SweepAfterRemoval(g, {u, v});
    }
  }

  lemma MaxIndependentSetTwoPointsSound(g: Graph, solution: set<int>, u: int, v: int, correlation: real)
    requires g.Valid() && u in g.nodes && v in g.nodes && solution !! g.nodes
    ensures var before := Step(g, solution);
      var r := MaxIndependentSetTwoPoints(g, solution, u, v, correlation);
      r.Some? ==> Progress(before, r.value) && KeepsIndependence(before, r.value)
  {
    if correlation < 0.0 {
      var common := g.Neighbors(u) * g.Neighbors(v);
      if common != {} {
        var w := Choose(common);
        RemovalProgress(g, solution, common, {}, w);
        CollectKeepsIndependence(g, solution, common, {});
      }
    } else {
      RemovalProgress(g, solution, {u, v}, {}, u);
      CollectKeepsIndependence(g, solution, {u, v}, {});
    }
  }

  // ---------------------------------------------------------------------
  // The rules as they run: each mutates the problem in place and returns
  // whether it applied, together with the updated solution set.

  /** The vertex-cover sweep: every node of degree zero leaves the graph. */
  method RemoveIsolatedNodes(problem: Problem)
    requires problem.Valid()
    modifies problem
    ensures problem.Valid()
    ensures problem.graph == old(problem.graph).WithoutNodes(old(problem.graph).Isolated())
  {
    var isolated := IsolatedNodes(problem);
    problem.RemoveNodes(isolated);
  }

  /** The nodes whose degree the problem reports as zero. */
  method IsolatedNodes(problem: Problem) returns (isolated: set<int>)
    requires problem.Valid()
    ensures isolated == problem.graph.Isolated()
  {
    isolated := set n | n in problem.Nodes() && problem.Degree(n) == 0;
  }

  /** The independent-set sweep: nodes of degree zero join the solution and
      leave the graph. */
  method CollectIsolatedNodes(problem: Problem, updatedSolution: set<int>) returns (solution: set<int>)
    requires problem.Valid()
    modifies problem
    ensures problem.Valid()
    ensures Step(problem.graph, solution) == CollectIsolated(Step(old(problem.graph), updatedSolution))
  {
    ghost var g := problem.graph;
    var isolated := IsolatedNodes(problem);
    solution := updatedSolution;
    if isolated != {} {
      solution := solution + isolated;
      problem.RemoveNodes(isolated);
    } else {
      WithoutAbsentNodes(g, {});
    }
    assert problem.graph == g.WithoutNodes(g.Isolated());
  }

  /** networkx rejects `node` when it is absent, in both branches. */
  method ApplyVertexCoverOnePoint(node: int, correlation: real, problem: Problem, updatedSolution: set<int>)
    returns (applied: bool, solution: set<int>)
    requires problem.Valid() && node in problem.graph.nodes
    modifies problem
    ensures problem.Valid() && applied
    ensures Step(problem.graph, solution) == VertexCoverOnePoint(old(problem.graph), updatedSolution, node, correlation)
  {
    if correlation >= 0.0 {
      var neighbors := problem.Neighbors(node);
      solution := updatedSolution + neighbors;
      problem.RemoveNodes(neighbors + {node});
    } else {
      solution := updatedSolution + {node};
      problem.RemoveNode(node);
    }
    RemoveIsolatedNodes(problem);
    applied := true;
  }

  /** networkx rejects an absent endpoint only when degrees are compared. */
  method ApplyVertexCoverTwoPoints(u: int, v: int, correlation: real, problem: Problem, updatedSolution: set<int>)
    returns (applied: bool, solution: set<int>)
    requires problem.Valid()
    requires correlation < 0.0 ==> u in problem.graph.nodes && v in problem.graph.nodes
    modifies problem
    ensures problem.Valid() && applied
    ensures Step(problem.graph, solution) == VertexCoverTwoPoints(old(problem.graph), updatedSolution, u, v, correlation)
  {
    if correlation < 0.0 {
      var chosen := if problem.Degree(u) >= problem.Degree(v) then u else v;
      solution := updatedSolution + {chosen};
      problem.RemoveNode(chosen);
    } else {
      solution := updatedSolution + {u, v};
      problem.RemoveNodes({u, v});
    }
    RemoveIsolatedNodes(problem);
    applied := true;
  }

  method ApplyMaxIndependentSetOnePoint(node: int, correlation: real, problem: Problem, updatedSolution: set<int>)
    returns (applied: bool, solution: set<int>)
    requires problem.Valid() && node in problem.graph.nodes
    modifies problem
    ensures problem.Valid() && applied
    ensures Step(problem.graph, solution) == MaxIndependentSetOnePoint(old(problem.graph), updatedSolution, node, correlation)
  {
    solution := updatedSolution;
    if correlation <= 0.0 {
      solution := solution + {node};
      var neighbors := problem.Neighbors(node);
      problem.RemoveNodes(neighbors + {node});
    } else {
      problem.RemoveNode(node);
    }
    solution := CollectIsolatedNodes(problem, solution);
    applied := true;
  }

  /** Declines, touching nothing, when anti-correlated endpoints share no
      neighbour. */
  method ApplyMaxIndependentSetTwoPoints(u: int, v: int, correlation: real, problem: Problem, updatedSolution: set<int>)
    returns (applied: bool, solution: set<int>)
    requires problem.Valid()
    requires correlation < 0.0 ==> u in problem.graph.nodes && v in problem.graph.nodes
    modifies problem
    ensures problem.Valid()
    ensures var r := MaxIndependentSetTwoPoints(old(problem.graph), updatedSolution, u, v, correlation);
      && (applied <==> r.Some?)
      && (applied ==> Step(problem.graph, solution) == r.value)
      && (!applied ==> problem.graph == old(problem.graph) && solution == updatedSolution)
  {
    if correlation < 0.0 {
      var common := problem.Neighbors(u) * problem.Neighbors(v);
      if common == {} {
        return false, updatedSolution;
      }
      problem.RemoveNodes(common);
    } else {
      problem.RemoveNodes({u, v});
    }
    solution := CollectIsolatedNodes(problem, updatedSolution);
    applied := true;
  }

  // ---------------------------------------------------------------------
  // The rules as strategies chosen when the simplifier is built

  /** Which problem a rule serves: a vertex-cover rule keeps covers, an
      independent-set rule keeps independence. */
  datatype Family = VertexCover | MaxIndependentSet

  datatype OnePointRule = VertexCoverOnePointRule | MaxIndependentSetOnePointRule {

    function Family(): Family {
      if VertexCoverOnePointRule? then VertexCover else MaxIndependentSet
    }

    /** The step the rule takes; a one-point rule never declines. */
    function Outcome(g: Graph, solution: set<int>, node: int, correlation: real): (r: Option<Step>)
      ensures r.Some?
    {
      match this
      case VertexCoverOnePointRule => Some(VertexCoverOnePoint(g, solution, node, correlation))
      case MaxIndependentSetOnePointRule => Some(MaxIndependentSetOnePoint(g, solution, node, correlation))
    }

    /** Where networkx would raise on a missing node. */
    predicate Defined(g: Graph, node: int, correlation: real) {
      node in g.nodes
    }

    method Apply(node: int, correlation: real, problem: Problem, updatedSolution: set<int>)
      returns (applied: bool, solution: set<int>)
      requires problem.Valid() && Defined(problem.graph, node, correlation)
      modifies problem
      ensures problem.Valid()
      ensures var r := Outcome(old(problem.graph), updatedSolution, node, correlation);
        && (applied <==> r.Some?)
        && (applied ==> Step(problem.graph, solution) == r.value)
        && (!applied ==> problem.graph == old(problem.graph) && solution == updatedSolution)
    {
      match this
      case VertexCoverOnePointRule =>
        applied, solution := ApplyVertexCoverOnePoint(node, correlation, problem, updatedSolution);
      case MaxIndependentSetOnePointRule =>
        applied, solution := ApplyMaxIndependentSetOnePoint(node, correlation, problem, updatedSolution);
    }
  }

  datatype TwoPointsRule = VertexCoverTwoPointsRule | MaxIndependentSetTwoPointsRule {

    function Family(): Family {
      if VertexCoverTwoPointsRule? then VertexCover else MaxIndependentSet
    }

    /** The step the rule takes, `None` when it declines. */
    function Outcome(g: Graph, solution: set<int>, u: int, v: int, correlation: real): (r: Option<Step>)
      ensures r.None? <==> MaxIndependentSetTwoPointsRule? && correlation < 0.0
                           && g.Neighbors(u) * g.Neighbors(v) == {}
    {
      match this
      case VertexCoverTwoPointsRule => Some(VertexCoverTwoPoints(g, solution, u, v, correlation))
      case MaxIndependentSetTwoPointsRule => MaxIndependentSetTwoPoints(g, solution, u, v, correlation)
    }

    /** Where networkx would raise on a missing node: only the
        anti-correlated branches look the endpoints up. */
    predicate Defined(g: Graph, u: int, v: int, correlation: real) {
      correlation < 0.0 ==> u in g.nodes && v in g.nodes
    }

    method Apply(u: int, v: int, correlation: real, problem: Problem, updatedSolution: set<int>)
      returns (applied: bool, solution: set<int>)
      requires problem.Valid() && Defined(problem.graph, u, v, correlation)
      modifies problem
      ensures problem.Valid()
      ensures var r := Outcome(old(problem.graph), updatedSolution, u, v, correlation);
        && (applied <==> r.Some?)
        && (applied ==> Step(problem.graph, solution) == r.value)
        && (!applied ==> problem.graph == old(problem.graph) && solution == updatedSolution)
    {
      match this
      case VertexCoverTwoPointsRule =>
        applied, solution := ApplyVertexCoverTwoPoints(u, v, correlation, problem, updatedSolution);
      case MaxIndependentSetTwoPointsRule =>
        applied, solution := ApplyMaxIndependentSetTwoPoints(u, v, correlation, problem, updatedSolution);
    }
  }
}
