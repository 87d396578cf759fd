/**
  The simplifier (algorithms/qiro/simplifier.py): walks the ranked entry
  list in order, hands an entry (x, x) to the one-point rule and any other
  entry to the two-point rule, and stops at the first rule that applies.
  When none applies it raises `NoApplicableSimplificationRuleError`.

  `FirstApplicable` is the step the walk takes; `Simplifier.Simplify` is
  proved against it, and the lemmas below say which entry it picks, that
  later entries have no effect, when it cannot fail and what the step
  guarantees.
 */
module Simplifiers {
  import opened Graphs
  import opened Results
  import opened Problems
  import opened Rules
  import opened Correlations

  /** The family of the rule an entry is handed to. */
  function RuleFamily(one: OnePointRule, two: TwoPointsRule, e: Entry): Family {
    if e.u == e.v then one.Family() else two.Family()
  }

  /** The rule call for `e` looks up only nodes that are present. */
  predicate Callable(one: OnePointRule, two: TwoPointsRule, g: Graph, e: Entry) {
    if e.u == e.v then one.Defined(g, e.u, e.score) else two.Defined(g, e.u, e.v, e.score)
  }

  /** The step the rule for `e` takes, `None` when it declines. */
  function EntryOutcome(one: OnePointRule, two: TwoPointsRule, g: Graph, solution: set<int>, e: Entry): (r: Option<Step>)
    ensures e.u == e.v ==> r.Some?
    ensures r.None? ==> two == MaxIndependentSetTwoPointsRule && e.score < 0.0 && g.Neighbors(e.u) * g.Neighbors(e.v) == {}
  {
    if e.u == e.v then one.Outcome(g, solution, e.u, e.score)
    else two.Outcome(g, solution, e.u, e.v, e.score)
  }

  /** The step of the first entry whose rule applies; the only failure is
      that no rule applies. */
  function FirstApplicable(one: OnePointRule, two: TwoPointsRule, g: Graph, solution: set<int>, entries: seq<Entry>): (r: Result<Step>)
    ensures r.Err? ==> r.error == NoApplicableSimplificationRuleError
  {
    if entries == [] then Err(NoApplicableSimplificationRuleError)
    else match EntryOutcome(one, two, g, solution, entries[0])
      case Some(s) => Ok(s)
      case None => FirstApplicable(one, two, g, solution, entries[1..])
  }

  /** The walk picks the first entry whose rule applies, and fails exactly
      when every rule declines. */
  lemma {:induction false} FirstApplicableIndex(one: OnePointRule, two: TwoPointsRule, g: Graph, solution: set<int>, entries: seq<Entry>)
    returns (i: nat)
    ensures var r := FirstApplicable(one, two, g, solution, entries);
      && (r.Ok? ==> i < |entries| && EntryOutcome(one, two, g, solution, entries[i]) == Some(r.value))
      && (r.Ok? ==> forall j | 0 <= j < i :: EntryOutcome(one, two, g, solution, entries[j]).None?)
      && (r.Err? <==> forall j | 0 <= j < |entries| :: EntryOutcome(one, two, g, solution, entries[j]).None?)
  {
    if entries == [] {
      i := 0;
    } else if EntryOutcome(one, two, g, solution, entries[0]).Some? {
      i := 0;
    } else {
      var k := FirstApplicableIndex(one, two, g, solution, entries[1..]);
      i := k + 1;
      forall j | 1 <= j < |entries|
        ensures EntryOutcome(one, two, g, solution, entries[j]) == EntryOutcome(one, two, g, solution, entries[1..][j - 1])
      {
      }
    }
  }

  /** Once an entry applies, the entries after it have no effect; if none
      of a prefix applies, the walk continues with the rest. */
  lemma {:induction false} LaterEntriesIgnored(one: OnePointRule, two: TwoPointsRule, g: Graph, solution: set<int>, a: seq<Entry>, b: seq<Entry>)
    ensures var ra := FirstApplicable(one, two, g, solution, a);
      && (ra.Ok? ==> FirstApplicable(one, two, g, solution, a + b) == ra)
      && (ra.Err? ==> FirstApplicable(one, two, g, solution, a + b) == FirstApplicable(one, two, g, solution, b))
  {
    if a == [] {
      assert a + b == b;
    } else {
      assert (a + b)[0] == a[0];
      assert (a + b)[1..] == a[1..] + b;
      LaterEntriesIgnored(one, two, g, solution, a[1..], b);
    }
  }

  /** The walk cannot fail when some entry goes to a rule that never
      declines: a one-point rule, or the vertex-cover two-point rule. */
  lemma NeverRaises(one: OnePointRule, two: TwoPointsRule, g: Graph, solution: set<int>, entries: seq<Entry>, i: nat)
    requires i < |entries| && (entries[i].u == entries[i].v || two.Family() == VertexCover)
    ensures FirstApplicable(one, two, g, solution, entries).Ok?
  {
    var _ := FirstApplicableIndex(one, two, g, solution, entries);
    assert EntryOutcome(one, two, g, solution, entries[i]).Some?;
  }

  /** A step that keeps the invariant of `family`. */
  ghost predicate Keeps(family: Family, before: Step, after: Step) {
    match family
    case VertexCover => KeepsCover(before, after)
    case MaxIndependentSet => KeepsIndependence(before, after)
  }

  /** One entry naming a node or an edge of the graph: its rule, when it
      applies, makes progress and keeps the invariant of its family. */
  lemma EntrySound(one: OnePointRule, two: TwoPointsRule, g: Graph, solution: set<int>, e: Entry)
    requires g.Valid() && solution !! g.nodes && NamesGraph(g, e)
    ensures var r := EntryOutcome(one, two, g, solution, e);
      r.Some? ==> Progress(Step(g, solution), r.value) && Keeps(RuleFamily(one, two, e), Step(g, solution), r.value)
  {
    if e.u == e.v {
      match one
      case VertexCoverOnePointRule => VertexCoverOnePointSound(g, solution, e.u, e.score);
      case MaxIndependentSetOnePointRule => MaxIndependentSetOnePointSound(g, solution, e.u, e.score);
    } else {
      match two
      case VertexCoverTwoPointsRule => VertexCoverTwoPointsSound(g, solution, e.u, e.v, e.score);
      case MaxIndependentSetTwoPointsRule => MaxIndependentSetTwoPointsSound(g, solution, e.u, e.v, e.score);
    }
  }

  /** The simplifier's step makes progress, and keeps the invariant of the
      family when both rules belong to it. */
  lemma FirstApplicableSound(one: OnePointRule, two: TwoPointsRule, g: Graph, solution: set<int>, entries: seq<Entry>)
    requires g.Valid() && solution !! g.nodes
    requires forall i | 0 <= i < |entries| :: NamesGraph(g, entries[i])
    ensures var r := FirstApplicable(one, two, g, solution, entries);
      && (r.Ok? ==> Progress(Step(g, solution), r.value))
      && (r.Ok? && one.Family() == two.Family() ==> Keeps(one.Family(), Step(g, solution), r.value))
  {
    var i := FirstApplicableIndex(one, two, g, solution, entries);
    if FirstApplicable(one, two, g, solution, entries).Ok? {
      EntrySound(one, two, g, solution, entries[i]);
    }
  }

  class Simplifier {
    const onePointRule: OnePointRule
    const twoPointsRule: TwoPointsRule

    constructor (onePointRule: OnePointRule, twoPointsRule: TwoPointsRule)
      ensures this.onePointRule == onePointRule && this.twoPointsRule == twoPointsRule
    {
      this.onePointRule := onePointRule;
      this.twoPointsRule := twoPointsRule;
    }

    /** Applies the first applicable rule to `problem` and returns the
        updated solution; on failure the problem is untouched. */
    method Simplify(problem: Problem, updatedSolution: set<int>, entries: seq<Entry>) returns (result: Result<set<int>>)
      requires problem.Valid()
      requires forall i | 0 <= i < |entries| :: Callable(onePointRule, twoPointsRule, problem.graph, entries[i])
      modifies problem
      ensures problem.Valid()
      ensures var r := FirstApplicable(onePointRule, twoPointsRule, old(problem.graph), updatedSolution, entries);
        && (r.Ok? ==> result == Ok(r.value.solution) && problem.graph == r.value.graph)
        && (r.Err? ==> result == Err(r.error) && problem.graph == old(problem.graph))
    {
      for i := 0 to |entries|
        invariant problem.Valid() && problem.graph == old(problem.graph)
        invariant FirstApplicable(onePointRule, twoPointsRule, problem.graph, updatedSolution, entries[i..])
               == FirstApplicable(onePointRule, twoPointsRule, problem.graph, updatedSolution, entries)
      {
        var e := entries[i];
        var applied, solution;
        if e.u == e.v {
          applied, solution := onePointRule.Apply(e.u, e.score, problem, updatedSolution);
        } else {
          applied, solution := twoPointsRule.Apply(e.u, e.v, e.score, problem, updatedSolution);
        }
        if applied {
          return Ok(solution);
        }
        assert entries[i..][1..] == entries[i + 1..];
      }
      return Err(NoApplicableSimplificationRuleError);
    }
  }
}
