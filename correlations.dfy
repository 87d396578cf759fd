/**
  The ranked entry list that drives one QIRO round
  (`CorrelationPreparation._build_corr_entries`). It reads the measured
  scores as one flat vector: first one score per node, for the nodes in
  ascending order, then one score per edge, for the edges written (min, max)
  in ascending lexicographic order. Each score is paired by position with
  its node or edge, and the list is ranked by descending absolute score
  with a stable sort.
 */
module Correlations {
  import opened Graphs
  import opened Results

  /** One ranked entry: `u == v` for a node, `u < v` for an edge. */
  datatype Entry = Entry(score: real, u: int, v: int)

  function Abs(x: real): (r: real)
    ensures r >= 0.0 && (r == x || r == -x)
  {
    if x < 0.0 then -x else x
  }

  // ---------------------------------------------------------------------
  // `sorted(...)` of a collection of distinct values

  /** `le` is a total order on `T`. */
  ghost predicate TotalOrder<T(!new)>(le: (T, T) -> bool) {
    && (forall a, b :: le(a, b) || le(b, a))
    && (forall a, b :: le(a, b) && le(b, a) ==> a == b)
    && (forall a, b, c :: le(a, b) && le(b, c) ==> le(a, c))
  }

  lemma {:induction false} LeastExists<T(!new)>(s: set<T>, le: (T, T) -> bool)
    requires TotalOrder(le) && s != {}
    ensures exists m :: m in s && forall y | y in s :: le(m, y)
    decreases |s|
  {
    var x := Choose(s);
    if s == {x} {
      assert le(x, x);
      assert x in s && forall y | y in s :: le(x, y);
    } else {
      LeastExists(s - {x}, le);
      var m :| m in s - {x} && forall y | y in s - {x} :: le(m, y);
      if le(x, m) {
        assert x in s && forall y | y in s :: le(x, y);
      } else {
        assert m in s && forall y | y in s :: le(m, y);
      }
    }
  }

  /** The smallest element of a non-empty set. */
  function Least<T(==,!new)>(s: set<T>, le: (T, T) -> bool): (m: T)
    requires TotalOrder(le) && s != {}
    ensures m in s && forall y | y in s :: le(m, y)
  {
    LeastExists(s, le);
    var m :| m in s && forall y | y in s :: le(m, y);
    m
  }

  /** The elements of `s` listed in strictly increasing order. */
  function SortedSeq<T(==,!new)>(s: set<T>, le: (T, T) -> bool): (r: seq<T>)
    requires TotalOrder(le)
    ensures |r| == |s|
    ensures forall x :: x in r <==> x in s
    ensures forall i, j | 0 <= i < j < |r| :: le(r[i], r[j]) && r[i] != r[j]
    decreases |s|
  {
    if s == {} then []
    else
      var m := Least(s, le);
      var rest := SortedSeq(s - {m}, le);
      LeastPrecedesRest(s, le, m, rest);
      [m] + rest
  }

  lemma LeastPrecedesRest<T(!new)>(s: set<T>, le: (T, T) -> bool, m: T, rest: seq<T>)
    requires forall y | y in s :: le(m, y)
    requires forall x :: x in rest <==> x in s - {m}
    ensures forall j | 0 <= j < |rest| :: le(m, rest[j]) && m != rest[j]
  {
    forall j | 0 <= j < |rest| ensures le(m, rest[j]) && m != rest[j] {
      assert rest[j] in s - {m};
    }
  }

  function IntLe(a: int, b: int): bool { a <= b }

  /** Python's tuple order on (int, int). */
  function PairLe(a: Edge, b: Edge): bool {
    a.0 < b.0 || (a.0 == b.0 && a.1 <= b.1)
  }

  lemma IntLeIsTotal()
    ensures TotalOrder(IntLe)
  {
  }

  lemma PairLeIsTotal()
    ensures TotalOrder(PairLe)
  {
  }

  /** `sorted(G.nodes())` */
  function NodeOrder(g: Graph): (r: seq<int>)
    ensures |r| == |g.nodes|
  {
    IntLeIsTotal();
    SortedSeq(g.nodes, IntLe)
  }

  /** `sorted((min(u, v), max(u, v)) for (u, v) in G.edges())` */
  function EdgeOrder(g: Graph): (r: seq<Edge>)
    ensures |r| == g.NumberOfEdges()
  {
    PairLeIsTotal();
    SortedSeq(g.UndirectedEdges(), PairLe)
  }

  /** The node order lists every node once, ascending. */
  lemma NodeOrderIsSorted(g: Graph)
    ensures var r := NodeOrder(g);
      && (forall x :: x in r <==> x in g.nodes)
      && (forall i, j | 0 <= i < j < |r| :: r[i] < r[j])
  {
    IntLeIsTotal();
  }

  /** The edge order lists every undirected edge once, as (min, max), in
      lexicographic order. */
  lemma EdgeOrderIsSorted(g: Graph)
    ensures var r := EdgeOrder(g);
      && (forall e :: e in r <==> e in g.edges && e.0 < e.1)
      && (forall i, j | 0 <= i < j < |r| :: PairLe(r[i], r[j]) && r[i] != r[j])
  {
    PairLeIsTotal();
  }

  // ---------------------------------------------------------------------
  // `entries.sort(key=lambda t: abs(t[0]), reverse=True)`

  /** Non-increasing absolute score. */
  predicate Ranked(s: seq<Entry>) {
    forall i, j | 0 <= i < j < |s| :: Abs(s[i].score) >= Abs(s[j].score)
  }

  /** Places `x` after every entry whose absolute score is at least its own. */
  function Insert(x: Entry, s: seq<Entry>): (r: seq<Entry>)
    ensures multiset(r) == multiset(s) + multiset{x}
  {
    if s == [] then [x]
    else if Abs(s[0].score) >= Abs(x.score) then
      assert s == [s[0]] + s[1..];
      [s[0]] + Insert(x, s[1..])
    else [x] + s
  }

  /** The stable ranking, as insertion of each entry in list order. */
  function RankByAbs(s: seq<Entry>): (r: seq<Entry>)
  {
    if s == [] then []
    else Insert(s[|s| - 1], RankByAbs(s[..|s| - 1]))
  }

  /** The entries of `s` whose absolute score is `k`, in list order. */
  function WithAbs(s: seq<Entry>, k: real): seq<Entry> {
    if s == [] then [] else Keep(s[0], k) + WithAbs(s[1..], k)
  }

  function Keep(e: Entry, k: real): seq<Entry> {
    if Abs(e.score) == k then [e] else []
  }

  lemma {:induction false} InsertKeepsRanked(x: Entry, s: seq<Entry>)
    requires Ranked(s)
    ensures Ranked(Insert(x, s))
  {
    if s != [] && Abs(s[0].score) >= Abs(x.score) {
      InsertKeepsRanked(x, s[1..]);
      var t := Insert(x, s[1..]);
      forall j | 0 <= j < |t| ensures Abs(s[0].score) >= Abs(t[j].score) {
        assert t[j] in multiset(t);
        assert t[j] in multiset(s[1..]) + multiset{x};
        if t[j] in multiset(s[1..]) {
          var i :| 0 <= i < |s[1..]| && s[1..][i] == t[j];
          assert s[1 + i] == t[j];
        }
      }
    }
  }

  lemma WithAbsCons(e: Entry, s: seq<Entry>, k: real)
    ensures WithAbs([e] + s, k) == Keep(e, k) + WithAbs(s, k)
  {
    assert ([e] + s)[1..] == s;
  }

  lemma {:induction false} WithAbsAppend(a: seq<Entry>, b: seq<Entry>, k: real)
    ensures WithAbs(a + b, k) == WithAbs(a, k) + WithAbs(b, k)
  {
    if a == [] {
      assert a + b == b;
    } else {
      var t := a[1..];
      assert a == [a[0]] + t;
      assert a + b == [a[0]] + (t + b);
      WithAbsCons(a[0], t + b, k);
      WithAbsCons(a[0], t, k);
      WithAbsAppend(t, b, k);
    }
  }

  lemma RankedTail(s: seq<Entry>)
    requires Ranked(s) && s != []
    ensures Ranked(s[1..])
  {
    forall i, j | 0 <= i < j < |s| - 1 ensures Abs(s[1..][i].score) >= Abs(s[1..][j].score) {
      assert s[1..][i] == s[i + 1] && s[1..][j] == s[j + 1];
    }
  }

  /** Inserting into a ranked list puts `x` behind every entry of equal
      absolute score. */
  lemma {:induction false} InsertIsStable(x: Entry, s: seq<Entry>, k: real)
    requires Ranked(s)
    ensures WithAbs(Insert(x, s), k) == WithAbs(s, k) + WithAbs([x], k)
  {
    if s != [] && Abs(s[0].score) >= Abs(x.score) {
      RankedTail(s);
      InsertIsStable(x, s[1..], k);
      InsertBehind(x, s, k);
    } else {
      InsertInFront(x, s, k);
    }
  }

  lemma InsertBehind(x: Entry, s: seq<Entry>, k: real)
    requires s != [] && Abs(s[0].score) >= Abs(x.score)
    requires WithAbs(Insert(x, s[1..]), k) == WithAbs(s[1..], k) + WithAbs([x], k)
    ensures WithAbs(Insert(x, s), k) == WithAbs(s, k) + WithAbs([x], k)
  {
    var t := Insert(x, s[1..]);
    var head, rest, last := Keep(s[0], k), WithAbs(s[1..], k), WithAbs([x], k);
    assert WithAbs(Insert(x, s), k) == head + (rest + last) by {
      assert Insert(x, s) == [s[0]] + t;
      WithAbsCons(s[0], t, k);
    }
    assert WithAbs(s, k) == head + rest by {
      assert [s[0]] + s[1..] == s;
      WithAbsCons(s[0], s[1..], k);
    }
    Regroup(WithAbs(Insert(x, s), k), WithAbs(s, k), head, rest, last);
  }

  lemma Regroup(whole: seq<Entry>, front: seq<Entry>, head: seq<Entry>, rest: seq<Entry>, last: seq<Entry>)
    requires whole == head + (rest + last) && front == head + rest
    ensures whole == front + last
  {
  }

  lemma InsertInFront(x: Entry, s: seq<Entry>, k: real)
    requires Ranked(s) && (s != [] ==> Abs(s[0].score) < Abs(x.score))
    ensures WithAbs(Insert(x, s), k) == WithAbs(s, k) + WithAbs([x], k)
  {
    WithAbsCons(x, [], k);
    assert [x] + [] == [x];
    assert Insert(x, s) == [x] + s;
    WithAbsCons(x, s, k);
    if Abs(x.score) == k {
      WithAbsNone(s, k);
    }
  }

  /** A ranked list that starts below `k` has no entry at `k`. */
  lemma {:induction false} WithAbsNone(s: seq<Entry>, k: real)
    requires Ranked(s) && (s != [] ==> Abs(s[0].score) < k)
    ensures WithAbs(s, k) == []
  {
    if s != [] {
      assert s[1..] != [] ==> Abs(s[1..][0].score) <= Abs(s[0].score);
      WithAbsNone(s[1..], k);
    }
  }

  /** The ranking orders by non-increasing absolute score. */
  lemma {:induction false} RankByAbsIsRanked(s: seq<Entry>)
    ensures Ranked(RankByAbs(s))
  {
    if s != [] {
      RankByAbsIsRanked(s[..|s| - 1]);
      InsertKeepsRanked(s[|s| - 1], RankByAbs(s[..|s| - 1]));
    }
  }

  /** The ranking is a permutation. */
  lemma {:induction false} RankByAbsIsPermutation(s: seq<Entry>)
    ensures multiset(RankByAbs(s)) == multiset(s)
  {
    if s != [] {
      RankByAbsIsPermutation(s[..|s| - 1]);
      assert s == s[..|s| - 1] + [s[|s| - 1]];
    }
  }

  /** The ranking is stable: entries of equal absolute score keep their
      relative order. */
  lemma {:induction false} RankByAbsIsStable(s: seq<Entry>, k: real)
    ensures WithAbs(RankByAbs(s), k) == WithAbs(s, k)
  {
    if s != [] {
      var init, x := s[..|s| - 1], s[|s| - 1];
      RankByAbsIsStable(init, k);
      RankByAbsIsRanked(init);
      InsertIsStable(x, RankByAbs(init), k);
      assert s == init + [x];
      WithAbsAppend(init, [x], k);
    }
  }

  // ---------------------------------------------------------------------
  // `_build_corr_entries`

  /** The entries before ranking: node scores first, then edge scores,
      each taken by position from `results`. */
  function Unranked(results: seq<real>, nodes: seq<int>, edges: seq<Edge>): (r: seq<Entry>)
    requires |results| == |nodes| + |edges|
    ensures |r| == |results|
  {
    seq(|nodes|, k requires 0 <= k < |nodes| => Entry(results[k], nodes[k], nodes[k]))
    + seq(|edges|, k requires 0 <= k < |edges| => Entry(results[|nodes| + k], edges[k].0, edges[k].1))
  }

  /** Scores map by position: the k-th node gets `results[k]`, the k-th
      edge gets `results[n + k]`. */
  lemma UnrankedByPosition(results: seq<real>, nodes: seq<int>, edges: seq<Edge>, k: nat)
    requires |results| == |nodes| + |edges| && k < |results|
    ensures var r := Unranked(results, nodes, edges);
      && (k < |nodes| ==> r[k] == Entry(results[k], nodes[k], nodes[k]))
      && (k >= |nodes| ==> r[k] == Entry(results[k], edges[k - |nodes|].0, edges[k - |nodes|].1))
  {
  }

  /** `_build_corr_entries`: sorts the nodes and edges, checks that there
      is one score for each, pairs them up and ranks the result. */
  method BuildCorrEntries(results: seq<real>, g: Graph) returns (r: Result<seq<Entry>>)
    ensures var n, m := |g.nodes|, g.NumberOfEdges();
      && (r.Err? <==> |results| != n + m)
      && (r.Err? ==> r.error == ValueError(n + m, |results|))
      && (r.Ok? ==> r.value == RankedEntries(results, g))
  {
    var nodeList := NodeOrder(g);
    var edgeList := EdgeOrder(g);
    var n := |nodeList|;
    var m := |edgeList|;
    if |results| != n + m {
      return Err(ValueError(n + m, |results|));
    }
    var entries := PairScores(results, nodeList, edgeList);
    entries := RankByAbs(entries);
    return Ok(entries);
  }

  /** The two enumerating loops of `_build_corr_entries`: the first `n`
      scores go to the nodes, the next `m` to the edges. */
  method PairScores(results: seq<real>, nodeList: seq<int>, edgeList: seq<Edge>) returns (entries: seq<Entry>)
    requires |results| == |nodeList| + |edgeList|
    ensures entries == Unranked(results, nodeList, edgeList)
  {
    var n, m := |nodeList|, |edgeList|;
    var onePoint := results[..n];
    var twoPoint := results[n..n + m];
    ghost var raw := Unranked(results, nodeList, edgeList);
    entries := [];
    for idx := 0 to n
      invariant entries == raw[..idx]
    {
      UnrankedByPosition(results, nodeList, edgeList, idx);
      assert raw[..idx + 1] == raw[..idx] + [raw[idx]];
      entries := entries + [Entry(onePoint[idx], nodeList[idx], nodeList[idx])];
    }
    for k := 0 to m
      invariant |entries| == n + k
      invariant entries == raw[..|entries|]
    {
      UnrankedByPosition(results, nodeList, edgeList, n + k);
      assert raw[..|entries| + 1] == entries + [raw[|entries|]];
      entries := entries + [Entry(twoPoint[k], edgeList[k].0, edgeList[k].1)];
    }
    assert entries == raw;
  }

  /** An entry names a present node as (x, x) or an edge as (min, max). */
  ghost predicate NamesGraph(g: Graph, e: Entry) {
    (e.u == e.v && e.u in g.nodes) || (e.u < e.v && (e.u, e.v) in g.edges)
  }

  /** The ranked entries of a graph, as the simplifier receives them. */
  function RankedEntries(results: seq<real>, g: Graph): seq<Entry>
    requires |results| == |g.nodes| + g.NumberOfEdges()
  {
    RankByAbs(Unranked(results, NodeOrder(g), EdgeOrder(g)))
  }

  /** Every ranked entry names a node of the graph as (x, x) or one of its
      edges as (min, max), there are n + m of them, and they are ranked. */
  lemma EntriesNameGraph(results: seq<real>, g: Graph)
    requires |results| == |g.nodes| + g.NumberOfEdges()
    ensures var r := RankedEntries(results, g);
      && |r| == |g.nodes| + g.NumberOfEdges()
      && Ranked(r)
      && forall i | 0 <= i < |r| :: NamesGraph(g, r[i])
  {
    var nodes, edges := NodeOrder(g), EdgeOrder(g);
    var raw := Unranked(results, nodes, edges);
    var r := RankByAbs(raw);
    NodeOrderIsSorted(g);
    EdgeOrderIsSorted(g);
    RankByAbsIsRanked(raw);
    RankByAbsIsPermutation(raw);
    assert |r| == |multiset(r)| == |raw|;
    forall i | 0 <= i < |r| ensures NamesGraph(g, r[i]) {
      assert r[i] in multiset(raw);
      var j :| 0 <= j < |raw| && raw[j] == r[i];
      UnrankedByPosition(results, nodes, edges, j);
      if j >= |nodes| {
        assert edges[j - |nodes|] in edges;
      } else {
        assert nodes[j] in nodes;
      }
    }
  }

  /** Ranking drops no entry. */
  lemma RankingKeeps(s: seq<Entry>, k: nat)
    requires k < |s|
    ensures s[k] in RankByAbs(s)
  {
    RankByAbsIsPermutation(s);
    assert s[k] in multiset(s);
  }

  /** Every node gets its one-point entry, with the score at its position
      in the node order. */
  lemma EveryNodeRanked(results: seq<real>, nodes: seq<int>, edges: seq<Edge>, k: nat)
    requires |results| == |nodes| + |edges| && k < |nodes|
    ensures Entry(results[k], nodes[k], nodes[k]) in RankByAbs(Unranked(results, nodes, edges))
  {
    UnrankedByPosition(results, nodes, edges, k);
    RankingKeeps(Unranked(results, nodes, edges), k);
  }

  /** Every edge gets its two-point entry, with the score at its position
      in the edge order, after the node scores. */
  lemma EveryEdgeRanked(results: seq<real>, nodes: seq<int>, edges: seq<Edge>, k: nat)
    requires |results| == |nodes| + |edges| && k < |edges|
    ensures Entry(results[|nodes| + k], edges[k].0, edges[k].1) in RankByAbs(Unranked(results, nodes, edges))
  {
    UnrankedByPosition(results, nodes, edges, |nodes| + k);
    RankingKeeps(Unranked(results, nodes, edges), |nodes| + k);
  }
}
