/**
  The solution checks of utils.py. Each one walks the edge list `G.edges()`
  of a graph; here that list is the parameter `edges`, and `ListsEdgesOf`
  says when a list is the edge list of a `Graph` value.
 */
module Validity {
  import opened Graphs

  /** `all(u in cover or v in cover for u, v in G.edges())` */
  predicate IsVertexCover(edges: seq<Edge>, cover: set<int>) {
    forall i | 0 <= i < |edges| :: edges[i].0 in cover || edges[i].1 in cover
  }

  /** The edges, in list order, with neither endpoint in `cover`. */
  function UncoveredEdges(edges: seq<Edge>, cover: set<int>): (r: seq<Edge>)
    ensures |r| <= |edges|
    ensures forall e :: e in r <==> e in edges && e.0 !in cover && e.1 !in cover
  {
    if edges == [] then []
    else
      var e := edges[0];
      var rest := UncoveredEdges(edges[1..], cover);
      if e.0 !in cover && e.1 !in cover then [e] + rest else rest
  }

  /** `all(not (u in indep and v in indep) for u, v in G.edges())` */
  predicate IsIndependentSet(edges: seq<Edge>, indep: set<int>) {
    forall i | 0 <= i < |edges| :: !(edges[i].0 in indep && edges[i].1 in indep)
  }

  /** The edges, in list order, with both endpoints in `indep`. */
  function ViolatingEdges(edges: seq<Edge>, indep: set<int>): (r: seq<Edge>)
    ensures |r| <= |edges|
    ensures forall e :: e in r <==> e in edges && e.0 in indep && e.1 in indep
  {
    if edges == [] then []
    else
      var e := edges[0];
      var rest := ViolatingEdges(edges[1..], indep);
      if e.0 in indep && e.1 in indep then [e] + rest else rest
  }

  /** `edges` lists every undirected edge of `g`, in one orientation or the
      other, and nothing else. */
  ghost predicate ListsEdgesOf(edges: seq<Edge>, g: Graph) {
    && (forall i | 0 <= i < |edges| :: edges[i] in g.edges)
    && (forall e | e in g.edges :: e in edges || (e.1, e.0) in edges)
  }

  /** Every edge of `g` has an endpoint in `cover`. */
  ghost predicate Covers(g: Graph, cover: set<int>) {
    forall e | e in g.edges :: e.0 in cover || e.1 in cover
  }

  /** No edge of `g` has both endpoints in `indep`. */
  ghost predicate Independent(g: Graph, indep: set<int>) {
    forall e | e in g.edges :: !(e.0 in indep && e.1 in indep)
  }

  lemma {:induction false} VertexCoverIffNoneUncovered(edges: seq<Edge>, cover: set<int>)
    ensures IsVertexCover(edges, cover) <==> UncoveredEdges(edges, cover) == []
  {
    if UncoveredEdges(edges, cover) != [] {
      var e := UncoveredEdges(edges, cover)[0];
      assert e in UncoveredEdges(edges, cover);
      var i :| 0 <= i < |edges| && edges[i] == e;
    }
  }

  lemma {:induction false} IndependentIffNoneViolating(edges: seq<Edge>, indep: set<int>)
    ensures IsIndependentSet(edges, indep) <==> ViolatingEdges(edges, indep) == []
  {
    if ViolatingEdges(edges, indep) != [] {
      var e := ViolatingEdges(edges, indep)[0];
      assert e in ViolatingEdges(edges, indep);
      var i :| 0 <= i < |edges| && edges[i] == e;
    }
  }

  /** On an edgeless graph every set is both a cover and independent. */
  lemma EdgelessAcceptsEverything(edges: seq<Edge>, g: Graph, s: set<int>)
    requires ListsEdgesOf(edges, g) && g.edges == {}
    ensures IsVertexCover(edges, s) && IsIndependentSet(edges, s)
  {
  }

  /** The checks on the edge list agree with the graph-level predicates. */
  lemma ChecksAgreeWithGraph(edges: seq<Edge>, g: Graph, s: set<int>)
    requires g.Valid() && ListsEdgesOf(edges, g)
    ensures IsVertexCover(edges, s) <==> Covers(g, s)
    ensures IsIndependentSet(edges, s) <==> Independent(g, s)
  {
    if IsVertexCover(edges, s) {
      forall e | e in g.edges ensures e.0 in s || e.1 in s {
        if e in edges {
          var i :| 0 <= i < |edges| && edges[i] == e;
        } else {
          var i :| 0 <= i < |edges| && edges[i] == (e.1, e.0);
        }
      }
    }
    if IsIndependentSet(edges, s) {
      forall e | e in g.edges ensures !(e.0 in s && e.1 in s) {
        if e in edges {
          var i :| 0 <= i < |edges| && edges[i] == e;
        } else {
          var i :| 0 <= i < |edges| && edges[i] == (e.1, e.0);
        }
      }
    }
  }

  /** The filters keep list order: filtering a concatenation concatenates
      the filtered parts. */
  lemma {:induction false} UncoveredEdgesKeepOrder(a: seq<Edge>, b: seq<Edge>, cover: set<int>)
    ensures UncoveredEdges(a + b, cover) == UncoveredEdges(a, cover) + UncoveredEdges(b, cover)
  {
    if a != [] {
      UncoveredEdgesKeepOrder(a[1..], b, cover);
      assert (a + b)[1..] == a[1..] + b;
    } else {
      assert a + b == b;
    }
  }

  lemma {:induction false} ViolatingEdgesKeepOrder(a: seq<Edge>, b: seq<Edge>, indep: set<int>)
    ensures ViolatingEdges(a + b, indep) == ViolatingEdges(a, indep) + ViolatingEdges(b, indep)
  {
    if a != [] {
      ViolatingEdgesKeepOrder(a[1..], b, indep);
      assert (a + b)[1..] == a[1..] + b;
    } else {
      assert a + b == b;
    }
  }
}
