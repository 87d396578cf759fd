/**
  An undirected graph as a value, assumed to have no self-loops: the state
  that a networkx `Graph` holds for the QIRO engine. Every undirected edge {u, v} is stored in both
  orientations, (u, v) and (v, u), so adjacency is a plain membership test.
 */
module Graphs {

  type Edge = (int, int)

  datatype Graph = Graph(nodes: set<int>, edges: set<Edge>) {

    /** Every edge joins two distinct present nodes, and edges are symmetric. */
    ghost predicate Valid() {
      && (forall e | e in edges :: e.0 in nodes && e.1 in nodes && e.0 != e.1)
      && (forall e | e in edges :: (e.1, e.0) in edges)
    }

    function Neighbors(n: int): set<int> {
      set m | m in nodes && (n, m) in edges
    }

    function Degree(n: int): nat {
      |Neighbors(n)|
    }

    /** The edges incident to `n`, each oriented away from `n`. */
    function IncidentEdges(n: int): set<Edge> {
      set e | e in edges && e.0 == n
    }

    /** Each undirected edge once, as (min, max). */
    function UndirectedEdges(): set<Edge> {
      set e | e in edges && e.0 < e.1
    }

    function NumberOfNodes(): nat {
      |nodes|
    }

    function NumberOfEdges(): nat {
      |UndirectedEdges()|
    }

    /** The nodes of degree zero. */
    function Isolated(): set<int> {
      set n | n in nodes && Degree(n) == 0
    }

    /** The graph left after deleting the nodes of `s` and every edge that
        touches one of them; nodes of `s` that are absent are ignored. */
    function WithoutNodes(s: set<int>): (r: Graph)
      ensures Valid() ==> r.Valid()
      ensures r.nodes == nodes - s
      ensures forall x | x in r.nodes :: r.Neighbors(x) == Neighbors(x) - s
    {
      Graph(nodes - s, set e | e in edges && e.0 !in s && e.1 !in s)
    }

    /** The graph left after deleting every edge of `s`, in either orientation;
        absent edges are ignored and no node is deleted. */
    function WithoutEdges(s: set<Edge>): (r: Graph)
      ensures Valid() ==> r.Valid()
      ensures r.nodes == nodes
      ensures forall x, y :: (x, y) in r.edges <==> (x, y) in edges && (x, y) !in s && (y, x) !in s
    {
      Graph(nodes, set e | e in edges && e !in s && (e.1, e.0) !in s)
    }

    /** This graph arises from `g` by deleting some of its nodes together
        with the edges that touch them. */
    predicate IsInducedSubgraphOf(g: Graph) {
      nodes <= g.nodes && this == g.WithoutNodes(g.nodes - nodes)
    }
  }

  /** Some element of a non-empty set. */
  lemma Choose<T>(s: set<T>) returns (x: T)
    requires s != {}
    ensures x in s
  {
    if forall y :: y !in s {
      assert false;
    }
    x :| x in s;
  }

  /** Removing nodes that are not in the graph changes nothing. */
  lemma WithoutAbsentNodes(g: Graph, s: set<int>)
    requires g.Valid() && s !! g.nodes
    ensures g.WithoutNodes(s) == g
  {
    var r := g.WithoutNodes(s);
    assert r.nodes == g.nodes;
    forall e | e in g.edges ensures e in r.edges {
    }
  }

  /** Removing `a` and then `b` is removing `a + b`. */
  lemma WithoutNodesTwice(g: Graph, a: set<int>, b: set<int>)
    ensures g.WithoutNodes(a).WithoutNodes(b) == g.WithoutNodes(a + b)
  {
    var l := g.WithoutNodes(a).WithoutNodes(b);
    var r := g.WithoutNodes(a + b);
    assert l.nodes == r.nodes;
    assert l.edges == r.edges;
  }

  /** Only the present nodes of a removal set matter. */
  lemma WithoutNodesPresentPart(g: Graph, a: set<int>, b: set<int>)
    requires g.Valid() && a * g.nodes == b * g.nodes
    ensures g.WithoutNodes(a) == g.WithoutNodes(b)
  {
    var l, r := g.WithoutNodes(a), g.WithoutNodes(b);
    forall x | x in g.nodes ensures x in a <==> x in b {
      assert x in a * g.nodes <==> x in b * g.nodes;
    }
    assert l.nodes == r.nodes;
    assert l.edges == r.edges;
  }

  /** Removing more nodes from an induced subgraph still yields one. */
  lemma WithoutNodesInduced(g: Graph, h: Graph, s: set<int>)
    requires g.Valid() && h.IsInducedSubgraphOf(g)
    ensures h.WithoutNodes(s).IsInducedSubgraphOf(g)
  {
    var r := h.WithoutNodes(s);
    WithoutNodesTwice(g, g.nodes - h.nodes, s);
    WithoutNodesPresentPart(g, (g.nodes - h.nodes) + s, g.nodes - r.nodes);
  }

  /** The pairs (n, m) for m in `s` are as many as the elements of `s`. */
  lemma {:induction false} PairsFromCard(n: int, s: set<int>)
    ensures |set m | m in s :: (n, m)| == |s|
  {
    if s != {} {
      var x := Choose(s);
      var rest := s - {x};
      PairsFromCard(n, rest);
      assert (set m | m in s :: (n, m)) == (set m | m in rest :: (n, m)) + {(n, x)};
      assert (n, x) !in (set m | m in rest :: (n, m));
    } else {
      assert (set m | m in s :: (n, m)) == {};
    }
  }

  /** The degree of a node is the number of edges incident to it. */
  lemma DegreeCountsIncidentEdges(g: Graph, n: int)
    requires g.Valid()
    ensures g.Degree(n) == |g.IncidentEdges(n)|
  {
    assert g.IncidentEdges(n) == set m | m in g.Neighbors(n) :: (n, m);
    PairsFromCard(n, g.Neighbors(n));
  }

  /** A node is isolated exactly when no edge touches it. */
  lemma IsolatedMeansNoEdge(g: Graph, n: int)
    requires g.Valid() && n in g.nodes
    ensures n in g.Isolated() <==> forall e | e in g.edges :: e.0 != n && e.1 != n
  {
    if n !in g.Isolated() {
      var m := Choose(g.Neighbors(n));
      assert (n, m) in g.edges;
    } else {
      assert forall e | e in g.edges && e.0 == n :: e.1 in g.Neighbors(n);
      assert forall e | e in g.edges && e.1 == n :: e.0 in g.Neighbors(n);
    }
  }

  /** The edge count is zero exactly when the edge set is empty. */
  lemma NoEdgesIff(g: Graph)
    requires g.Valid()
    ensures g.NumberOfEdges() == 0 <==> g.edges == {}
  {
    if g.edges != {} {
      var e := Choose(g.edges);
      if e.0 < e.1 {
        assert e in g.UndirectedEdges();
      } else {
        assert (e.1, e.0) in g.UndirectedEdges();
      }
    }
  }
}
