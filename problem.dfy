/**
  `Problem`: the mutable wrapper around a graph that the reduction engine
  shrinks in place. Its field `graph` is the value of the wrapped networkx
  graph; every mutating method replaces it by the graph the networkx call
  leaves behind.
 */
module Problems {
  import opened Graphs

  class Problem {
    var graph: Graph

    ghost predicate Valid()
      reads this
    {
      graph.Valid()
    }

    constructor (g: Graph)
      requires g.Valid()
      ensures Valid() && graph == g
    {
      graph := g;
    }

    /** networkx rejects a node that is not in the graph. */
    method RemoveNode(node: int)
      requires Valid() && node in graph.nodes
      modifies this
      ensures Valid()
      ensures graph == old(graph).WithoutNodes({node})
      ensures graph.NumberOfNodes() == old(graph.NumberOfNodes()) - 1
    {
      graph := graph.WithoutNodes({node});
    }

    /** Nodes that are already absent are skipped. */
    method RemoveNodes(nodes: set<int>)
      requires Valid()
      modifies this
      ensures Valid()
      ensures graph == old(graph).WithoutNodes(nodes)
    {
      graph := graph.WithoutNodes(nodes);
    }

    /** networkx rejects an edge that is not in the graph. */
    method RemoveEdge(u: int, v: int)
      requires Valid() && (u, v) in graph.edges
      modifies this
      ensures Valid()
      ensures graph == old(graph).WithoutEdges({(u, v)})
      ensures graph.NumberOfEdges() == old(graph.NumberOfEdges()) - 1
    {
      ghost var before := graph;
      graph := graph.WithoutEdges({(u, v)});
      RemovedEdgeCount(before, u, v);
    }

    /** Edges that are already absent are skipped. */
    method RemoveEdges(edges: set<Edge>)
      requires Valid()
      modifies this
      ensures Valid()
      ensures graph == old(graph).WithoutEdges(edges)
    {
      graph := graph.WithoutEdges(edges);
    }

    /** networkx rejects a node that is not in the graph. */
    function Degree(node: int): (d: nat)
      reads this
      requires Valid() && node in graph.nodes
      ensures d == |graph.IncidentEdges(node)|
    {
      DegreeCountsIncidentEdges(graph, node);
      graph.Degree(node)
    }

    /** networkx rejects a node that is not in the graph. */
    function Neighbors(node: int): (ns: set<int>)
      reads this
      requires Valid() && node in graph.nodes
      ensures ns <= graph.nodes && node !in ns
      ensures forall m :: m in ns <==> (node, m) in graph.edges
    {
      graph.Neighbors(node)
    }

    function Nodes(): set<int>
      reads this
    {
      graph.nodes
    }

    /** Each undirected edge once, oriented from the smaller label. */
    function Edges(): (es: set<Edge>)
      reads this
      requires Valid()
      ensures forall u, v :: (u, v) in es <==> (u, v) in graph.edges && u < v
    {
      graph.UndirectedEdges()
    }

    function NumberOfNodes(): (n: nat)
      reads this
      ensures n == |Nodes()|
    {
      graph.NumberOfNodes()
    }

    function NumberOfEdges(): (m: nat)
      reads this
      requires Valid()
      ensures m == |Edges()|
      ensures m == 0 <==> graph.edges == {}
    {
      NoEdgesIff(graph);
      graph.NumberOfEdges()
    }

    /** A new problem over an equal, independent graph. */
    method Copy() returns (p: Problem)
      requires Valid()
      ensures fresh(p) && p.Valid() && p.graph == graph
    {
      p := new Problem(graph);
    }
  }

  /** Deleting one undirected edge lowers the edge count by one. */
  lemma RemovedEdgeCount(g: Graph, u: int, v: int)
    requires g.Valid() && (u, v) in g.edges
    ensures g.WithoutEdges({(u, v)}).NumberOfEdges() == g.NumberOfEdges() - 1
  {
    var r := g.WithoutEdges({(u, v)});
    var e := if u < v then (u, v) else (v, u);
    assert e in g.UndirectedEdges();
    forall x | x in g.UndirectedEdges() ensures x in r.UndirectedEdges() + {e} {
    }
    assert g.UndirectedEdges() == r.UndirectedEdges() + {e};
  }
}
