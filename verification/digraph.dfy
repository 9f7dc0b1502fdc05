/**
  Directed graphs whose nodes are page titles, as the dashboard builds them with a
  networkx `DiGraph`: a node set and a set of ordered (source, target) pairs.
  Adding an edge or node twice has no effect, so sets are the faithful model.
 */
module Digraph {

  type Edge = (string, string)

  datatype Graph = Graph(nodes: set<string>, edges: set<Edge>)

  /** Every edge joins two nodes of the graph (networkx adds both endpoints with the edge). */
  predicate WellFormed(g: Graph) {
    forall e :: e in g.edges ==> e.0 in g.nodes && e.1 in g.nodes
  }

  /** `h` is a subgraph of `g`: no node and no edge that `g` lacks. */
  predicate Subgraph(h: Graph, g: Graph) {
    h.nodes <= g.nodes && h.edges <= g.edges
  }

  /**
    `h` is the subgraph of `g` induced by `h`'s own node set: it is a subgraph, and an edge
    of `g` belongs to `h` exactly when both of its endpoints do.
   */
  predicate InducedBy(h: Graph, g: Graph) {
    && Subgraph(h, g)
    && forall e :: e in g.edges ==> (e in h.edges <==> e.0 in h.nodes && e.1 in h.nodes)
  }

  /** Every edge of `g` has `hub` as one of its endpoints. */
  predicate Star(g: Graph, hub: string) {
    forall e :: e in g.edges ==> e.0 == hub || e.1 == hub
  }

  /**
    `G.subgraph(keep).copy()`: the nodes of `g` that are in `keep`, with every edge of `g`
    whose two endpoints survive.
   */
  function Induce(g: Graph, keep: set<string>): (h: Graph)
    ensures h.nodes == g.nodes * keep
    ensures InducedBy(h, g)
    ensures WellFormed(h)
  {
    var kept := g.nodes * keep;
    Graph(kept, set e | e in g.edges && e.0 in kept && e.1 in kept)
  }

  /** The edges ending at `n` (`G.in_degree(n)` counts them). */
  function EdgesInto(g: Graph, n: string): (es: set<Edge>)
    ensures es <= g.edges
  {
    set e | e in g.edges && e.1 == n
  }

  /** The edges starting at `n` (`G.out_degree(n)` counts them). */
  function EdgesOutOf(g: Graph, n: string): (es: set<Edge>)
    ensures es <= g.edges
  {
    set e | e in g.edges && e.0 == n
  }

  function InDegree(g: Graph, n: string): nat {
    |EdgesInto(g, n)|
  }

  function OutDegree(g: Graph, n: string): nat {
    |EdgesOutOf(g, n)|
  }

  /** Two induced subgraphs of the same graph on the same node set are the same graph. */
  lemma InducedUnique(h1: Graph, h2: Graph, g: Graph)
    requires InducedBy(h1, g) && InducedBy(h2, g)
    requires h1.nodes == h2.nodes
    ensures h1 == h2
  {
    assert h1.edges == h2.edges by {
      forall e | e in h1.edges ensures e in h2.edges {
        assert e in g.edges;
      }
      forall e | e in h2.edges ensures e in h1.edges {
        assert e in g.edges;
      }
    }
  }

  /** Restricting twice is restricting once to the intersection of the two node sets. */
  lemma InduceTwice(g: Graph, a: set<string>, b: set<string>)
    ensures Induce(Induce(g, a), b) == Induce(g, a * b)
  {
    var h1 := Induce(Induce(g, a), b);
    var h2 := Induce(g, a * b);
    assert InducedBy(h1, g);
    InducedUnique(h1, h2, g);
  }

  /** Restricting a well-formed graph to a superset of its nodes gives the graph back. */
  lemma InduceAll(g: Graph, keep: set<string>)
    requires WellFormed(g)
    requires g.nodes <= keep
    ensures Induce(g, keep) == g
  {
    var h := Induce(g, keep);
    assert InducedBy(g, g);
    InducedUnique(h, g, g);
  }

  /** Restricting again to a set that already holds every node changes nothing. */
  lemma InduceIdempotent(g: Graph, keep: set<string>)
    ensures Induce(Induce(g, keep), keep) == Induce(g, keep)
  {
    InduceAll(Induce(g, keep), keep);
  }

  /** Taking an induced subgraph keeps a star a star around the same hub. */
  lemma InducedStar(h: Graph, g: Graph, hub: string)
    requires InducedBy(h, g)
    requires Star(g, hub)
    ensures Star(h, hub)
  {
  }

  /** A subgraph of a subgraph is a subgraph; so is an induced subgraph of one. */
  lemma InducedTransitive(k: Graph, h: Graph, g: Graph)
    requires InducedBy(k, h) && InducedBy(h, g)
    ensures InducedBy(k, g)
  {
    forall e | e in g.edges
      ensures e in k.edges <==> e.0 in k.nodes && e.1 in k.nodes
    {
      if e.0 in k.nodes && e.1 in k.nodes {
        assert e in h.edges;
      }
    }
  }
}
