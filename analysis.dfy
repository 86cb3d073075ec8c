/** The preparation step of `analyze` in src/graph.py: unless aloof words
    are asked for, the graph is cut down to its nodes of degree above zero
    before any analysis runs. */
module Analysis {
  import opened Sequences
  import opened Graphs

  /** `no_aloof_nodes = [n for n, d in G.degree() if d > 0]` followed by
      `G.subgraph(no_aloof_nodes)`. The result keeps exactly the nodes of
      positive degree, in their order, with every one of their edges, so
      each keeps its degree; the graph it is taken from is not changed. */
  method ExcludeAloof(g: Graph) returns (h: Graph)
    requires g.Valid()
    ensures fresh(h) && h.Valid()
    ensures h.nodes == Filter(g.nodes, NonAloof(g.adj))
    ensures forall n :: n in h.nodes <==> n in g.adj && Degree(g.adj, n) > 0
    ensures forall n :: n in h.adj <==> n in g.adj && Degree(g.adj, n) > 0
    ensures forall n :: n in h.adj ==> h.adj[n] == g.adj[n] && Degree(h.adj, n) == Degree(g.adj, n) >= 1
    ensures h.isValidWord == map n | n in g.isValidWord && n in NonAloof(g.adj) :: g.isValidWord[n]
  {
    var keep := NonAloof(g.adj);
    h := g.Subgraph(keep);
    AloofFilterKeepsEdges(g.adj);
  }

  /** The `aloof` option of `analyze`: with it the loaded graph is analysed
      as it is, without it the aloof words are dropped first. */
  method PrepareForAnalysis(g: Graph, aloof: bool) returns (h: Graph)
    requires g.Valid()
    ensures h.Valid()
    ensures aloof ==> h == g
    ensures !aloof ==> fresh(h) && h.nodes == Filter(g.nodes, NonAloof(g.adj)) && h.adj == Induced(g.adj, NonAloof(g.adj))
    ensures !aloof ==> h.isValidWord == map n | n in g.isValidWord && n in NonAloof(g.adj) :: g.isValidWord[n]
    ensures forall n :: n in h.adj ==> h.adj[n] == g.adj[n]
  {
    if aloof {
      h := g;
    } else {
      h := g.Subgraph(NonAloof(g.adj));
      AloofFilterKeepsEdges(g.adj);
    }
  }
}
