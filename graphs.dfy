/** The part of an undirected networkx `Graph` the word-ladder code relies
    on: nodes kept in insertion order, an adjacency map from each node to
    its neighbours, and the `is_valid_word` node attribute. */
module Graphs {
  import opened Sequences

  /** Node to neighbour set, as networkx keeps its `_adj` dictionary. */
  type Adjacency = map<string, set<string>>

  /** Undirected: each neighbour is a node that lists the edge back. */
  ghost predicate Symmetric(adj: Adjacency) {
    forall u, v :: u in adj && v in adj[u] ==> v in adj && u in adj[v]
  }

  /** No node is its own neighbour. */
  ghost predicate Loopless(adj: Adjacency) {
    forall u :: u in adj ==> u !in adj[u]
  }

  /** The degree networkx reports: one per neighbour, a self-loop twice. */
  function Degree(adj: Adjacency, n: string): (d: nat)
    requires n in adj
    ensures d == 0 <==> adj[n] == {}
    ensures Loopless(adj) ==> d == |adj[n]|
  {
    |adj[n]| + (if n in adj[n] then 1 else 0)
  }

  /** `add_node`: a missing node starts without neighbours; a present one
      is left as it is. */
  function WithNode(adj: Adjacency, n: string): (r: Adjacency)
    ensures r.Keys == adj.Keys + {n}
    ensures forall x :: x in adj ==> r[x] == adj[x]
    ensures n !in adj ==> r[n] == {}
  {
    if n in adj then adj else adj[n := {}]
  }

  /** `add_edge`: adds any missing endpoint, then records u and v as
      neighbours of each other. */
  function WithEdge(adj: Adjacency, u: string, v: string): (r: Adjacency)
    ensures r.Keys == adj.Keys + {u, v}
    ensures forall x, y :: x in r ==>
      (y in r[x] <==> (x in adj && y in adj[x]) || (x == u && y == v) || (x == v && y == u))
  {
    var a := WithNode(WithNode(adj, u), v);
    var b := a[u := a[u] + {v}];
    b[v := b[v] + {u}]
  }

  /** Adding an edge keeps the adjacency undirected. */
  lemma WithEdgeSymmetric(adj: Adjacency, u: string, v: string)
    requires Symmetric(adj)
    ensures Symmetric(WithEdge(adj, u, v))
  {
  }

  /** Adding an edge that is already there changes nothing: no parallel
      edges, `add_edge` is idempotent. */
  lemma WithEdgeIdempotent(adj: Adjacency, u: string, v: string)
    requires Symmetric(adj)
    requires u in adj && v in adj[u]
    ensures WithEdge(adj, u, v) == adj
  {
    var r := WithEdge(adj, u, v);
    forall x | x in r ensures r[x] == adj[x] {
      assert forall y :: y in r[x] <==> y in adj[x];
    }
  }

  /** `subgraph(keep)`: the nodes in keep, with the edges between them.
      Of an undirected graph it is an undirected graph whose edges all lie
      among the kept nodes; a kept node none of whose neighbours is dropped
      keeps all its edges. */
  function Induced(adj: Adjacency, keep: set<string>): (r: Adjacency)
    ensures forall x :: x in r ==> x in adj && x in keep && r[x] <= adj[x]
    ensures keep <= adj.Keys ==> r.Keys == keep
    ensures forall x :: x in r && adj[x] <= keep ==> r[x] == adj[x]
    ensures Symmetric(adj) ==> Symmetric(r) && forall x :: x in r ==> r[x] <= r.Keys
  {
    map n | n in adj && n in keep :: adj[n] * keep
  }

  /** The nodes with degree above zero, the non-aloof nodes: exactly the
      nodes that have a neighbour. */
  function NonAloof(adj: Adjacency): (keep: set<string>)
    ensures keep <= adj.Keys
    ensures forall n :: n in keep <==> n in adj && adj[n] != {}
  {
    set n | n in adj && Degree(adj, n) > 0
  }

  /** Dropping the aloof nodes loses no edge: every remaining node keeps
      all its neighbours, so its degree is unchanged and at least one. */
  lemma {:induction false} AloofFilterKeepsEdges(adj: Adjacency)
    requires Symmetric(adj)
    ensures var h := Induced(adj, NonAloof(adj));
      && (forall n :: n in h <==> n in adj && Degree(adj, n) > 0)
      && (forall n :: n in h ==> h[n] == adj[n] && Degree(h, n) == Degree(adj, n) >= 1)
  {
    var keep := NonAloof(adj);
    var h := Induced(adj, keep);
    forall n | n in h ensures h[n] == adj[n] && Degree(h, n) == Degree(adj, n) >= 1 {
      assert n in keep;
      forall v | v in adj[n] ensures v in keep {
        assert n in adj[v];
        assert adj[v] != {};
      }
      assert h[n] == adj[n] * keep;
    }
  }

  class Graph {
    /** The node keys in insertion order. */
    var nodes: seq<string>
    var adj: Adjacency
    /** The `is_valid_word` attribute of the nodes that carry it. */
    var isValidWord: map<string, bool>

    ghost predicate Valid()
      reads this
    {
      && NoDuplicates(nodes)
      && (forall n :: n in adj <==> n in nodes)
      && Symmetric(adj)
      && isValidWord.Keys <= adj.Keys
    }

    /** `nx.Graph()`: the empty graph. */
    constructor ()
      ensures Valid()
      ensures nodes == [] && adj == map[] && isValidWord == map[]
    {
      nodes := [];
      adj := map[];
      isValidWord := map[];
    }

    method AddNode(n: string)
      requires Valid()
      modifies this
      ensures Valid()
      ensures nodes == AppendNew(old(nodes), [n])
      ensures adj == WithNode(old(adj), n)
      ensures isValidWord == old(isValidWord)
    {
      if n !in adj {
        nodes := nodes + [n];
        adj := adj[n := {}];
      }
      assert [n][..0] == [];
    }

    /** `add_nodes_from(ns)`: the new nodes are appended in first-occurrence
        order, repeated and known ones are skipped, no edge changes. */
    method AddNodesFrom(ns: seq<string>)
      requires Valid()
      modifies this
      ensures Valid()
      ensures nodes == AppendNew(old(nodes), ns)
      ensures forall n :: n in adj <==> n in old(adj) || n in ns
      ensures forall n :: n in old(adj) ==> adj[n] == old(adj)[n]
      ensures forall n :: n in adj && n !in old(adj) ==> adj[n] == {}
      ensures isValidWord == old(isValidWord)
    {
      for k := 0 to |ns|
        invariant Valid()
        invariant nodes == AppendNew(old(nodes), ns[..k])
        invariant forall n :: n in old(adj) ==> adj[n] == old(adj)[n]
        invariant forall n :: n in adj && n !in old(adj) ==> adj[n] == {}
        invariant isValidWord == old(isValidWord)
      {
        assert ns[..k + 1][..k] == ns[..k] && ns[..k + 1] == ns[..k] + [ns[k]];
        AddNode(ns[k]);
      }
      assert ns[..|ns|] == ns;
    }

    /** `add_edge(u, v)`: the endpoints become nodes if they are not yet,
        and u and v become neighbours of each other. */
    method AddEdge(u: string, v: string)
      requires Valid()
      modifies this
      ensures Valid()
      ensures nodes == AppendNew(old(nodes), [u, v])
      ensures adj == WithEdge(old(adj), u, v)
      ensures isValidWord == old(isValidWord)
    {
      WithEdgeSymmetric(adj, u, v);
      nodes := AppendNew(nodes, [u, v]);
      adj := WithEdge(adj, u, v);
    }

    /** `G.nodes[n]["is_valid_word"] = b`; a KeyError for a non-node. */
    method SetValidWord(n: string, b: bool)
      requires Valid() && n in adj
      modifies this
      ensures Valid()
      ensures nodes == old(nodes) && adj == old(adj)
      ensures isValidWord == old(isValidWord)[n := b]
    {
      isValidWord := isValidWord[n := b];
    }

    /** `[n for n in G.nodes() if G.nodes[n]["is_valid_word"]]`; every node
        must carry the attribute, or the comprehension raises a KeyError. */
    function ValidWordNodes(): (r: seq<string>)
      reads this
      requires Valid()
      requires forall n :: n in adj ==> n in isValidWord
      ensures NoDuplicates(r)
      ensures forall n :: n in r <==> n in adj && isValidWord[n]
    {
      Filter(nodes, set n | n in isValidWord && isValidWord[n])
    }

    /** `G.subgraph(keep)`, taken as a copy: the kept nodes in their order,
        the edges among them and their attributes. The graph itself is not
        changed. */
    method Subgraph(keep: set<string>) returns (h: Graph)
      requires Valid()
      ensures fresh(h) && h.Valid()
      ensures h.nodes == Filter(nodes, keep)
      ensures h.adj == Induced(adj, keep)
      ensures h.isValidWord == map n | n in isValidWord && n in keep :: isValidWord[n]
    {
      var order := Filter(nodes, keep);
      var sub := Induced(adj, keep);
      var tags := map n | n in isValidWord && n in keep :: isValidWord[n];
      assert forall n :: n in sub <==> n in order;
      assert tags.Keys <= sub.Keys;
      h := new Graph();
      h.nodes, h.adj, h.isValidWord := order, sub, tags;
    }
  }
}
