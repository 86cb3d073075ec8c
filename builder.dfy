/** The two word-ladder graph builders: `build_graph` in src/features.py
    (every word of the node universe, all one-letter pairs joined) and
    `build` in src/graph.py (every word of the node universe tagged with
    `is_valid_word`, only pairs of valid words joined). Both run the same
    nested `i < j` pair loop, modelled once as ConnectOneApart. */
module Builder {
  import opened Sequences
  import opened Hamming
  import opened Universe
  import opened Graphs

  /** The words of ws one letter away from u, for a u that is in ws. */
  function LadderNeighbours(ws: seq<string>, u: string): set<string> {
    if u in ws then set v | v in ws && OneApart(u, v) else {}
  }

  /** The pairs the loop over ws has joined once it has reached row i,
      column j: index pairs a < b before (i, j), one letter apart. */
  ghost function Done(ws: seq<string>, i: int, j: int): set<(string, string)> {
    set a, b | 0 <= a < b < |ws| && (a < i || (a == i && b < j)) && OneApart(ws[a], ws[b])
      :: (ws[a], ws[b])
  }

  /** One step of the inner loop joins at most the pair (i, j). */
  lemma DoneStep(ws: seq<string>, i: int, j: int)
    requires 0 <= i < |ws| && 0 <= j < |ws|
    ensures i < j && OneApart(ws[i], ws[j]) ==> Done(ws, i, j + 1) == Done(ws, i, j) + {(ws[i], ws[j])}
    ensures !(i < j && OneApart(ws[i], ws[j])) ==> Done(ws, i, j + 1) == Done(ws, i, j)
  {
    var extra := if i < j && OneApart(ws[i], ws[j]) then {(ws[i], ws[j])} else {};
    forall p | p in Done(ws, i, j + 1) ensures p in Done(ws, i, j) + extra {
      var a, b :| 0 <= a < b < |ws| && (a < i || (a == i && b < j + 1))
        && OneApart(ws[a], ws[b]) && p == (ws[a], ws[b]);
      if !(a == i && b == j) {
        assert p in Done(ws, i, j);
      }
    }
    forall p | p in Done(ws, i, j) + extra ensures p in Done(ws, i, j + 1) {
      if p in Done(ws, i, j) {
        var a, b :| 0 <= a < b < |ws| && (a < i || (a == i && b < j))
          && OneApart(ws[a], ws[b]) && p == (ws[a], ws[b]);
        assert (a < i || (a == i && b < j + 1));
      } else {
        assert p == (ws[i], ws[j]);
      }
    }
  }

  /** Finishing row i is starting row i + 1. */
  lemma DoneRow(ws: seq<string>, i: int)
    ensures Done(ws, i, |ws|) == Done(ws, i + 1, 0)
  {
    forall p | p in Done(ws, i + 1, 0) ensures p in Done(ws, i, |ws|) {
      var a, b :| 0 <= a < b < |ws| && a < i + 1 && OneApart(ws[a], ws[b]) && p == (ws[a], ws[b]);
      assert a < i || (a == i && b < |ws|);
    }
  }

  /** After all rows, a pair is joined, in one orientation or the other,
      exactly when both words are in ws and one letter apart. */
  lemma DoneAll(ws: seq<string>, u: string, v: string)
    ensures (u, v) in Done(ws, |ws|, 0) || (v, u) in Done(ws, |ws|, 0)
      <==> u in ws && v in ws && OneApart(u, v)
  {
    var d := Done(ws, |ws|, 0);
    OneApartSymmetricIrreflexive(u, v);
    if (u, v) in d {
      var a, b :| 0 <= a < b < |ws| && OneApart(ws[a], ws[b]) && (u, v) == (ws[a], ws[b]);
    }
    if (v, u) in d {
      var a, b :| 0 <= a < b < |ws| && OneApart(ws[a], ws[b]) && (v, u) == (ws[a], ws[b]);
    }
    if u in ws && v in ws && OneApart(u, v) {
      var a :| 0 <= a < |ws| && ws[a] == u;
      var b :| 0 <= b < |ws| && ws[b] == v;
      assert a != b;
      if a < b {
        assert (ws[a], ws[b]) in d;
      } else {
        assert (ws[b], ws[a]) in d;
      }
    }
  }

  /** adj is adj0 with the pairs of d joined, in both directions. */
  ghost predicate Joined(adj: Adjacency, adj0: Adjacency, d: set<(string, string)>) {
    && adj.Keys == adj0.Keys
    && forall u, v :: u in adj ==> (v in adj[u] <==> v in adj0[u] || (u, v) in d || (v, u) in d)
  }

  /** Joining one more pair is `add_edge` on two existing nodes. */
  lemma JoinedStep(adj: Adjacency, adj0: Adjacency, d: set<(string, string)>, u: string, v: string)
    requires Joined(adj, adj0, d) && u in adj && v in adj
    ensures WithEdge(adj, u, v).Keys == adj.Keys
    ensures Joined(WithEdge(adj, u, v), adj0, d + {(u, v)})
  {
  }

  /** Once every pair is done, each node has gained its neighbours in ws. */
  lemma JoinedAll(adj: Adjacency, adj0: Adjacency, ws: seq<string>)
    requires Joined(adj, adj0, Done(ws, |ws|, 0))
    ensures forall u :: u in adj ==> adj[u] == adj0[u] + LadderNeighbours(ws, u)
  {
    forall u | u in adj ensures adj[u] == adj0[u] + LadderNeighbours(ws, u) {
      forall v ensures v in adj[u] <==> v in adj0[u] + LadderNeighbours(ws, u) {
        DoneAll(ws, u, v);
      }
    }
  }

  /** The pair loop
        for i, n1 in enumerate(ws):
          for j, n2 in enumerate(ws):
            if i < j and hamming(n1, n2) == 1: G.add_edge(n1, n2)
      over words that are already nodes. Every word must have the same
      length, or the Hamming call raises a ValueError; both builders only
      pass words of the node universe. Afterwards each node has gained
      exactly its one-letter neighbours among ws. */
  method ConnectOneApart(g: Graph, ws: seq<string>)
    requires g.Valid()
    requires forall w :: w in ws ==> w in g.adj
    requires SameLength(ws)
    modifies g
    ensures g.Valid()
    ensures g.nodes == old(g.nodes) && g.isValidWord == old(g.isValidWord)
    ensures g.adj.Keys == old(g.adj).Keys
    ensures forall u :: u in g.adj ==> g.adj[u] == old(g.adj)[u] + LadderNeighbours(ws, u)
  {
    ghost var adj0 := g.adj;
    assert Done(ws, 0, 0) == {};
    for i := 0 to |ws|
      invariant g.Valid()
      invariant g.nodes == old(g.nodes) && g.isValidWord == old(g.isValidWord)
      invariant Joined(g.adj, adj0, Done(ws, i, 0))
    {
      ConnectRow(g, ws, i, adj0);
      DoneRow(ws, i);
    }
    JoinedAll(g.adj, adj0, ws);
  }

  /** The inner loop of the pair loop, for row i: joins ws[i] to each later
      word of ws one letter away. */
  method ConnectRow(g: Graph, ws: seq<string>, i: nat, ghost adj0: Adjacency)
    requires g.Valid() && i < |ws|
    requires forall w :: w in ws ==> w in g.adj
    requires SameLength(ws)
    requires Joined(g.adj, adj0, Done(ws, i, 0))
    modifies g
    ensures g.Valid()
    ensures g.nodes == old(g.nodes) && g.isValidWord == old(g.isValidWord)
    ensures Joined(g.adj, adj0, Done(ws, i, |ws|))
  {
    for j := 0 to |ws|
      invariant g.Valid()
      invariant g.nodes == old(g.nodes) && g.isValidWord == old(g.isValidWord)
      invariant Joined(g.adj, adj0, Done(ws, i, j))
    {
      ConnectPair(g, ws, i, j, adj0);
    }
  }

  /** One pass of the inner loop body: `if i < j and hamming(n1, n2) == 1:
      G.add_edge(n1, n2)`. */
  method ConnectPair(g: Graph, ws: seq<string>, i: nat, j: nat, ghost adj0: Adjacency)
    requires g.Valid() && i < |ws| && j < |ws|
    requires forall w :: w in ws ==> w in g.adj
    requires SameLength(ws)
    requires Joined(g.adj, adj0, Done(ws, i, j))
    modifies g
    ensures g.Valid()
    ensures g.nodes == old(g.nodes) && g.isValidWord == old(g.isValidWord)
    ensures Joined(g.adj, adj0, Done(ws, i, j + 1))
  {
    DoneStep(ws, i, j);
    ghost var before := Done(ws, i, j);
    ghost var after := Done(ws, i, j + 1);
    if i < j {
      var d := Distance(ws[i], ws[j]);
      if d == Ok(1) {
        assert after == before + {(ws[i], ws[j])};
        JoinedStep(g.adj, adj0, before, ws[i], ws[j]);
        AppendNewOfKnown(g.nodes, [ws[i], ws[j]]);
        g.AddEdge(ws[i], ws[j]);
      } else {
        assert after == before;
      }
    } else {
      assert after == before;
    }
  }

  /** The adjacency `build_graph` produces: every word of the universe,
      joined to the words of the universe one letter away. */
  function DenseAdjacency(alphabet: seq<char>, wordLength: nat): Adjacency {
    NeighbourMap(Words(alphabet, wordLength))
  }

  /** Every word of ws, mapped to its one-letter neighbours in ws. */
  function NeighbourMap(ws: seq<string>): Adjacency {
    map u | u in ws :: LadderNeighbours(ws, u)
  }

  /** The adjacency `build` produces: every word of the universe, and
      edges only between valid words one letter apart. */
  function ValidAdjacency(alphabet: seq<char>, wordLength: nat, validWords: set<string>): Adjacency {
    ValidNeighbourMap(Words(alphabet, wordLength), validWords)
  }

  /** Every word of ws, mapped to its one-letter neighbours in ws when it
      is a valid word and both are valid, to nothing otherwise. */
  function ValidNeighbourMap(ws: seq<string>, validWords: set<string>): Adjacency {
    map u | u in ws :: if u in validWords then set v | v in ws && v in validWords && OneApart(u, v) else {}
  }

  /** The `is_valid_word` tags `build` assigns: one per universe word. */
  function ValidityTags(alphabet: seq<char>, wordLength: nat, validWords: set<string>): map<string, bool> {
    TagMap(Words(alphabet, wordLength), validWords)
  }

  function TagMap(ws: seq<string>, validWords: set<string>): map<string, bool> {
    map u | u in ws :: u in validWords
  }

  /** All words of ws have one length, so no Hamming call on them fails. */
  predicate SameLength(ws: seq<string>) {
    forall a, b :: 0 <= a < |ws| && 0 <= b < |ws| ==> |ws[a]| == |ws[b]|
  }

  /** Every word of the node universe has the same length. */
  lemma UniverseSameLength(alphabet: seq<char>, wordLength: nat)
    ensures SameLength(Words(alphabet, wordLength))
  {
    var ws := Words(alphabet, wordLength);
    WordsHaveLength(alphabet, wordLength);
    assert forall a :: 0 <= a < |ws| ==> ws[a] in ws;
  }

  /** Words of one dense pass over ws: the generic half of BuildDense. */
  method BuildOver(ws: seq<string>) returns (g: Graph)
    requires SameLength(ws)
    ensures fresh(g) && g.Valid()
    ensures g.nodes == AppendNew([], ws)
    ensures g.adj == NeighbourMap(ws)
    ensures g.isValidWord == map[]
  {
    g := new Graph();
    g.AddNodesFrom(ws);
    ConnectOneApart(g, ws);
    assert g.adj.Keys == NeighbourMap(ws).Keys;
    forall u | u in g.adj ensures g.adj[u] == NeighbourMap(ws)[u] {
    }
  }

  /** `build_graph(word_length, alphabet)` of src/features.py, without the
      pickle dump. */
  method BuildDense(alphabet: seq<char>, wordLength: nat) returns (g: Graph)
    ensures fresh(g) && g.Valid()
    ensures g.nodes == AppendNew([], Words(alphabet, wordLength))
    ensures g.adj == DenseAdjacency(alphabet, wordLength)
    ensures g.isValidWord == map[]
  {
    var nodes := Words(alphabet, wordLength);
    UniverseSameLength(alphabet, wordLength);
    g := BuildOver(nodes);
  }

  /** The tagging loop of `build`:
        for node in G.nodes(): G.nodes[node]["is_valid_word"] = node in valid_words
      Every node is tagged with its membership in validWords. */
  method TagValidWords(g: Graph, validWords: set<string>)
    requires g.Valid()
    modifies g
    ensures g.Valid()
    ensures g.nodes == old(g.nodes) && g.adj == old(g.adj)
    ensures g.isValidWord == TagMap(g.nodes, validWords)
  {
    var order := g.nodes;
    for k := 0 to |order|
      invariant g.Valid()
      invariant g.nodes == order && g.adj == old(g.adj)
      invariant forall u :: u in g.isValidWord <==> u in order[..k] || u in old(g.isValidWord)
      invariant forall u :: u in order[..k] ==> g.isValidWord[u] == (u in validWords)
    {
      assert order[..k + 1] == order[..k] + [order[k]];
      g.SetValidWord(order[k], order[k] in validWords);
    }
    assert order[..|order|] == order;
  }

  /** The neighbour sets the pair loop leaves when it runs over the valid
      words of ws on a graph whose nodes are ws and which has no edge yet. */
  lemma ValidPassAdjacency(adj: Adjacency, ws: seq<string>, validWords: set<string>, validNodes: seq<string>)
    requires forall u :: u in adj <==> u in ws
    requires forall u :: u in validNodes <==> u in ws && u in validWords
    requires forall u :: u in adj ==> adj[u] == {} + LadderNeighbours(validNodes, u)
    ensures adj == ValidNeighbourMap(ws, validWords)
  {
    var m := ValidNeighbourMap(ws, validWords);
    assert adj.Keys == m.Keys;
    forall u | u in adj ensures adj[u] == m[u] {
      forall v ensures v in adj[u] <==> v in m[u] {
        if v in validNodes { assert v in ws; }
      }
    }
  }

  /** Words of one valid-word pass over ws: the generic half of BuildValid. */
  method BuildValidOver(ws: seq<string>, validWords: set<string>) returns (g: Graph)
    requires SameLength(ws)
    ensures fresh(g) && g.Valid()
    ensures g.nodes == AppendNew([], ws)
    ensures g.adj == ValidNeighbourMap(ws, validWords)
    ensures g.isValidWord == TagMap(ws, validWords)
  {
    g := new Graph();
    g.AddNodesFrom(ws);
    TagValidWords(g, validWords);
    assert TagMap(g.nodes, validWords) == TagMap(ws, validWords);

    var validNodes := g.ValidWordNodes();
    assert SameLength(validNodes) by {
      forall a | 0 <= a < |validNodes| ensures exists k :: 0 <= k < |ws| && ws[k] == validNodes[a] {
        assert validNodes[a] in ws;
      }
    }
    ConnectOneApart(g, validNodes);
    ValidPassAdjacency(g.adj, ws, validWords, validNodes);
  }

  /** `build(word_length, alphabet)` of src/graph.py, with the word file
      already read into `validWords` and without the pickle dump. */
  method BuildValid(alphabet: seq<char>, wordLength: nat, validWords: set<string>) returns (g: Graph)
    ensures fresh(g) && g.Valid()
    ensures g.nodes == AppendNew([], Words(alphabet, wordLength))
    ensures g.adj == ValidAdjacency(alphabet, wordLength, validWords)
    ensures g.isValidWord == ValidityTags(alphabet, wordLength, validWords)
  {
    var nodes := Words(alphabet, wordLength);
    UniverseSameLength(alphabet, wordLength);
    g := BuildValidOver(nodes, validWords);
  }
}
