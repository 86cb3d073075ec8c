# Word-ladder graphs, modelled in Dafny

The word-ladder project builds graphs whose nodes are all words of a fixed
length over an alphabet and whose edges join words that differ in exactly
one letter (Hamming distance 1). Two builders do this:

- `build_graph` (src/features.py) adds every word of the node universe and
  joins every pair of words one letter apart;
- `build` (src/graph.py) adds the same nodes, tags each with
  `is_valid_word` (membership in a word list), and joins only pairs of
  valid words one letter apart.

Before analysis, `analyze` (src/graph.py) drops the aloof words, the nodes
of degree zero, unless asked to keep them.

The model:

- `hamming.dfy`: the Hamming distance, with the length mismatch as an
  error value, and its algebra.
- `universe.dfy`: the node universe of `itertools.product` as a recursive
  sequence, with its membership, size, order and distinctness.
- `graphs.dfy`: the part of a networkx `Graph` the code uses, as a class
  with the node order, an adjacency map (an undirected edge {u, v} is `v`
  in the neighbours of `u` and `u` in those of `v`) and the
  `is_valid_word` attributes. The adjacency operations are specified by
  pure functions, and the aloof filter's main lemma is here too.
- `builder.dfy`: the two builders as methods. Their shared nested `i < j`
  pair loop is one method whose invariant says which index pairs have been
  joined so far. Each builder is proved to produce a given adjacency
  function of its inputs.
- `properties.dfy`: what those adjacency functions contain: nodes, edges,
  tags, the valid graph inside the dense one, the edge cases and a small
  worked example.
- `regularity.dfy`: in the dense graph over k different letters and
  length L, every node has degree L * (k - 1).
- `analysis.dfy`: the aloof filter of `analyze` as a method.
- `sequences.dfy`: sequence helpers, namely order-preserving filtering and
  the first-occurrence append that `add_nodes_from` performs.

## Model

| member | source | states |
|---|---|---|
| `Hamming.Distance` | src/graph.py:47-51 | An error exactly when the lengths differ. Otherwise a count at most the length, and 0 exactly when the words are equal. |
| `Hamming.Mismatches` | src/features.py:19 | The count of differing positions of equal-length words is at most the length and is 0 exactly for equal words. |
| `Hamming.DistanceCountsDiffPositions` | src/graph.py:51 | For equal lengths the distance is the number of indices i with a[i] != b[i]. |
| `Hamming.MismatchesCountsDiffPositions` | src/graph.py:51 | The count over a suffix from k is the number of differing indices from k on. |
| `Hamming.DistanceSymmetric` | src/features.py:15-19 | Distance(a, b) == Distance(b, a), including the error case. |
| `Hamming.MismatchesSymmetric` | src/features.py:19 | The differing-position count is symmetric. |
| `Hamming.OneApartSymmetricIrreflexive` | src/features.py:56 | "One letter apart" is symmetric and never holds of a word and itself. |
| `Hamming.MismatchesOfCons` | src/features.py:19 | The count for two words with a first letter in front adds 1 exactly when those letters differ. |
| `Sequences.AppendNew` | src/graph.py:125 | `add_nodes_from` order: the old nodes stay a prefix, the result holds exactly the old and the added words, and it stays duplicate-free. |
| `Sequences.AppendNewOfFresh` | src/features.py:49 | Adding words that are all new and distinct appends them as they are. |
| `Sequences.AppendNewOfKnown` | src/graph.py:136 | Adding words that are all already nodes leaves the node order unchanged. |
| `Sequences.Filter` | src/graph.py:170 | The kept elements are exactly those in the keep set, never more than the input, and without duplicates if the input has none. |
| `Sequences.DistinctElementsCard` | src/features.py:42 | A duplicate-free sequence has as many distinct elements as entries. |
| `Universe.Extend` | src/features.py:42 | One round of `itertools.product` gives |alphabet| * |ws| words. |
| `Universe.Words` | src/graph.py:113 | The universe has |alphabet|^n entries. |
| `Universe.ExtendMembership` | src/features.py:42 | A word is in a round exactly when its first letter is in the alphabet and its tail is in the previous round. |
| `Universe.WordsMembership` | src/graph.py:113 | A word is in the universe exactly when it has length n and only letters of the alphabet. |
| `Universe.WordsHaveLength` | src/features.py:42 | Every universe word has the requested length. |
| `Universe.Position` | src/graph.py:113 | The index of a letter in the alphabet is below the length exactly when the letter occurs, and it points at that letter. |
| `Universe.PositionOfLetter` | src/graph.py:110-113 | In a duplicate-free alphabet the k-th letter has position k. |
| `Universe.LexBeforeIrreflexive` | src/graph.py:113 | No word comes before itself in the alphabet-induced order. |
| `Universe.ExtendAscending` | src/graph.py:113 | Each round keeps the universe in lexicographic order by alphabet position. |
| `Universe.WordsAscending` | src/graph.py:110-113 | For a distinct alphabet the universe is strictly ascending in lexicographic order by alphabet position. |
| `Universe.WordsDistinct` | src/graph.py:110-113 | For a distinct alphabet the universe has no duplicates and holds |alphabet|^n different words. |
| `Universe.WordsEdgeCases` | src/features.py:42 | Length 0 gives the single empty word. An empty alphabet with a positive length gives no word. |
| `Graphs.Degree` | src/graph.py:170 | The networkx degree is 0 exactly for a node with no neighbour. Without self-loops it is the number of neighbours. |
| `Graphs.WithNode` | src/graph.py:125 | `add_node` adds the node with no neighbours if it is missing and changes no existing entry. |
| `Graphs.WithEdge` | src/graph.py:136 | `add_edge` makes both endpoints nodes. Afterwards y is a neighbour of x exactly when it was before or {x, y} is the new edge. |
| `Graphs.WithEdgeSymmetric` | src/graph.py:136 | Adding an edge keeps the graph undirected. |
| `Graphs.WithEdgeIdempotent` | src/graph.py:133-136 | Re-adding an existing edge leaves the adjacency equal. |
| `Graphs.Induced` | src/graph.py:171 | `subgraph` keeps only nodes of the graph that are in the keep set, all of them when the keep set lies inside the graph. A node's neighbours can only shrink, and a node none of whose neighbours is dropped keeps them all. An undirected graph gives an undirected subgraph whose edges stay among the kept nodes. |
| `Graphs.NonAloof` | src/graph.py:170 | `[n for n, d in G.degree() if d > 0]`, as a set: it holds only nodes of the graph, and exactly those that have a neighbour. |
| `Graphs.AloofFilterKeepsEdges` | src/graph.py:168-171 | The filtered graph keeps exactly the nodes of positive degree. Each keeps all its neighbours, so its degree is unchanged and at least 1. |
| `Graphs.Graph.constructor` | src/graph.py:124 | `nx.Graph()` is empty and well formed. |
| `Graphs.Graph.AddNode` | src/graph.py:125 | Adds a missing node at the end with no neighbours. A present node is left as it is. |
| `Graphs.Graph.AddNodesFrom` | src/graph.py:125 | Appends the new words in first-occurrence order. The nodes become the old ones plus the words, the new ones without neighbours and the old ones unchanged. |
| `Graphs.Graph.AddEdge` | src/graph.py:136 | The endpoints are appended if new, the adjacency becomes WithEdge of the old one, and the graph stays undirected. |
| `Graphs.Graph.SetValidWord` | src/graph.py:129 | Sets the `is_valid_word` tag of one node and changes nothing else. |
| `Graphs.Graph.ValidWordNodes` | src/graph.py:132 | A duplicate-free list of exactly the nodes tagged valid. |
| `Graphs.Graph.Subgraph` | src/graph.py:171 | A new graph with the kept nodes in their order, the induced adjacency and their tags. The original graph is unchanged. |
| `Builder.DoneStep` | src/features.py:56 | One inner-loop step adds the pair (i, j) to the joined pairs exactly when i < j and the words are one letter apart. |
| `Builder.DoneRow` | src/features.py:54-55 | Finishing row i is the same as starting row i + 1. |
| `Builder.DoneAll` | src/features.py:54-57 | After all rows, a pair is joined in one orientation exactly when both words are in the list and one letter apart. |
| `Builder.JoinedStep` | src/graph.py:136 | `add_edge` on two nodes extends the joined pairs by that pair. |
| `Builder.JoinedAll` | src/features.py:54-57 | Once every pair is processed, each node has gained exactly its one-letter neighbours in the list. |
| `Builder.ConnectOneApart` | src/features.py:54-57 | The pair loop keeps the nodes and tags. Each node's neighbours become the old ones plus the list words one letter away. |
| `Builder.ConnectRow` | src/graph.py:134-136 | The inner loop for row i joins exactly the pairs (i, j), j > i, one letter apart. |
| `Builder.ConnectPair` | src/features.py:56-57 | One loop body joins ws[i] and ws[j] exactly when i < j and their distance is 1. |
| `Builder.UniverseSameLength` | src/features.py:42 | All universe words have one length, so no Hamming call in the loop raises. |
| `Builder.BuildOver` | src/features.py:48-57 | A new graph whose nodes are the list in first-occurrence order and whose neighbour sets are the one-letter neighbours in the list. |
| `Builder.BuildDense` | src/features.py:37-57 | `build_graph`: nodes are the universe in order, the adjacency is the dense one-letter adjacency, and no tags are set. |
| `Builder.TagValidWords` | src/graph.py:128-129 | Every node is tagged with its membership in the valid words. Nodes and edges are unchanged. |
| `Builder.ValidPassAdjacency` | src/graph.py:132-136 | The pair loop over the valid nodes of an edgeless graph yields the valid-word adjacency. |
| `Builder.BuildValidOver` | src/graph.py:123-136 | A new graph with the list as nodes, each tagged with its validity, and edges only between valid words one letter apart. |
| `Builder.BuildValid` | src/graph.py:110-136 | `build`: nodes are the universe in order, tags are the validity of each universe word, and the adjacency is the valid-word one-letter adjacency. |
| `Properties.NodesAreUniverse` | src/graph.py:113-125 | A word is a node of either graph exactly when it has the requested length and only alphabet letters. A valid word outside the universe never becomes a node. |
| `Properties.DistinctAlphabetNodes` | src/features.py:42-49 | For a distinct alphabet the nodes are the universe itself, with |alphabet|^L entries. |
| `Properties.DenseEdges` | src/features.py:54-57 | In `build_graph`'s graph {u, v} is an edge exactly when both are nodes one letter apart. The relation is symmetric and has no self-loop. |
| `Properties.ValidEdges` | src/graph.py:132-136 | In `build`'s graph {u, v} is an edge exactly when both are nodes, both valid and one letter apart. No edge touches an invalid word, and there is no self-loop. |
| `Properties.ValidWithinDense` | src/graph.py:131-136 | `build`'s graph has the dense graph's nodes. A valid word's neighbours are its dense neighbours that are valid, and an invalid word has none. |
| `Properties.TagsAreValidity` | src/graph.py:125-129 | Exactly the universe words are tagged, each with its membership in the valid words. |
| `Properties.NoValidWordsNoEdges` | src/graph.py:125-136 | With no valid word in the universe, all universe words are nodes and none has a neighbour. |
| `Properties.ZeroLength` | src/features.py:42-57 | Length 0 gives the single node "" and no edge, in both builders. |
| `Properties.SecondPassChangesNothing` | src/graph.py:133-136 | A second pair loop over the valid nodes of a built graph adds only existing edges, so every neighbour set is unchanged. |
| `Properties.SmallValidGraph` | src/graph.py:110-136 | Alphabet "abc", length 2, valid words {aa, ab, bb, zz, abc}: 9 universe words, "zz" and "abc" are not nodes, and the only edges are aa-ab and ab-bb (ab's neighbours are {aa, bb}, aa's and bb's are {ab}, the invalid ba has none). |
| `Regularity.PrefixAllCard` | src/features.py:42 | Putting one letter in front of each word of a set keeps its size. |
| `Regularity.FrontsCard` | src/features.py:42 | Putting each letter of a set in front of one word gives one word per letter. |
| `Regularity.NeighboursOfCons` | src/features.py:42-57 | The one-letter neighbours of c + t are the words that change c and keep t, plus c followed by the neighbours of t. |
| `Regularity.ConsCount` | src/features.py:42-57 | c + t has k - 1 more neighbours than t, for k different letters in the alphabet. |
| `Regularity.NeighbourCount` | src/features.py:42-57 | Over an alphabet of k different letters a word of length L has exactly L * (k - 1) neighbours in the universe. |
| `Regularity.DenseDegree` | src/features.py:38-57 | Every node of `build_graph`'s graph has degree L * (k - 1), k the number of different letters (the alphabet's length when no letter repeats). |
| `Regularity.CubeDegrees` | src/features.py:42-57 | Alphabet "01" with length 3 is the 3-cube: 8 nodes, each of degree 3. |
| `Regularity.RepeatedLetterDegree` | src/features.py:38-57 | A repeated letter adds no neighbour: over "aab" every node of length L has degree L. |
| `Analysis.ExcludeAloof` | src/graph.py:168-171 | The new graph keeps exactly the nodes of positive degree, in order, with their `is_valid_word` tags. Each keeps all its neighbours and its degree, which is at least 1. The input graph is not changed. |
| `Analysis.PrepareForAnalysis` | src/graph.py:168-176 | With `aloof` the graph is analysed as loaded. Without it, the aloof-filtered subgraph is used, with the kept nodes' tags, and every remaining node keeps its neighbours. |

## Left out

- Reading and writing graphs with pickle (`save_graph`, `load_graph`, the
  dump in `build_graph`) is file I/O. The builders return the graph they
  would save.
- Reading the word file in `build` is file I/O. The valid words are a
  parameter, the set of its lines.
- `find_betweenness_centrality`, `find_community` and `find_diameter` wrap
  networkx algorithms whose code is not part of this model. Betweenness
  works in floating point and Louvain is randomised.
- src/plots.py (rendering and layouts), src/dataset.py (corpus download
  and a filter relying on Python's Unicode `str.islower`), the `main`
  placeholder commands, logging, progress bars and the command-line wiring
  are not part of this model.
- `Builder.ConnectOneApart` requires all words to have one length. A
  mismatch would make the Hamming call raise a ValueError part-way through
  the loop. Both builders only pass universe words, which all have one
  length (`Builder.UniverseSameLength`), so that path is never taken.
- A negative `word_length` makes `itertools.product` raise a ValueError.
  The model takes the length as a natural number.
- `Graphs.Graph.Subgraph` returns a copy with the kept nodes in the
  original order. networkx returns a read-only view sharing the original
  data, and its node order can follow the kept node set instead. No
  property here depends on that order.
- The graph keeps edges as a symmetric neighbour map, as networkx does,
  rather than as a set of unordered pairs. `Symmetric` makes the two
  views the same.
- Characters are Dafny `char`s, compared by equality, as Python compares
  code points. No Unicode normalisation is involved.
