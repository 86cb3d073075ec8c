/** What the two builders' graphs look like, stated over the adjacency
    functions their methods are proved to produce: which words are nodes,
    which pairs are edges, and how the valid-word graph sits inside the
    dense one. */
module Properties {
  import opened Sequences
  import opened Hamming
  import opened Universe
  import opened Graphs
  import opened Builder

  /** A word is a node of either builder's graph exactly when it has the
      requested length and only letters of the alphabet; a valid word of
      another length or with a foreign letter never becomes a node. */
  lemma NodesAreUniverse(alphabet: seq<char>, wordLength: nat, validWords: set<string>, w: string)
    ensures w in AppendNew([], Words(alphabet, wordLength)) <==> |w| == wordLength && Over(alphabet, w)
    ensures w in DenseAdjacency(alphabet, wordLength) <==> |w| == wordLength && Over(alphabet, w)
    ensures w in ValidAdjacency(alphabet, wordLength, validWords) <==> |w| == wordLength && Over(alphabet, w)
  {
    WordsMembership(alphabet, wordLength, w);
  }

  /** Over a duplicate-free alphabet `add_nodes_from` skips nothing: the
      node order is the universe order and there are |alphabet|^L nodes. */
  lemma DistinctAlphabetNodes(alphabet: seq<char>, wordLength: nat)
    requires NoDuplicates(alphabet)
    ensures AppendNew([], Words(alphabet, wordLength)) == Words(alphabet, wordLength)
    ensures |AppendNew([], Words(alphabet, wordLength))| == Pow(|alphabet|, wordLength)
  {
    var ws := Words(alphabet, wordLength);
    WordsDistinct(alphabet, wordLength);
    assert [] + ws == ws;
    AppendNewOfFresh([], ws);
  }

  /** After the pair loop of `build_graph`, {u, v} is an edge exactly when
      both are nodes one letter apart; the edge relation is symmetric and
      has no self-loop. */
  lemma DenseEdges(alphabet: seq<char>, wordLength: nat)
    ensures Symmetric(DenseAdjacency(alphabet, wordLength))
    ensures Loopless(DenseAdjacency(alphabet, wordLength))
    ensures forall u, v :: u in DenseAdjacency(alphabet, wordLength) ==>
      (v in DenseAdjacency(alphabet, wordLength)[u] <==> v in DenseAdjacency(alphabet, wordLength) && OneApart(u, v))
  {
    var adj := DenseAdjacency(alphabet, wordLength);
    forall u, v | u in adj && v in adj[u] ensures v in adj && u in adj[v] {
      OneApartSymmetricIrreflexive(u, v);
    }
    forall u | u in adj ensures u !in adj[u] {
      OneApartSymmetricIrreflexive(u, u);
    }
  }

  /** After the pair loop of `build`, {u, v} is an edge exactly when both
      are nodes, both valid words, and one letter apart: no edge touches an
      invalid word, the relation is symmetric and has no self-loop. */
  lemma ValidEdges(alphabet: seq<char>, wordLength: nat, validWords: set<string>)
    ensures Symmetric(ValidAdjacency(alphabet, wordLength, validWords))
    ensures Loopless(ValidAdjacency(alphabet, wordLength, validWords))
    ensures forall u, v :: u in ValidAdjacency(alphabet, wordLength, validWords) ==>
      (v in ValidAdjacency(alphabet, wordLength, validWords)[u] <==>
        && v in ValidAdjacency(alphabet, wordLength, validWords)
        && u in validWords && v in validWords && OneApart(u, v))
  {
    var adj := ValidAdjacency(alphabet, wordLength, validWords);
    forall u, v | u in adj && v in adj[u] ensures v in adj && u in adj[v] {
      OneApartSymmetricIrreflexive(u, v);
    }
    forall u | u in adj ensures u !in adj[u] {
      OneApartSymmetricIrreflexive(u, u);
    }
  }

  /** The graph `build` produces is the graph `build_graph` produces with
      the same nodes and only the edges between valid words kept. */
  lemma ValidWithinDense(alphabet: seq<char>, wordLength: nat, validWords: set<string>)
    ensures ValidAdjacency(alphabet, wordLength, validWords).Keys == DenseAdjacency(alphabet, wordLength).Keys
    ensures forall u :: u in ValidAdjacency(alphabet, wordLength, validWords) ==>
      ValidAdjacency(alphabet, wordLength, validWords)[u] ==
        if u in validWords then DenseAdjacency(alphabet, wordLength)[u] * validWords else {}
  {
    var va := ValidAdjacency(alphabet, wordLength, validWords);
    var da := DenseAdjacency(alphabet, wordLength);
    forall u | u in va
      ensures va[u] == if u in validWords then da[u] * validWords else {}
    {
      if u in validWords {
        assert va[u] == da[u] * validWords;
      }
    }
  }

  /** The tags of `build`: exactly the universe words are tagged, each with
      its membership in the valid words. */
  lemma TagsAreValidity(alphabet: seq<char>, wordLength: nat, validWords: set<string>, w: string)
    ensures w in ValidityTags(alphabet, wordLength, validWords) <==> |w| == wordLength && Over(alphabet, w)
    ensures w in ValidityTags(alphabet, wordLength, validWords) ==>
      (ValidityTags(alphabet, wordLength, validWords)[w] <==> w in validWords)
  {
    WordsMembership(alphabet, wordLength, w);
  }

  /** With no valid word inside the universe (an empty word file, or one
      whose words all have another length or foreign letters), `build`
      keeps every universe word as a node and adds no edge. */
  lemma NoValidWordsNoEdges(alphabet: seq<char>, wordLength: nat, validWords: set<string>)
    requires forall w :: w in validWords ==> !(|w| == wordLength && Over(alphabet, w))
    ensures ValidAdjacency(alphabet, wordLength, validWords).Keys == DenseAdjacency(alphabet, wordLength).Keys
    ensures forall u :: u in ValidAdjacency(alphabet, wordLength, validWords) ==>
      ValidAdjacency(alphabet, wordLength, validWords)[u] == {}
  {
    var adj := ValidAdjacency(alphabet, wordLength, validWords);
    forall u | u in adj ensures adj[u] == {} {
      WordsMembership(alphabet, wordLength, u);
    }
  }

  /** `word_length == 0`: the single empty word, and no edge. */
  lemma ZeroLength(alphabet: seq<char>, validWords: set<string>)
    ensures DenseAdjacency(alphabet, 0) == map["" := {}]
    ensures ValidAdjacency(alphabet, 0, validWords) == map["" := {}]
  {
    assert Words(alphabet, 0) == [""];
    OneApartSymmetricIrreflexive("", "");
    assert DenseAdjacency(alphabet, 0)[""] == {};
    assert ValidAdjacency(alphabet, 0, validWords)[""] == {};
  }

  /** A second pair loop over the valid nodes of a built graph joins only
      pairs that are already edges, so it changes no neighbour set:
      re-adding an edge is a no-op and building is idempotent. */
  lemma SecondPassChangesNothing(ws: seq<string>, validWords: set<string>, validNodes: seq<string>)
    requires forall u :: u in validNodes <==> u in ws && u in validWords
    ensures forall u :: u in ValidNeighbourMap(ws, validWords) ==>
      ValidNeighbourMap(ws, validWords)[u] + LadderNeighbours(validNodes, u) == ValidNeighbourMap(ws, validWords)[u]
  {
    var m := ValidNeighbourMap(ws, validWords);
    forall u | u in m ensures m[u] + LadderNeighbours(validNodes, u) == m[u] {
      forall v | v in LadderNeighbours(validNodes, u) ensures v in m[u] {
        assert u in validNodes && v in validNodes;
      }
    }
  }

  /** A small run of `build`: alphabet "abc", length 2, valid words
      {"aa", "ab", "bb", "zz", "abc"}. The nine universe words are nodes,
      "zz" and "abc" are not, the only edges are aa-ab and ab-bb, and the
      invalid word "ba" is aloof. */
  lemma SmallValidGraph(alphabet: seq<char>, valid: set<string>)
    requires alphabet == "abc" && valid == {"aa", "ab", "bb", "zz", "abc"}
    ensures |Words(alphabet, 2)| == 9
    ensures "zz" !in ValidAdjacency(alphabet, 2, valid)
    ensures "abc" !in ValidAdjacency(alphabet, 2, valid)
    ensures "aa" in ValidAdjacency(alphabet, 2, valid) && "ab" in ValidAdjacency(alphabet, 2, valid)
    ensures "bb" in ValidAdjacency(alphabet, 2, valid) && "ba" in ValidAdjacency(alphabet, 2, valid)
    ensures ValidAdjacency(alphabet, 2, valid)["ab"] == {"aa", "bb"}
    ensures ValidAdjacency(alphabet, 2, valid)["aa"] == {"ab"}
    ensures ValidAdjacency(alphabet, 2, valid)["bb"] == {"ab"}
    ensures ValidAdjacency(alphabet, 2, valid)["ba"] == {}
  {
    SmallValidNodes(alphabet, valid);
    SmallValidMiddle(alphabet, valid);
    SmallValidEnds(alphabet, valid);
  }

  /** Which of the scenario's words are nodes. */
  lemma SmallValidNodes(alphabet: seq<char>, valid: set<string>)
    requires alphabet == "abc" && valid == {"aa", "ab", "bb", "zz", "abc"}
    ensures "zz" !in ValidAdjacency(alphabet, 2, valid)
    ensures "abc" !in ValidAdjacency(alphabet, 2, valid)
    ensures "aa" in ValidAdjacency(alphabet, 2, valid) && "ab" in ValidAdjacency(alphabet, 2, valid)
    ensures "bb" in ValidAdjacency(alphabet, 2, valid) && "ba" in ValidAdjacency(alphabet, 2, valid)
  {
    NodesAreUniverse(alphabet, 2, valid, "zz");
    NodesAreUniverse(alphabet, 2, valid, "abc");
    NodesAreUniverse(alphabet, 2, valid, "ab");
    NodesAreUniverse(alphabet, 2, valid, "aa");
    NodesAreUniverse(alphabet, 2, valid, "bb");
    NodesAreUniverse(alphabet, 2, valid, "ba");
    assert !Over(alphabet, "zz") by { assert "zz"[0] !in alphabet; }
    assert Over(alphabet, "aa") && Over(alphabet, "ab") && Over(alphabet, "bb") && Over(alphabet, "ba");
  }

  /** The scenario's neighbour sets of "ab" and "ba". */
  lemma SmallValidMiddle(alphabet: seq<char>, valid: set<string>)
    requires alphabet == "abc" && valid == {"aa", "ab", "bb", "zz", "abc"}
    ensures "ab" in ValidAdjacency(alphabet, 2, valid)
    ensures ValidAdjacency(alphabet, 2, valid)["ab"] == {"aa", "bb"}
    ensures "ba" in ValidAdjacency(alphabet, 2, valid)
    ensures ValidAdjacency(alphabet, 2, valid)["ba"] == {}
  {
    var adj := ValidAdjacency(alphabet, 2, valid);
    SmallValidNodes(alphabet, valid);
    ValidEdges(alphabet, 2, valid);
    TwoLetterDistances();
    assert adj["ab"] == {"aa", "bb"} by {
      forall v | v in adj["ab"] ensures v == "aa" || v == "bb" {
        assert v in valid && v in adj;
        assert v != "zz" && v != "abc";
        assert v != "ab" by { OneApartSymmetricIrreflexive("ab", "ab"); }
        OneOfFive(valid, v);
      }
    }
  }

  /** The scenario's neighbour sets of "aa" and "bb". */
  lemma SmallValidEnds(alphabet: seq<char>, valid: set<string>)
    requires alphabet == "abc" && valid == {"aa", "ab", "bb", "zz", "abc"}
    ensures "aa" in ValidAdjacency(alphabet, 2, valid) && "bb" in ValidAdjacency(alphabet, 2, valid)
    ensures ValidAdjacency(alphabet, 2, valid)["aa"] == {"ab"}
    ensures ValidAdjacency(alphabet, 2, valid)["bb"] == {"ab"}
  {
    var adj := ValidAdjacency(alphabet, 2, valid);
    SmallValidNodes(alphabet, valid);
    ValidEdges(alphabet, 2, valid);
    TwoLetterDistances();
    OneApartSymmetricIrreflexive("ab", "aa");
    OneApartSymmetricIrreflexive("ab", "bb");
    OneApartSymmetricIrreflexive("aa", "bb");
    assert adj["aa"] == {"ab"} by {
      forall v | v in adj["aa"] ensures v == "ab" {
        assert v in valid && v in adj;
        assert v != "zz" && v != "abc";
        assert v != "aa" by { OneApartSymmetricIrreflexive("aa", "aa"); }
        OneOfFive(valid, v);
      }
    }
    assert adj["bb"] == {"ab"} by {
      forall v | v in adj["bb"] ensures v == "ab" {
        assert v in valid && v in adj;
        assert v != "zz" && v != "abc";
        assert v != "bb" by { OneApartSymmetricIrreflexive("bb", "bb"); }
        OneOfFive(valid, v);
      }
    }
  }

  /** The Hamming facts the scenario relies on: ab is one letter from aa
      and from bb, and aa is two letters from bb. */
  lemma TwoLetterDistances()
    ensures OneApart("ab", "aa") && OneApart("ab", "bb") && !OneApart("aa", "bb")
  {
    assert "ab" == ['a'] + "b" && "aa" == ['a'] + "a" && "bb" == ['b'] + "b";
    assert "b" == ['b'] + "" && "a" == ['a'] + "";
    MismatchesOfCons('b', "", 'a', "");
    MismatchesOfCons('a', "b", 'a', "a");
    MismatchesOfCons('b', "", 'b', "");
    MismatchesOfCons('a', "b", 'b', "b");
    MismatchesOfCons('a', "", 'b', "");
    MismatchesOfCons('a', "a", 'b', "b");
  }

  /** The case split the scenario needs over its valid words that are
      nodes. */
  lemma OneOfFive(valid: set<string>, v: string)
    requires valid == {"aa", "ab", "bb", "zz", "abc"}
    requires v in valid && v != "zz" && v != "abc"
    ensures v == "aa" || v == "ab" || v == "bb"
  {
  }
}
