/** Degree regularity of the dense word graph that `build_graph` in
    src/features.py produces: over an alphabet of k distinct letters and
    words of length L, every node has L * (k - 1) neighbours, one for each
    position and each other letter that can go there. */
module Regularity {
  import opened Sequences
  import opened Hamming
  import opened Universe
  import opened Graphs
  import opened Builder

  /** The letters of the alphabet, as a set. */
  function Letters(alphabet: seq<char>): set<char> {
    set y | y in alphabet
  }

  /** Each word of s with the letter c in front. */
  function PrefixAll(c: char, s: set<string>): set<string> {
    set v | v in s :: [c] + v
  }

  /** The word t with each letter of s in front. */
  function Fronts(s: set<char>, t: string): set<string> {
    set x | x in s :: [x] + t
  }

  /** Putting one letter in front of every word of a set keeps its size. */
  lemma {:induction false} PrefixAllCard(c: char, s: set<string>)
    ensures |PrefixAll(c, s)| == |s|
    decreases |s|
  {
    if s != {} {
      var x :| x in s;
      var rest := s - {x};
      PrefixAllCard(c, rest);
      assert PrefixAll(c, s) == PrefixAll(c, rest) + {[c] + x} by {
        forall y | y in PrefixAll(c, s) ensures y in PrefixAll(c, rest) + {[c] + x} {
          var v :| v in s && y == [c] + v;
          if v != x { assert v in rest; }
        }
      }
      assert [c] + x !in PrefixAll(c, rest) by {
        forall v | v in rest ensures [c] + v != [c] + x {
          assert ([c] + v)[1..] == v && ([c] + x)[1..] == x;
        }
      }
    }
  }

  /** Putting each letter of a set in front of one word gives as many words
      as there are letters. */
  lemma {:induction false} FrontsCard(s: set<char>, t: string)
    ensures |Fronts(s, t)| == |s|
    decreases |s|
  {
    if s != {} {
      var x :| x in s;
      var rest := s - {x};
      FrontsCard(rest, t);
      assert Fronts(s, t) == Fronts(rest, t) + {[x] + t} by {
        forall w | w in Fronts(s, t) ensures w in Fronts(rest, t) + {[x] + t} {
          var y :| y in s && w == [y] + t;
          if y != x { assert y in rest; }
        }
      }
      assert [x] + t !in Fronts(rest, t) by {
        forall y | y in rest ensures [y] + t != [x] + t {
          assert ([y] + t)[0] == y && ([x] + t)[0] == x;
        }
      }
    }
  }

  /** The neighbours of w in the dense graph over the universe of its
      length. */
  function Neighbours(alphabet: seq<char>, w: string): set<string> {
    LadderNeighbours(Words(alphabet, |w|), w)
  }

  /** A neighbour of [c] + t either changes the first letter and keeps t,
      or keeps c and is a neighbour of t. */
  lemma NeighboursOfCons(alphabet: seq<char>, w: string)
    requires |w| > 0 && Over(alphabet, w)
    ensures Neighbours(alphabet, w) ==
      Fronts(Letters(alphabet) - {w[0]}, w[1..]) + PrefixAll(w[0], Neighbours(alphabet, w[1..]))
  {
    var c, t := w[0], w[1..];
    var tails := Words(alphabet, |t|);
    var others := Letters(alphabet) - {c};
    var left := Fronts(others, t);
    var right := PrefixAll(c, Neighbours(alphabet, t));
    assert Words(alphabet, |w|) == Extend(alphabet, tails);
    assert w == [c] + t;
    assert Over(alphabet, t) by {
      forall i | 0 <= i < |t| ensures t[i] in alphabet { assert t[i] == w[i + 1]; }
    }
    WordsMembership(alphabet, |t|, t);
    WordsMembership(alphabet, |w|, w);

    forall v | v in Neighbours(alphabet, w) ensures v in left + right {
      ExtendMembership(alphabet, tails, v);
      WordsMembership(alphabet, |t|, v[1..]);
      assert v == [v[0]] + v[1..];
      MismatchesOfCons(c, t, v[0], v[1..]);
      if c != v[0] {
        assert v[0] in others;
      } else {
        assert v[1..] in Neighbours(alphabet, t);
      }
    }
    forall v | v in left ensures v in Neighbours(alphabet, w) {
      var x :| x in others && v == [x] + t;
      assert v[0] == x && v[1..] == t;
      ExtendMembership(alphabet, tails, v);
      MismatchesOfCons(c, t, x, t);
    }
    forall v | v in right ensures v in Neighbours(alphabet, w) {
      var u :| u in Neighbours(alphabet, t) && v == [c] + u;
      assert v[0] == c && v[1..] == u;
      ExtendMembership(alphabet, tails, v);
      WordsMembership(alphabet, |t|, u);
      MismatchesOfCons(c, t, c, u);
    }
  }

  /** A word of length L over an alphabet of k different letters has
      exactly L * (k - 1) neighbours in the node universe. */
  lemma {:induction false} NeighbourCount(alphabet: seq<char>, w: string)
    requires Over(alphabet, w)
    ensures |Neighbours(alphabet, w)| == |w| * (|Letters(alphabet)| - 1)
    decreases |w|
  {
    if |w| == 0 {
      assert Words(alphabet, 0) == [[]];
      assert !OneApart(w, []);
      assert Neighbours(alphabet, w) == {};
    } else {
      var t := w[1..];
      assert Over(alphabet, t) by {
        forall i | 0 <= i < |t| ensures t[i] in alphabet { assert t[i] == w[i + 1]; }
      }
      NeighbourCount(alphabet, t);
      ConsCount(alphabet, w);
      MulSucc(|t|, |Letters(alphabet)| - 1);
    }
  }

  /** The inductive step of NeighbourCount: the neighbours of [c] + t are
      the k - 1 first-letter changes plus those of t. */
  lemma ConsCount(alphabet: seq<char>, w: string)
    requires |w| > 0 && Over(alphabet, w)
    ensures |Neighbours(alphabet, w)| == (|Letters(alphabet)| - 1) + |Neighbours(alphabet, w[1..])|
  {
    var c, t := w[0], w[1..];
    NeighboursOfCons(alphabet, w);
    var others := Letters(alphabet) - {c};
    var nt := Neighbours(alphabet, t);
    assert Fronts(others, t) !! PrefixAll(c, nt) by {
      forall v | v in Fronts(others, t) ensures v !in PrefixAll(c, nt) {
        var x :| x in others && v == [x] + t;
        assert v[0] == x;
      }
    }
    assert c in Letters(alphabet);
    assert |others| == |Letters(alphabet)| - 1;
    FrontsCard(others, t);
    PrefixAllCard(c, nt);
  }

  lemma MulSucc(a: int, b: int)
    ensures (a + 1) * b == b + a * b
  {
  }

  /** In the graph `build_graph` produces over an alphabet of k different
      letters and length L, every node has degree L * (k - 1); when no
      letter repeats, k is the alphabet's length. */
  lemma DenseDegree(alphabet: seq<char>, wordLength: nat, w: string)
    requires w in Words(alphabet, wordLength)
    ensures w in DenseAdjacency(alphabet, wordLength)
    ensures Degree(DenseAdjacency(alphabet, wordLength), w) == wordLength * (|Letters(alphabet)| - 1)
    ensures NoDuplicates(alphabet) ==>
      Degree(DenseAdjacency(alphabet, wordLength), w) == wordLength * (|alphabet| - 1)
  {
    WordsMembership(alphabet, wordLength, w);
    OneApartSymmetricIrreflexive(w, w);
    assert DenseAdjacency(alphabet, wordLength)[w] == Neighbours(alphabet, w);
    NeighbourCount(alphabet, w);
    if NoDuplicates(alphabet) {
      DistinctElementsCard(alphabet);
    }
  }

  /** The 3-cube: alphabet "01", length 3, eight nodes of degree 3. */
  lemma CubeDegrees(w: string)
    requires w in Words("01", 3)
    ensures |Words("01", 3)| == 8
    ensures Degree(DenseAdjacency("01", 3), w) == 3
  {
    DenseDegree("01", 3, w);
  }

  /** A repeated letter adds no neighbour: over "aab" (two different
      letters) a word of length L has degree L, not 2 * L. */
  lemma RepeatedLetterDegree(alphabet: seq<char>, wordLength: nat, w: string)
    requires alphabet == "aab" && w in Words(alphabet, wordLength)
    ensures Degree(DenseAdjacency(alphabet, wordLength), w) == wordLength
  {
    DenseDegree(alphabet, wordLength, w);
    assert Letters(alphabet) == {'a', 'b'};
  }
}
