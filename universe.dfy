/** The node universe of a word-ladder graph: the list comprehension
    `["".join(p) for p in itertools.product(alphabet, repeat=word_length)]`
    (src/graph.py line 113, src/features.py line 42). It lists every word of
    the given length over the alphabet, with repetition, the first letter
    varying slowest. */
module Universe {
  import opened Sequences

  function Pow(k: nat, n: nat): nat {
    if n == 0 then 1 else k * Pow(k, n - 1)
  }

  /** Every letter of the alphabet is allowed in the word. */
  predicate Over(alphabet: seq<char>, w: string) {
    forall i :: 0 <= i < |w| ==> w[i] in alphabet
  }

  /** The words of `ws`, each with the letter `c` in front. */
  function Prefixed(c: char, ws: seq<string>): seq<string> {
    seq(|ws|, k requires 0 <= k < |ws| => [c] + ws[k])
  }

  /** One more round of itertools.product: for each letter of the alphabet
      in turn, that letter in front of every word of `ws`. */
  function Extend(alphabet: seq<char>, ws: seq<string>): (r: seq<string>)
    ensures |r| == |alphabet| * |ws|
  {
    if alphabet == [] then []
    else Prefixed(alphabet[0], ws) + Extend(alphabet[1..], ws)
  }

  /** All words of length n over the alphabet, in itertools.product order. */
  function Words(alphabet: seq<char>, n: nat): (r: seq<string>)
    ensures |r| == Pow(|alphabet|, n)
  {
    if n == 0 then [[]] else Extend(alphabet, Words(alphabet, n - 1))
  }

  /** The index of the first occurrence of c in the alphabet (|alphabet|
      when c is absent). */
  function Position(alphabet: seq<char>, c: char): (r: nat)
    ensures r <= |alphabet|
    ensures r < |alphabet| <==> c in alphabet
    ensures r < |alphabet| ==> alphabet[r] == c
  {
    if alphabet == [] then 0
    else if alphabet[0] == c then 0
    else 1 + Position(alphabet[1..], c)
  }

  /** u comes strictly before v in the lexicographic order that the
      alphabet's own order induces on words. */
  predicate LexBefore(alphabet: seq<char>, u: string, v: string) {
    && |u| > 0 && |v| > 0
    && (|| Position(alphabet, u[0]) < Position(alphabet, v[0])
        || (u[0] == v[0] && LexBefore(alphabet, u[1..], v[1..])))
  }

  /** Every word of the list comes strictly before every later one. */
  predicate Ascending(alphabet: seq<char>, ws: seq<string>) {
    forall p, q :: 0 <= p < q < |ws| ==> LexBefore(alphabet, ws[p], ws[q])
  }

  /** A word is in Extend(alphabet, ws) exactly when it starts with a letter
      of the alphabet followed by a word of ws. */
  lemma {:induction false} ExtendMembership(alphabet: seq<char>, ws: seq<string>, w: string)
    ensures w in Extend(alphabet, ws) <==> |w| > 0 && w[0] in alphabet && w[1..] in ws
  {
    if alphabet != [] {
      ExtendMembership(alphabet[1..], ws, w);
      var block := Prefixed(alphabet[0], ws);
      assert Extend(alphabet, ws) == block + Extend(alphabet[1..], ws);
      if w in block {
        var k :| 0 <= k < |ws| && block[k] == w;
        assert w[1..] == ws[k];
      }
      if |w| > 0 && w[0] == alphabet[0] && w[1..] in ws {
        var k :| 0 <= k < |ws| && ws[k] == w[1..];
        assert block[k] == w;
      }
      assert alphabet == [alphabet[0]] + alphabet[1..];
    }
  }

  /** The node universe is exactly the words of length n over the alphabet:
      nothing is missing and nothing else appears. */
  lemma {:induction false} WordsMembership(alphabet: seq<char>, n: nat, w: string)
    ensures w in Words(alphabet, n) <==> |w| == n && Over(alphabet, w)
  {
    if n == 0 {
      assert |w| == 0 ==> w == [];
    } else {
      ExtendMembership(alphabet, Words(alphabet, n - 1), w);
      if |w| > 0 {
        WordsMembership(alphabet, n - 1, w[1..]);
        assert Over(alphabet, w) <==> w[0] in alphabet && Over(alphabet, w[1..]) by {
          if w[0] in alphabet && Over(alphabet, w[1..]) {
            forall i | 0 <= i < |w| ensures w[i] in alphabet {
              if i > 0 { assert w[i] == w[1..][i - 1]; }
            }
          }
          if Over(alphabet, w) {
            forall i | 0 <= i < |w[1..]| ensures w[1..][i] in alphabet {
              assert w[1..][i] == w[i + 1];
            }
          }
        }
      }
    }
  }

  /** Every word of the node universe has the requested length. */
  lemma WordsHaveLength(alphabet: seq<char>, n: nat)
    ensures forall w :: w in Words(alphabet, n) ==> |w| == n
  {
    forall w | w in Words(alphabet, n) ensures |w| == n {
      WordsMembership(alphabet, n, w);
    }
  }

  /** In a duplicate-free alphabet the position of its k-th letter is k. */
  lemma {:induction false} PositionOfLetter(alphabet: seq<char>, k: nat)
    requires NoDuplicates(alphabet) && k < |alphabet|
    ensures Position(alphabet, alphabet[k]) == k
  {
    if k > 0 {
      assert NoDuplicates(alphabet[1..]) by {
        forall p, q | 0 <= p < q < |alphabet[1..]|
          ensures alphabet[1..][p] != alphabet[1..][q]
        {
          assert alphabet[1..][p] == alphabet[p + 1] && alphabet[1..][q] == alphabet[q + 1];
        }
      }
      PositionOfLetter(alphabet[1..], k - 1);
      assert alphabet[1..][k - 1] == alphabet[k];
      assert alphabet[0] != alphabet[k];
    }
  }

  /** No word comes before itself. */
  lemma {:induction false} LexBeforeIrreflexive(alphabet: seq<char>, u: string)
    ensures !LexBefore(alphabet, u, u)
  {
    if |u| > 0 {
      LexBeforeIrreflexive(alphabet, u[1..]);
    }
  }

  /** The letter-major rounds from the s-th letter on keep the order: the
      blocks follow the alphabet, and each block follows ws. */
  lemma {:induction false} ExtendAscending(alphabet: seq<char>, s: nat, ws: seq<string>)
    requires NoDuplicates(alphabet) && s <= |alphabet|
    requires Ascending(alphabet, ws)
    ensures Ascending(alphabet, Extend(alphabet[s..], ws))
    decreases |alphabet| - s
  {
    if s < |alphabet| {
      ExtendAscending(alphabet, s + 1, ws);
      var c := alphabet[s];
      var block := Prefixed(c, ws);
      var rest := Extend(alphabet[s + 1..], ws);
      assert alphabet[s..][0] == c && alphabet[s..][1..] == alphabet[s + 1..];
      assert Extend(alphabet[s..], ws) == block + rest;
      PositionOfLetter(alphabet, s);
      forall p, q | 0 <= p < q < |block + rest|
        ensures LexBefore(alphabet, (block + rest)[p], (block + rest)[q])
      {
        var u, v := (block + rest)[p], (block + rest)[q];
        if q < |block| {
          assert u == [c] + ws[p] && v == [c] + ws[q];
          assert u[1..] == ws[p] && v[1..] == ws[q];
        } else if p < |block| {
          assert u == [c] + ws[p];
          assert v in rest;
          ExtendMembership(alphabet[s + 1..], ws, v);
          var k :| 0 <= k < |alphabet[s + 1..]| && alphabet[s + 1..][k] == v[0];
          PositionOfLetter(alphabet, s + 1 + k);
        } else {
          assert u == rest[p - |block|] && v == rest[q - |block|];
        }
      }
    }
  }

  /** The node universe is in lexicographic order by alphabet position. */
  lemma {:induction false} WordsAscending(alphabet: seq<char>, n: nat)
    requires NoDuplicates(alphabet)
    ensures Ascending(alphabet, Words(alphabet, n))
  {
    if n > 0 {
      WordsAscending(alphabet, n - 1);
      ExtendAscending(alphabet, 0, Words(alphabet, n - 1));
      assert alphabet[0..] == alphabet;
    }
  }

  /** With distinct letters the universe has no repeated word, so it holds
      |alphabet|^n different words. */
  lemma WordsDistinct(alphabet: seq<char>, n: nat)
    requires NoDuplicates(alphabet)
    ensures NoDuplicates(Words(alphabet, n))
    ensures |set w | w in Words(alphabet, n)| == Pow(|alphabet|, n)
  {
    var ws := Words(alphabet, n);
    WordsAscending(alphabet, n);
    forall p, q | 0 <= p < q < |ws| ensures ws[p] != ws[q] {
      LexBeforeIrreflexive(alphabet, ws[p]);
    }
    DistinctElementsCard(ws);
  }

  /** A zero word length yields the single empty word, whatever the alphabet;
      an empty alphabet with a positive length yields no word at all. */
  lemma WordsEdgeCases(alphabet: seq<char>, n: nat)
    ensures Words(alphabet, 0) == [""]
    ensures alphabet == [] && n > 0 ==> Words(alphabet, n) == []
  {
  }
}
