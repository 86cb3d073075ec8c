/** The Hamming metric on words: `find_hamming_distance` in src/graph.py
    and its identical twin `get_hamming_distance` in src/features.py. Both
    reject words of unequal length with a ValueError instead of letting
    `zip` truncate the longer one, then count the differing positions. */
module Hamming {

  /** The ValueError raised for words of unequal length. */
  datatype Error = LengthMismatch

  datatype Result<T> = Ok(value: T) | Err(error: Error)

  /** The positions at which two equal-length words differ. */
  ghost function DiffPositions(a: string, b: string): set<int>
    requires |a| == |b|
  {
    set i | 0 <= i < |a| && a[i] != b[i]
  }

  /** The sum over `zip(a, b)` of one per pair of differing letters. */
  function Mismatches(a: string, b: string): (r: nat)
    requires |a| == |b|
    ensures r <= |a|
    ensures r == 0 <==> a == b
  {
    if a == [] then 0
    else (if a[0] != b[0] then 1 else 0) + Mismatches(a[1..], b[1..])
  }

  /** The Hamming distance, or LengthMismatch when the lengths differ. */
  function Distance(a: string, b: string): (r: Result<nat>)
    ensures r.Err? <==> |a| != |b|
    ensures r.Ok? ==> r.value <= |a|
    ensures r == Ok(0) <==> a == b
  {
    if |a| != |b| then Err(LengthMismatch) else Ok(Mismatches(a, b))
  }

  /** Two words are one letter apart: the edge condition of a word ladder. */
  predicate OneApart(a: string, b: string) {
    Distance(a, b) == Ok(1)
  }

  /** The distance of equal-length words is the number of differing positions. */
  lemma DistanceCountsDiffPositions(a: string, b: string)
    requires |a| == |b|
    ensures Distance(a, b) == Ok(|DiffPositions(a, b)|)
  {
    MismatchesCountsDiffPositions(a, b, 0);
    assert a[0..] == a && b[0..] == b;
    assert DiffPositionsFrom(a, b, 0) == DiffPositions(a, b);
  }

  /** The differing positions at or after index k. */
  ghost function DiffPositionsFrom(a: string, b: string, k: nat): set<int>
    requires |a| == |b| && k <= |a|
  {
    set i | k <= i < |a| && a[i] != b[i]
  }

  lemma {:induction false} MismatchesCountsDiffPositions(a: string, b: string, k: nat)
    requires |a| == |b| && k <= |a|
    ensures Mismatches(a[k..], b[k..]) == |DiffPositionsFrom(a, b, k)|
    decreases |a| - k
  {
    if k < |a| {
      MismatchesCountsDiffPositions(a, b, k + 1);
      assert a[k..][1..] == a[k + 1..] && b[k..][1..] == b[k + 1..];
      var here: set<int> := if a[k] != b[k] then {k} else {};
      assert DiffPositionsFrom(a, b, k) == here + DiffPositionsFrom(a, b, k + 1);
      assert here !! DiffPositionsFrom(a, b, k + 1);
    } else {
      assert DiffPositionsFrom(a, b, k) == {};
    }
  }

  /** The metric is symmetric, and it fails in both orders alike. */
  lemma {:induction false} DistanceSymmetric(a: string, b: string)
    ensures Distance(a, b) == Distance(b, a)
  {
    if |a| == |b| {
      MismatchesSymmetric(a, b);
    }
  }

  lemma {:induction false} MismatchesSymmetric(a: string, b: string)
    requires |a| == |b|
    ensures Mismatches(a, b) == Mismatches(b, a)
  {
    if a != [] {
      MismatchesSymmetric(a[1..], b[1..]);
    }
  }

  /** The edge condition is symmetric and irreflexive: an edge found from
      either end is the same edge, and no word is a neighbour of itself. */
  lemma OneApartSymmetricIrreflexive(a: string, b: string)
    ensures OneApart(a, b) <==> OneApart(b, a)
    ensures !OneApart(a, a)
  {
    DistanceSymmetric(a, b);
  }

  /** The first letters contribute their mismatch and the rest is counted
      on the tails. */
  lemma MismatchesOfCons(c: char, t: string, d: char, s: string)
    requires |t| == |s|
    ensures Mismatches([c] + t, [d] + s) == (if c != d then 1 else 0) + Mismatches(t, s)
  {
    assert ([c] + t)[1..] == t && ([d] + s)[1..] == s;
  }
}
