/** Sequence helpers shared by the graph model: duplicate-free lists, the
    order-preserving filter behind a list comprehension with an `if`, and
    the way an insertion-ordered node dictionary grows. */
module Sequences {

  predicate NoDuplicates<T(==)>(s: seq<T>) {
    forall p, q :: 0 <= p < q < |s| ==> s[p] != s[q]
  }

  /** `[x for x in s if x in keep]`: the elements of `s` that lie in `keep`,
      in their original order. */
  function Filter<T(==,!new)>(s: seq<T>, keep: set<T>): (r: seq<T>)
    ensures forall x :: x in r <==> x in s && x in keep
    ensures |r| <= |s|
    ensures NoDuplicates(s) ==> NoDuplicates(r)
  {
    if s == [] then []
    else if s[0] in keep then [s[0]] + Filter(s[1..], keep)
    else Filter(s[1..], keep)
  }

  /** Appends to `seen`, in order, each element of `ws` that is not yet
      present: the node order of a dictionary-backed graph after inserting
      the nodes `ws` one by one. */
  function AppendNew<T(==,!new)>(seen: seq<T>, ws: seq<T>): (r: seq<T>)
    ensures forall x :: x in r <==> x in seen || x in ws
    ensures |seen| <= |r| && r[..|seen|] == seen
    ensures NoDuplicates(seen) ==> NoDuplicates(r)
    decreases |ws|
  {
    if ws == [] then seen
    else
      var d := AppendNew(seen, ws[..|ws| - 1]);
      if ws[|ws| - 1] in d then d else d + [ws[|ws| - 1]]
  }

  /** Inserting elements that are all new and pairwise distinct keeps them
      all, in their order. */
  lemma {:induction false} AppendNewOfFresh<T(!new)>(seen: seq<T>, ws: seq<T>)
    requires NoDuplicates(seen + ws)
    ensures AppendNew(seen, ws) == seen + ws
    decreases |ws|
  {
    if ws != [] {
      var init := ws[..|ws| - 1];
      var last := ws[|ws| - 1];
      assert seen + ws == (seen + init) + [last];
      assert NoDuplicates(seen + init) by {
        forall p, q | 0 <= p < q < |seen + init|
          ensures (seen + init)[p] != (seen + init)[q]
        {
          assert (seen + init)[p] == (seen + ws)[p] && (seen + init)[q] == (seen + ws)[q];
        }
      }
      AppendNewOfFresh(seen, init);
      assert last !in seen + init by {
        forall p | 0 <= p < |seen + init| ensures (seen + init)[p] != last {
          assert (seen + init)[p] == (seen + ws)[p];
          assert last == (seen + ws)[|seen + ws| - 1];
        }
      }
    }
  }

  /** Inserting elements that are already present changes nothing. */
  lemma {:induction false} AppendNewOfKnown<T(!new)>(seen: seq<T>, ws: seq<T>)
    requires forall x :: x in ws ==> x in seen
    ensures AppendNew(seen, ws) == seen
    decreases |ws|
  {
    if ws != [] {
      var init := ws[..|ws| - 1];
      assert forall x :: x in init ==> x in ws;
      AppendNewOfKnown(seen, init);
    }
  }

  /** The elements of a duplicate-free sequence form a set of the same size. */
  lemma {:induction false} DistinctElementsCard<T>(s: seq<T>)
    requires NoDuplicates(s)
    ensures |set x | x in s| == |s|
  {
    if s != [] {
      DistinctElementsCard(s[1..]);
      assert (set x | x in s) == (set x | x in s[1..]) + {s[0]};
      assert s[0] !in s[1..];
    }
  }
}
