/**
 The alignment being repaired: an indexed sequence of mappings, the oracle
 that adjudicates one mapping, and the order-preserving filter that builds
 the repaired alignment from the indices the oracle rejected.
 */
module Alignment {

  /** The relationship a mapping asserts between its two entities. The
      repairer never inspects it; it is only passed on to the oracle. */
  datatype Relation = Equivalence | Superclass | Subclass | Overlap | Unknown

  /** One correspondence of the alignment. Only `<` is ever applied to the
      similarity, so it is kept as a real number. */
  datatype Mapping = Mapping(sourceId: int, targetId: int, relationship: Relation, similarity: real)

  /** The oracle's verdict on (source entity, target entity, relationship).
      Resolving entity ids to URIs before asking is folded into this function. */
  type Oracle = (int, int, Relation) -> bool

  predicate Accepts(oracle: Oracle, m: Mapping)
  {
    oracle(m.sourceId, m.targetId, m.relationship)
  }

  /** The members of `dropped` that are valid positions of an alignment of length n. */
  function DroppedBelow(dropped: set<int>, n: nat): set<int>
  {
    set k | k in dropped && 0 <= k < n
  }

  /** The alignment `a` with the positions in `dropped` left out, in order. */
  function Without(a: seq<Mapping>, dropped: set<int>): seq<Mapping>
  {
    if a == [] then []
    else Without(a[..|a| - 1], dropped) + (if |a| - 1 in dropped then [] else [a[|a| - 1]])
  }

  /** The positions below n that are not in `dropped`, in ascending order. */
  function Kept(n: nat, dropped: set<int>): seq<int>
  {
    if n == 0 then []
    else Kept(n - 1, dropped) + (if n - 1 in dropped then [] else [n - 1])
  }

  /** `Kept` lists exactly the surviving positions, each once, in increasing order. */
  lemma {:induction false} KeptIsAscendingSurvivors(n: nat, dropped: set<int>)
    ensures forall p, q :: 0 <= p < q < |Kept(n, dropped)| ==> Kept(n, dropped)[p] < Kept(n, dropped)[q]
    ensures forall k :: k in Kept(n, dropped) <==> 0 <= k < n && k !in dropped
  {
    if n > 0 {
      KeptIsAscendingSurvivors(n - 1, dropped);
      var prev := Kept(n - 1, dropped);
      assert forall p :: 0 <= p < |prev| ==> prev[p] < n - 1 by {
        forall p | 0 <= p < |prev| ensures prev[p] < n - 1 {
          assert prev[p] in prev;
        }
      }
    }
  }

  /** The repaired alignment is the original one read at the surviving
      positions: a subsequence in the original order, with no duplicates. */
  lemma {:induction false} WithoutIsSubsequence(a: seq<Mapping>, dropped: set<int>)
    ensures |Without(a, dropped)| == |Kept(|a|, dropped)|
    ensures forall p :: 0 <= p < |Without(a, dropped)| ==>
              0 <= Kept(|a|, dropped)[p] < |a| && Without(a, dropped)[p] == a[Kept(|a|, dropped)[p]]
  {
    if a != [] {
      var init := a[..|a| - 1];
      WithoutIsSubsequence(init, dropped);
      assert forall p :: 0 <= p < |init| ==> init[p] == a[p];
    }
  }

  /** Exactly the dropped positions of the alignment are missing. */
  lemma {:induction false} WithoutSize(a: seq<Mapping>, dropped: set<int>)
    ensures |Without(a, dropped)| + |DroppedBelow(dropped, |a|)| == |a|
  {
    if a != [] {
      var n := |a|;
      WithoutSize(a[..n - 1], dropped);
      assert n - 1 !in DroppedBelow(dropped, n - 1);
      if n - 1 in dropped {
        assert DroppedBelow(dropped, n) == DroppedBelow(dropped, n - 1) + {n - 1};
      } else {
        assert DroppedBelow(dropped, n) == DroppedBelow(dropped, n - 1);
      }
    }
  }

  /** Dropping a set of valid positions shortens the alignment by its size. */
  lemma WithoutValidSize(a: seq<Mapping>, dropped: set<int>)
    requires forall k :: k in dropped ==> 0 <= k < |a|
    ensures |Without(a, dropped)| == |a| - |dropped|
  {
    WithoutSize(a, dropped);
    assert DroppedBelow(dropped, |a|) == dropped;
  }

  /** Dropping nothing gives back the alignment itself. */
  lemma {:induction false} WithoutNothing(a: seq<Mapping>)
    ensures Without(a, {}) == a
  {
    if a != [] {
      WithoutNothing(a[..|a| - 1]);
      assert a[..|a| - 1] + [a[|a| - 1]] == a;
    }
  }
}
