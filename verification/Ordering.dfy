/** What the trees of compat/tree.h ask of a comparison function. */
module Ordering {

  /** Negative, zero and positive mean below, equal and above in a total preorder. */
  ghost predicate Lawful<K(!new)>(cmp: (K, K) -> int) {
    && (forall a, b :: cmp(a, b) < 0 <==> cmp(b, a) > 0)
    && (forall a, b, c :: cmp(a, b) < 0 && cmp(b, c) < 0 ==> cmp(a, c) < 0)
    && (forall a, b, c :: cmp(a, b) == 0 && cmp(b, c) < 0 ==> cmp(a, c) < 0)
  }

  /** In a sorted sequence all before an element is below it, and all after it above. */
  lemma SortedInside<N, K>(cmp: (K, K) -> int, key: N -> K, before: seq<N>, l: seq<N>, e: N, r: seq<N>, after: seq<N>)
    requires var s := before + (l + [e] + r) + after; forall i, j | 0 <= i < j < |s| :: cmp(key(s[i]), key(s[j])) < 0
    ensures forall x | x in l :: cmp(key(x), key(e)) < 0
    ensures forall x | x in r :: cmp(key(e), key(x)) < 0
  {
    var s, i := before + (l + [e] + r) + after, |before| + |l|;
    assert s[i] == e;
    forall x | x in l ensures cmp(key(x), key(e)) < 0 {
      var j :| 0 <= j < |l| && l[j] == x;
      assert s[|before| + j] == x;
    }
    forall x | x in r ensures cmp(key(e), key(x)) < 0 {
      var j :| 0 <= j < |r| && r[j] == x;
      assert s[i + 1 + j] == x;
    }
  }
}
