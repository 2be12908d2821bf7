/** Nonces and simultaneous rekeying (iked/ikev2.c; sections 2.8.1 and 2.8.2 of
    RFC 7296). */
module Rekey {
  import opened Bytes

  /** memcmp of two buffers of the same length: the sign of the first difference. */
  function Memcmp(a: seq<Byte>, b: seq<Byte>): int
    requires |a| == |b|
  {
    if a == [] then 0
    else if a[0] < b[0] then -1
    else if a[0] > b[0] then 1
    else Memcmp(a[1..], b[1..])
  }

  /** ikev2_nonce_cmp: equal nonces compare as 1. */
  function NonceCmp(a: seq<Byte>, b: seq<Byte>): int {
    var len := if |a| < |b| then |a| else |b|;
    var ret := Memcmp(a[..len], b[..len]);
    if ret == 0 then (if |a| < |b| then -1 else 1) else ret
  }

  /** Dictionary order, where a proper prefix comes first. */
  ghost predicate Before(a: seq<Byte>, b: seq<Byte>) {
    exists k | 0 <= k <= |a| && k <= |b| && a[..k] == b[..k] ::
      (k == |a| && k < |b|) || (k < |a| && k < |b| && a[k] < b[k])
  }

  lemma {:induction false} MemcmpFirst(a: seq<Byte>, b: seq<Byte>)
    requires |a| == |b|
    ensures Memcmp(a, b) == 0 <==> a == b
    ensures Memcmp(a, b) != 0 ==> exists k | 0 <= k < |a| :: a[..k] == b[..k] && (if Memcmp(a, b) < 0 then a[k] < b[k] else a[k] > b[k])
  {
    if a != [] && a[0] == b[0] {
      MemcmpFirst(a[1..], b[1..]);
      assert a == [a[0]] + a[1..] && b == [b[0]] + b[1..];
      if Memcmp(a, b) != 0 {
        var k :| 0 <= k < |a[1..]| && a[1..][..k] == b[1..][..k] &&
          (if Memcmp(a, b) < 0 then a[1..][k] < b[1..][k] else a[1..][k] > b[1..][k]);
        assert a[..k + 1] == [a[0]] + a[1..][..k] && b[..k + 1] == [b[0]] + b[1..][..k];
      }
    } else if a != [] {
      assert a[..0] == b[..0];
    }
  }

  /** The comparison is negative exactly in dictionary order. */
  lemma NonceCmpIsBefore(a: seq<Byte>, b: seq<Byte>)
    ensures NonceCmp(a, b) < 0 <==> Before(a, b)
  {
    var len := if |a| < |b| then |a| else |b|;
    MemcmpFirst(a[..len], b[..len]);
    var ret := Memcmp(a[..len], b[..len]);
    if ret == 0 {
      SamePrefix(a, b, len);
    } else {
      var k :| 0 <= k < len && a[..len][..k] == b[..len][..k] && (if ret < 0 then a[..len][k] < b[..len][k] else a[..len][k] > b[..len][k]);
      assert a[..k] == a[..len][..k] && b[..k] == b[..len][..k];
      FirstDifference(a, b, k);
    }
  }

  lemma FirstDifference(a: seq<Byte>, b: seq<Byte>, k: nat)
    requires k < |a| && k < |b| && a[..k] == b[..k] && a[k] != b[k]
    ensures Before(a, b) <==> a[k] < b[k]
  {
    if Before(a, b) {
      var j :| 0 <= j <= |a| && j <= |b| && a[..j] == b[..j] && ((j == |a| && j < |b|) || (j < |a| && j < |b| && a[j] < b[j]));
    }
  }

  lemma SamePrefix(a: seq<Byte>, b: seq<Byte>, len: nat)
    requires len == (if |a| < |b| then |a| else |b|) && a[..len] == b[..len]
    ensures Before(a, b) <==> |a| < |b|
  {
    if Before(a, b) {
      var j :| 0 <= j <= |a| && j <= |b| && a[..j] == b[..j] && ((j == |a| && j < |b|) || (j < |a| && j < |b| && a[j] < b[j]));
    }
  }

  /** Negative is a strict total order on byte strings. */
  lemma NonceOrder(a: seq<Byte>, b: seq<Byte>, c: seq<Byte>)
    ensures !(NonceCmp(a, a) < 0)
    ensures a != b ==> (NonceCmp(a, b) < 0 <==> !(NonceCmp(b, a) < 0))
    ensures NonceCmp(a, b) < 0 && NonceCmp(b, c) < 0 ==> NonceCmp(a, c) < 0
  {
    var len := if |a| < |b| then |a| else |b|;
    MemcmpFirst(a, a);
    assert a[..|a|] == a;
    MemcmpFirst(a[..len], b[..len]);
    MemcmpSwap(a[..len], b[..len]);
    if |a| == |b| {
      assert a[..len] == a && b[..len] == b;
    }
    if NonceCmp(a, b) < 0 && NonceCmp(b, c) < 0 {
      NonceCmpIsBefore(a, b);
      NonceCmpIsBefore(b, c);
      NonceCmpIsBefore(a, c);
      BeforeTransitive(a, b, c);
    }
  }

  lemma BeforeTransitive(a: seq<Byte>, b: seq<Byte>, c: seq<Byte>)
    requires Before(a, b) && Before(b, c)
    ensures Before(a, c)
  {
    var j :| 0 <= j <= |a| && j <= |b| && a[..j] == b[..j] && ((j == |a| && j < |b|) || (j < |a| && j < |b| && a[j] < b[j]));
    var k :| 0 <= k <= |b| && k <= |c| && b[..k] == c[..k] && ((k == |b| && k < |c|) || (k < |b| && k < |c| && b[k] < c[k]));
    var i := if j < k then j else k;
    assert a[..i] == a[..j][..i] == b[..j][..i] == b[..k][..i] == c[..i];
    assert i < k ==> b[..k][i] == c[..k][i];
    assert i < j ==> a[..j][i] == b[..j][i];
  }

  lemma {:induction false} MemcmpSwap(a: seq<Byte>, b: seq<Byte>)
    requires |a| == |b|
    ensures Memcmp(b, a) == -Memcmp(a, b)
  {
    if a != [] {
      MemcmpSwap(a[1..], b[1..]);
    }
  }

  // ----- two rekey exchanges at once, one started by each peer -----

  /** The nonces of one exchange. */
  datatype Exchange = Exchange(inonce: seq<Byte>, rnonce: seq<Byte>)

  /** The smaller nonce of an exchange, as each side computes it. */
  function MinNonce(e: Exchange): seq<Byte> {
    if NonceCmp(e.inonce, e.rnonce) < 0 then e.inonce else e.rnonce
  }

  lemma MinNonceIsLeast(e: Exchange)
    ensures MinNonce(e) in {e.inonce, e.rnonce}
    ensures !(NonceCmp(e.inonce, MinNonce(e)) < 0) && !(NonceCmp(e.rnonce, MinNonce(e)) < 0)
  {
    NonceOrder(e.inonce, e.rnonce, e.inonce);
    NonceOrder(e.rnonce, e.inonce, e.rnonce);
  }

  /** Which new IKE SA a peer keeps (ikev2_init_create_child_sa): `own` is the
      exchange it started, sa_nexti, and `other` the one it answered, sa_nextr. */
  function KeptIkeSa(own: Exchange, other: Exchange): Exchange {
    if NonceCmp(MinNonce(own), MinNonce(other)) < 0 then other else own
  }

  /** The two peers keep the same IKE SA if and only if the smallest nonces of the
      two exchanges differ, or the exchanges are the same; with equal smallest
      nonces each keeps its own. */
  lemma IkeRekeyAgrees(a: Exchange, b: Exchange)
    ensures KeptIkeSa(a, b) == KeptIkeSa(b, a) <==> MinNonce(a) != MinNonce(b) || a == b
    ensures MinNonce(a) == MinNonce(b) ==> KeptIkeSa(a, b) == a && KeptIkeSa(b, a) == b
  {
    NonceOrder(MinNonce(a), MinNonce(b), MinNonce(a));
    NonceOrder(MinNonce(b), MinNonce(a), MinNonce(b));
  }

  /** The one that is kept does not hold the smallest of the four nonces. */
  lemma IkeRekeyDropsSmallest(a: Exchange, b: Exchange, n: seq<Byte>)
    requires MinNonce(a) != MinNonce(b) && n in {a.inonce, a.rnonce, b.inonce, b.rnonce}
    requires forall m | m in {a.inonce, a.rnonce, b.inonce, b.rnonce} :: !(NonceCmp(m, n) < 0)
    ensures var kept := KeptIkeSa(a, b); n != kept.inonce && n != kept.rnonce
  {
    var ma, mb := MinNonce(a), MinNonce(b);
    MinNonceIsLeast(a);
    MinNonceIsLeast(b);
    NonceOrder(ma, mb, n);
    NonceOrder(mb, ma, n);
    NonceOrder(n, ma, mb);
    NonceOrder(n, mb, ma);
    NonceOrder(a.inonce, a.rnonce, n);
    NonceOrder(b.inonce, b.rnonce, n);
  }

  /** Whether a peer deletes the Child SAs of the exchange it started: sa_simult
      holds the smaller nonce of the exchange it answered. */
  predicate DeletesOwnChild(own: Exchange, simult: seq<Byte>) {
    NonceCmp(MinNonce(own), simult) < 0
  }

  /** Exactly one of the two initiators deletes its own Child SAs if and only if the
      smallest nonces differ; it is never both. */
  lemma ChildRekeyOneDeletes(a: Exchange, b: Exchange)
    ensures DeletesOwnChild(a, MinNonce(b)) != DeletesOwnChild(b, MinNonce(a)) <==> MinNonce(a) != MinNonce(b)
    ensures !(DeletesOwnChild(a, MinNonce(b)) && DeletesOwnChild(b, MinNonce(a)))
  {
    NonceOrder(MinNonce(a), MinNonce(b), MinNonce(a));
    NonceOrder(MinNonce(b), MinNonce(a), MinNonce(b));
  }

  /** The one who deletes started the exchange with the smallest of the four nonces. */
  lemma ChildRekeyDropsSmallest(a: Exchange, b: Exchange, n: seq<Byte>)
    requires MinNonce(a) != MinNonce(b) && n in {a.inonce, a.rnonce, b.inonce, b.rnonce}
    requires forall m | m in {a.inonce, a.rnonce, b.inonce, b.rnonce} :: !Before(m, n)
    ensures DeletesOwnChild(a, MinNonce(b)) <==> n in {a.inonce, a.rnonce}
    ensures DeletesOwnChild(b, MinNonce(a)) <==> n in {b.inonce, b.rnonce}
  {
    var ma, mb := MinNonce(a), MinNonce(b);
    forall m | m in {a.inonce, a.rnonce, b.inonce, b.rnonce}
      ensures !(NonceCmp(m, n) < 0)
    {
      NonceCmpIsBefore(m, n);
    }
    MinNonceIsLeast(a);
    MinNonceIsLeast(b);
    NonceOrder(n, ma, mb);
    NonceOrder(n, mb, ma);
    NonceOrder(ma, mb, n);
    NonceOrder(mb, ma, n);
  }

  /** A peer that repeats one nonce, below those of the other side, in both exchanges:
      the peers keep different IKE SAs, and neither deletes its Child SAs. */
  lemma TieDisagrees(n: seq<Byte>, x: seq<Byte>, y: seq<Byte>)
    requires NonceCmp(n, x) < 0 && NonceCmp(n, y) < 0
    ensures var a, b := Exchange(x, n), Exchange(n, y);
      && KeptIkeSa(a, b) == a != b == KeptIkeSa(b, a)
      && !DeletesOwnChild(a, MinNonce(b)) && !DeletesOwnChild(b, MinNonce(a))
  {
    var a, b := Exchange(x, n), Exchange(n, y);
    NonceOrder(x, n, x);
    NonceOrder(n, x, n);
    IkeRekeyAgrees(a, b);
    ChildRekeyOneDeletes(a, b);
  }

  /** Nonces for which this happens: 16 bytes of zero against 32 bytes (IKED_NONCE_SIZE)
      that do not start with zero. */
  lemma RepeatedNonce(n: seq<Byte>, x: seq<Byte>, y: seq<Byte>)
    requires |n| == 16 && |x| == |y| == 32 && n[0] == 0 && x[0] != 0 && y[0] != 0
    ensures var a, b := Exchange(x, n), Exchange(n, y);
      KeptIkeSa(a, b) != KeptIkeSa(b, a) && !DeletesOwnChild(a, MinNonce(b)) && !DeletesOwnChild(b, MinNonce(a))
  {
    FirstByte(n, x);
    FirstByte(n, y);
    TieDisagrees(n, x, y);
  }

  lemma FirstByte(n: seq<Byte>, x: seq<Byte>)
    requires n != [] && x != [] && n[0] < x[0]
    ensures NonceCmp(n, x) < 0
  {
    FirstDifference(n, x, 0);
    NonceCmpIsBefore(n, x);
  }
}
