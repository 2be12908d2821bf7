/** Key expansion (ikev2_prfplus in iked/ikev2.c; section 2.13 of RFC 7296). */
module KeyExpansion {
  import opened Arith
  import opened Bytes
  import opened SecureMessage
  import opened Options

  type Prf = (seq<Byte>, seq<Byte>) -> seq<Byte>

  /** The output of a prf has `hashlen` bytes. */
  ghost predicate Gives(prf: Prf, hashlen: nat) {
    forall k, d :: |prf(k, d)| == hashlen
  }

  // ----- what the RFC defines -----

  /** The block Ti; T0 is empty. */
  function Block(prf: Prf, key: seq<Byte>, seed: seq<Byte>, i: nat): seq<Byte>
    requires i <= 255
  {
    if i == 0 then [] else prf(key, Block(prf, key, seed, i - 1) + seed + [i])
  }

  /** T1 | T2 | ... | Tn. */
  function Blocks(prf: Prf, key: seq<Byte>, seed: seq<Byte>, n: nat): seq<Byte>
    requires n <= 255
  {
    if n == 0 then [] else Blocks(prf, key, seed, n - 1) + Block(prf, key, seed, n)
  }

  lemma {:induction false} BlocksLength(prf: Prf, key: seq<Byte>, seed: seq<Byte>, n: nat, hashlen: nat)
    requires n <= 255 && Gives(prf, hashlen)
    ensures |Blocks(prf, key, seed, n)| == n * hashlen
  {
    if n > 0 {
      BlocksLength(prf, key, seed, n - 1, hashlen);
      assert n * hashlen == (n - 1) * hashlen + hashlen;
    }
  }

  // ----- what the loop computes -----

  /** ibuf_add on a buffer of ibuf_new, whose failure prf+ does not look at. */
  function AddTo(buf: seq<Byte>, data: seq<Byte>): (r: seq<Byte>)
    ensures |buf| <= MSGBUF_MAX ==> |r| <= MSGBUF_MAX
  {
    if |buf| + |data| <= MSGBUF_MAX then buf + data else buf
  }

  /** The input of a round: what does not fit behind the previous block is not there. */
  function Fed(t: seq<Byte>, seed: seq<Byte>, i: Byte): (r: seq<Byte>)
    ensures |t| <= MSGBUF_MAX ==> |r| <= MSGBUF_MAX
  {
    AddTo(AddTo(t, seed), [i])
  }

  /** The hash of round `i`. */
  function Turn(prf: Prf, key: seq<Byte>, seed: seq<Byte>, i: nat): seq<Byte>
    requires i <= 255
  {
    if i == 0 then [] else prf(key, Fed(Turn(prf, key, seed, i - 1), seed, i))
  }

  /** The hashes of the first rounds. */
  function Turns(prf: Prf, key: seq<Byte>, seed: seq<Byte>, n: nat): seq<Byte>
    requires n <= 255
  {
    if n == 0 then [] else Turns(prf, key, seed, n - 1) + Turn(prf, key, seed, n)
  }

  /** The buffer after `n` rounds. */
  function Yield(prf: Prf, key: seq<Byte>, seed: seq<Byte>, n: nat): seq<Byte>
    requires n <= 255
  {
    if n == 0 then [] else AddTo(Yield(prf, key, seed, n - 1), Turn(prf, key, seed, n))
  }

  /** The rounds whose hashes the buffer takes. */
  function Taken(n: nat, hashlen: nat): nat
    requires hashlen > 0
  {
    if n < MSGBUF_MAX / hashlen then n else MSGBUF_MAX / hashlen
  }

  lemma {:induction false} TurnsLength(prf: Prf, key: seq<Byte>, seed: seq<Byte>, n: nat, hashlen: nat)
    requires n <= 255 && Gives(prf, hashlen)
    ensures |Turns(prf, key, seed, n)| == n * hashlen
  {
    if n > 0 {
      TurnsLength(prf, key, seed, n - 1, hashlen);
      assert n * hashlen == (n - 1) * hashlen + hashlen;
    }
  }

  /** The buffer is cut behind the last hash that fits whole. */
  lemma {:induction false} YieldCut(prf: Prf, key: seq<Byte>, seed: seq<Byte>, n: nat, hashlen: nat)
    requires n <= 255 && hashlen > 0 && Gives(prf, hashlen)
    ensures Yield(prf, key, seed, n) == Turns(prf, key, seed, Taken(n, hashlen))
    ensures |Yield(prf, key, seed, n)| == Taken(n, hashlen) * hashlen
  {
    TurnsLength(prf, key, seed, Taken(n, hashlen), hashlen);
    if n > 0 {
      YieldCut(prf, key, seed, n - 1, hashlen);
      var t := Taken(n - 1, hashlen);
      OneMore(t, hashlen);
    }
  }

  lemma OneMore(t: nat, hashlen: nat)
    requires hashlen > 0
    ensures (t + 1) * hashlen == t * hashlen + hashlen
    ensures t * hashlen + hashlen <= MSGBUF_MAX <==> t < MSGBUF_MAX / hashlen
  {
    var q, r := MSGBUF_MAX / hashlen, MSGBUF_MAX % hashlen;
    assert MSGBUF_MAX == hashlen * q + r;
    if t < q {
      NotLess(q, t + 1, hashlen);
    } else {
      NotLess(t + 1, q + 1, hashlen);
    }
  }

  lemma NotLess(a: nat, b: nat, h: nat)
    requires a >= b
    ensures a * h >= b * h
  {
    assert a * h == b * h + (a - b) * h;
  }

  // ----- when that is T1 | T2 | ... -----

  /** The hashes fit the buffer, the seed with the number of the round fits a buffer and,
      if there is a second round, fits behind a hash. */
  predicate Intact(seedlen: nat, hashlen: nat, n: nat) {
    && n * hashlen <= MSGBUF_MAX
    && (n >= 1 ==> seedlen + 1 <= MSGBUF_MAX)
    && (n >= 2 ==> hashlen + seedlen + 1 <= MSGBUF_MAX)
  }

  lemma {:induction false} TurnIsBlock(prf: Prf, key: seq<Byte>, seed: seq<Byte>, i: nat, n: nat, hashlen: nat)
    requires i <= n <= 255 && Gives(prf, hashlen) && Intact(|seed|, hashlen, n)
    ensures Turn(prf, key, seed, i) == Block(prf, key, seed, i)
  {
    if i > 0 {
      TurnIsBlock(prf, key, seed, i - 1, n, hashlen);
    }
  }

  lemma {:induction false} TurnsAreBlocks(prf: Prf, key: seq<Byte>, seed: seq<Byte>, i: nat, n: nat, hashlen: nat)
    requires i <= n <= 255 && Gives(prf, hashlen) && Intact(|seed|, hashlen, n)
    ensures Turns(prf, key, seed, i) == Blocks(prf, key, seed, i)
  {
    if i > 0 {
      TurnsAreBlocks(prf, key, seed, i - 1, n, hashlen);
      TurnIsBlock(prf, key, seed, i, n, hashlen);
    }
  }

  lemma YieldIsBlocks(prf: Prf, key: seq<Byte>, seed: seq<Byte>, n: nat, hashlen: nat)
    requires n <= 255 && hashlen > 0 && Gives(prf, hashlen) && Intact(|seed|, hashlen, n)
    ensures Yield(prf, key, seed, n) == Blocks(prf, key, seed, n)
  {
    YieldCut(prf, key, seed, n, hashlen);
    TurnsAreBlocks(prf, key, seed, n, n, hashlen);
    if n > 0 {
      OneMore(n - 1, hashlen);
    }
  }

  /** A prf that tells an input longer than a buffer from others. */
  function Telltale(hashlen: nat): Prf {
    (k, d) => seq(hashlen, _ => if |d| > MSGBUF_MAX then 1 else 0)
  }

  /** Its last block is not what the loop computes, as soon as an input is too long. */
  lemma {:induction false} TellsApart(key: seq<Byte>, seed: seq<Byte>, n: nat, hashlen: nat)
    requires 0 < n <= 255 && 0 < hashlen <= MSGBUF_MAX
    requires |seed| + 1 > MSGBUF_MAX || (n >= 2 && hashlen + |seed| + 1 > MSGBUF_MAX)
    ensures Turn(Telltale(hashlen), key, seed, n) == seq(hashlen, _ => 0)
    ensures Block(Telltale(hashlen), key, seed, n) == seq(hashlen, _ => 1)
  {
    var prf := Telltale(hashlen);
    assert |Turn(prf, key, seed, n - 1)| <= hashlen;
    assert n >= 2 ==> |Block(prf, key, seed, n - 1)| == hashlen;
  }

  /** The key material is T1 | T2 | ... for every prf, exactly under the condition. */
  lemma YieldExact(key: seq<Byte>, seed: seq<Byte>, n: nat, hashlen: nat)
    requires n <= 255 && 0 < hashlen <= MSGBUF_MAX
    ensures (forall prf | Gives(prf, hashlen) :: Yield(prf, key, seed, n) == Blocks(prf, key, seed, n)) <==> Intact(|seed|, hashlen, n)
  {
    if Intact(|seed|, hashlen, n) {
      forall prf | Gives(prf, hashlen)
        ensures Yield(prf, key, seed, n) == Blocks(prf, key, seed, n)
      {
        YieldIsBlocks(prf, key, seed, n, hashlen);
      }
    } else {
      Differs(key, seed, n, hashlen);
    }
  }

  lemma Differs(key: seq<Byte>, seed: seq<Byte>, n: nat, hashlen: nat)
    requires n <= 255 && 0 < hashlen <= MSGBUF_MAX && !Intact(|seed|, hashlen, n)
    ensures Gives(Telltale(hashlen), hashlen)
    ensures Yield(Telltale(hashlen), key, seed, n) != Blocks(Telltale(hashlen), key, seed, n)
  {
    if n * hashlen > MSGBUF_MAX {
      TooLong(Telltale(hashlen), key, seed, n, hashlen);
    } else {
      TellsApart(key, seed, n, hashlen);
      LastDiffers(Telltale(hashlen), key, seed, n, hashlen);
    }
  }

  /** Hashes that do not fit are not there, for any prf. */
  lemma {:induction false} TooLong(prf: Prf, key: seq<Byte>, seed: seq<Byte>, n: nat, hashlen: nat)
    requires n <= 255 && hashlen > 0 && Gives(prf, hashlen) && n * hashlen > MSGBUF_MAX
    ensures |Yield(prf, key, seed, n)| < |Blocks(prf, key, seed, n)|
  {
    BlocksLength(prf, key, seed, n, hashlen);
    YieldCut(prf, key, seed, n, hashlen);
    OneMore(n - 1, hashlen);
    WholeBlocks(MSGBUF_MAX / hashlen, hashlen);
  }

  lemma WholeBlocks(q: nat, hashlen: nat)
    requires hashlen > 0 && q == MSGBUF_MAX / hashlen
    ensures q * hashlen <= MSGBUF_MAX
  {
    assert MSGBUF_MAX == hashlen * q + MSGBUF_MAX % hashlen;
  }

  lemma {:induction false} LastDiffers(prf: Prf, key: seq<Byte>, seed: seq<Byte>, n: nat, hashlen: nat)
    requires 0 < n <= 255 && hashlen > 0 && Gives(prf, hashlen) && n * hashlen <= MSGBUF_MAX
    requires Turn(prf, key, seed, n)[hashlen - 1] != Block(prf, key, seed, n)[hashlen - 1]
    ensures Yield(prf, key, seed, n) != Blocks(prf, key, seed, n)
  {
    YieldCut(prf, key, seed, n, hashlen);
    OneMore(n - 1, hashlen);
    LastByte(Turns(prf, key, seed, n - 1), Turn(prf, key, seed, n));
    LastByte(Blocks(prf, key, seed, n - 1), Block(prf, key, seed, n));
  }

  lemma LastByte(a: seq<Byte>, b: seq<Byte>)
    requires b != []
    ensures (a + b)[|a + b| - 1] == b[|b| - 1]
  {}

  /** A seed that fits a buffer, but not behind a hash: from the second round on it does
      not enter the key material. */
  lemma SeedDropped(prf: Prf, key: seq<Byte>, seed: seq<Byte>, i: nat, hashlen: nat)
    requires 2 <= i <= 255 && hashlen < MSGBUF_MAX && Gives(prf, hashlen) && hashlen + |seed| > MSGBUF_MAX
    ensures Turn(prf, key, seed, i) == prf(key, Turn(prf, key, seed, i - 1) + [i])
  {}

  /** Two rounds of a hash of 32 bytes on a seed of 8180: all is short of a buffer, but
      the second block is not T2 of every prf. */
  lemma LongSeed(key: seq<Byte>, seed: seq<Byte>)
    requires |seed| == 8180
    ensures Rounds(64, 32) == 2 && !Intact(|seed|, 32, 2)
    ensures exists prf :: Gives(prf, 32) && Yield(prf, key, seed, 2) != Blocks(prf, key, seed, 2)
  {
    Differs(key, seed, 2, 32);
  }

  // ----- ikev2_prfplus -----

  function Rounds(keymatlen: nat, hashlen: nat): nat
    requires hashlen > 0
  {
    Roundup(keymatlen, hashlen) / hashlen
  }

  /** Enough rounds for the key material, and no more than needed. */
  lemma RoundsSuffice(keymatlen: nat, hashlen: nat)
    requires hashlen > 0
    ensures keymatlen <= Rounds(keymatlen, hashlen) * hashlen < keymatlen + hashlen
  {
    RoundupBounds(keymatlen, hashlen);
    var q := (keymatlen + (hashlen - 1)) / hashlen;
    assert Roundup(keymatlen, hashlen) == hashlen * q;
    Multiple(hashlen, q);
  }

  /** More than 255 rounds are refused; otherwise the key material is what the rounds
      yield, which is T1 | T2 | ... and as long as asked for if nothing is dropped. */
  method PrfPlus(prf: Prf, key: seq<Byte>, seed: seq<Byte>, keymatlen: nat, hashlen: nat) returns (t: Option<seq<Byte>>)
    requires 0 < hashlen <= MSGBUF_MAX && Gives(prf, hashlen)
    ensures t.None? <==> Rounds(keymatlen, hashlen) > 255
    ensures t.Some? ==> t.value == Yield(prf, key, seed, Rounds(keymatlen, hashlen))
    ensures t.Some? && Intact(|seed|, hashlen, Rounds(keymatlen, hashlen)) ==>
      t.value == Blocks(prf, key, seed, Rounds(keymatlen, hashlen)) && |t.value| >= keymatlen
  {
    var rlen: nat := Rounds(keymatlen, hashlen);
    if rlen > 255 {
      return None;
    }
    var all, t1: seq<Byte> := [], [];
    var i: nat := 0;
    while i < rlen
      invariant 0 <= i <= rlen && t1 == Turn(prf, key, seed, i) && all == Yield(prf, key, seed, i)
    {
      var t2 := t1;
      t2 := AddTo(t2, seed);
      t2 := AddTo(t2, [i + 1]);
      t1 := prf(key, t2);
      all := AddTo(all, t1);
      i := i + 1;
    }
    t := Some(all);
    if Intact(|seed|, hashlen, rlen) {
      YieldIsBlocks(prf, key, seed, rlen, hashlen);
      BlocksLength(prf, key, seed, rlen, hashlen);
      RoundsSuffice(keymatlen, hashlen);
    }
  }
}
