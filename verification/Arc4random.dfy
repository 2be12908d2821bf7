/** The random stream of compat/arc4random.c, over any stream cipher, and the unbiased
    reduction of compat/arc4random_uniform.c. */
module Arc4random {
  import opened Arith
  import opened Bytes
  import opened Options

  const SEED: nat := 40
  const BUF: nat := 1024
  const REKEY_BASE: nat := 0x10_0000

  /** The cipher: a context from key and IV, the bytes it gives and the context after
      them; and exclusive or. */
  datatype Cipher<!C> = Cipher(setup: seq<Byte> -> C, stream: (C, nat) -> seq<Byte>, after: (C, nat) -> C, xor: (Byte, Byte) -> Byte)

  ghost predicate Lawful<C(!new)>(c: Cipher<C>) {
    forall x: C, n: nat :: |c.stream(x, n)| == n
  }

  /** What may be handed out of the refills: all but the start of each. */
  ghost function Usable(refills: seq<seq<Byte>>): seq<Byte>
    requires forall r :: r in refills ==> |r| == BUF
  {
    if refills == [] then []
    else
      assert refills[|refills| - 1] in refills;
      Usable(refills[..|refills| - 1]) + refills[|refills| - 1][SEED..]
  }

  ghost function Sum(s: seq<nat>): nat {
    if s == [] then 0 else Sum(s[..|s| - 1]) + s[|s| - 1]
  }

  ghost predicate Zero(s: seq<Byte>) {
    forall i :: 0 <= i < |s| ==> s[i] == 0
  }

  lemma UsableNext(refills: seq<seq<Byte>>, fill: seq<Byte>)
    requires |fill| == BUF && forall r :: r in refills ==> |r| == BUF
    ensures Usable(refills + [fill]) == Usable(refills) + fill[SEED..]
  {
    assert (refills + [fill])[..|refills|] == refills;
  }

  /** Key and IV, with the seed data mixed in. */
  function Mixed(xor: (Byte, Byte) -> Byte, s: seq<Byte>, dat: seq<Byte>): (r: seq<Byte>)
    ensures |r| == |s|
    ensures forall i :: 0 <= i < |s| ==> r[i] == if i < |dat| then xor(s[i], dat[i]) else s[i]
  {
    if s == [] || dat == [] then s else [xor(s[0], dat[0])] + Mixed(xor, s[1..], dat[1..])
  }

  /** The context after a stir: made of the seed alone if there was none, and else of the
      seed and the start of a last refill; four bytes of it give the rekey interval. */
  ghost predicate Seeded<C(!new)>(c: Cipher<C>, was: Option<C>, rnd: seq<Byte>, now: Option<C>)
    requires Lawful(c)
  {
    now == Some(c.after(c.setup(if was.None? then rnd else Mixed(c.xor, c.stream(was.value, BUF)[..SEED], rnd)), 4))
  }

  /** memcpy. */
  method CopyTo(out: array<Byte>, done: nat, bytes: seq<Byte>)
    requires done + |bytes| <= out.Length
    modifies out
    ensures out[..done + |bytes|] == old(out[..done]) + bytes
  {
    forall i | 0 <= i < |bytes| {
      out[done + i] := bytes[i];
    }
  }

  /** The keystream buffer; `have` bytes at its end are valid. */
  class Keystream {
    const buf: array<Byte>
    var have: nat

    /** All bytes before the valid ones are zero. */
    ghost predicate Valid()
      reads this, buf
    {
      buf.Length == BUF && have <= BUF - SEED && Zero(buf[..BUF - have])
    }

    ghost function Content(): seq<Byte>
      requires Valid()
      reads this, buf
    {
      buf[BUF - have..]
    }

    constructor ()
      ensures Valid() && Content() == [] && fresh(buf)
    {
      buf := new Byte[BUF](_ => 0);
      have := 0;
    }

    /** rs_buf is invalidated. */
    method Clear()
      requires buf.Length == BUF
      modifies this, buf
      ensures Valid() && Content() == []
    {
      have := 0;
      forall i | 0 <= i < BUF {
        buf[i] := 0;
      }
    }

    /** The first bytes are copied out, and their place is cleared. */
    method Take(m: nat) returns (bytes: seq<Byte>)
      requires Valid() && m <= have
      modifies this, buf
      ensures Valid() && bytes + Content() == old(Content()) && |bytes| == m
    {
      var at := BUF - have;
      bytes := buf[at..at + m];
      forall i | at <= i < at + m {
        buf[i] := 0;
      }
      have := have - m;
      assert buf[at + m..] == old(buf[at + m..]);
    }

    /** A refill, with seed data mixed into its start; that start is given out for the
        next context, and cleared. */
    method Fill(fill: seq<Byte>, dat: seq<Byte>, xor: (Byte, Byte) -> Byte) returns (seed: seq<Byte>)
      requires buf.Length == BUF == |fill| && |dat| <= SEED
      modifies this, buf
      ensures Valid() && Content() == fill[SEED..] && seed == Mixed(xor, fill[..SEED], dat)
    {
      forall i | 0 <= i < BUF {
        buf[i] := fill[i];
      }
      MixIn(fill, dat, xor);
      seed := buf[..SEED];
      forall i | 0 <= i < SEED {
        buf[i] := 0;
      }
      have := BUF - SEED;
    }

    /** The loop that mixes in seed data. */
    method MixIn(fill: seq<Byte>, dat: seq<Byte>, xor: (Byte, Byte) -> Byte)
      requires |dat| <= SEED && buf.Length == BUF && buf[..] == fill
      modifies buf
      ensures buf[..SEED] == Mixed(xor, fill[..SEED], dat) && buf[SEED..] == fill[SEED..]
    {
      var i := 0;
      while i < |dat|
        invariant 0 <= i <= |dat|
        invariant forall j :: 0 <= j < i ==> buf[j] == xor(fill[j], dat[j])
        invariant forall j :: i <= j < BUF ==> buf[j] == fill[j]
      {
        buf[i] := xor(buf[i], dat[i]);
        i := i + 1;
      }
    }
  }

  class Rng<C(!new)> {
    const cipher: Cipher<C>
    const ks: Keystream
    var ctx: Option<C>
    var count: nat
    /** Every refill of the buffer, what may be handed out of them, and the place up to
        which that is used. */
    ghost var refills: seq<seq<Byte>>
    ghost var stream: seq<Byte>
    ghost var pos: nat
    /** The budget at the last stir, and the requests since. */
    ghost var budget: nat
    ghost var requests: seq<nat>

    ghost predicate Recorded()
      reads this`refills, this`stream
    {
      Lawful(cipher) && (forall r :: r in refills ==> |r| == BUF) && stream == Usable(refills)
    }

    /** What is in the buffer is what is not yet used of the stream. */
    ghost predicate Stocked()
      reads this`stream, this`pos, ks, ks.buf
    {
      ks.Valid() && pos <= |stream| && stream[pos..] == ks.Content()
    }

    /** The requests since the last stir stay within its budget, unless a single one
        alone exceeds it; then the next one stirs. */
    ghost predicate Budgeted()
      reads this`ctx, this`count, this`budget, this`requests
    {
      || (ctx.None? && count == 0)
      || (ctx.Some? && REKEY_BASE <= budget < 2 * REKEY_BASE && Sum(requests) + count == budget)
      || (ctx.Some? && count == 0 && |requests| == 1 && requests[0] >= REKEY_BASE)
    }

    ghost predicate Valid()
      reads this, ks, ks.buf
    {
      Recorded() && Stocked() && Budgeted()
    }

    constructor (cipher: Cipher<C>)
      requires Lawful(cipher)
      ensures Valid() && refills == [] && pos == 0 && fresh(ks) && fresh(ks.buf)
    {
      this.cipher := cipher;
      ctx, count := None, 0;
      ks := new Keystream();
      refills, stream, pos, budget, requests := [], [], 0, 0, [];
    }

    /** _rs_rekey: a refill, whose start makes the next context. */
    method Rekey(dat: seq<Byte>)
      requires Recorded() && ks.buf.Length == BUF && ctx.Some? && |dat| <= SEED
      modifies this`ctx, this`refills, this`stream, this`pos, ks, ks.buf
      ensures Recorded() && Stocked() && ks.have == BUF - SEED && ctx.Some?
      ensures refills == old(refills) + [cipher.stream(old(ctx).value, BUF)]
      ensures pos == |old(stream)| && old(stream) <= stream
      ensures ctx.value == cipher.setup(Mixed(cipher.xor, cipher.stream(old(ctx).value, BUF)[..SEED], dat))
    {
      var fill := cipher.stream(ctx.value, BUF);
      var seed := ks.Fill(fill, dat, cipher.xor);
      ctx := Some(cipher.setup(seed));
      UsableNext(refills, fill);
      pos, refills, stream := |stream|, refills + [fill], stream + fill[SEED..];
    }

    /** The seed makes the context, or goes into the next one. */
    method Reseed(rnd: seq<Byte>)
      requires Recorded() && ks.buf.Length == BUF && |rnd| == SEED
      modifies this`ctx, this`refills, this`stream, this`pos, ks, ks.buf
      ensures Recorded() && old(refills) <= refills && old(stream) <= stream
      ensures refills == if old(ctx).None? then old(refills) else old(refills) + [cipher.stream(old(ctx).value, BUF)]
      ensures ctx == Some(cipher.setup(
        if old(ctx).None? then rnd else Mixed(cipher.xor, cipher.stream(old(ctx).value, BUF)[..SEED], rnd)))
    {
      if ctx.None? {
        ctx := Some(cipher.setup(rnd));
      } else {
        Rekey(rnd);
      }
    }

    /** _rs_stir: a new context from a seed, an empty buffer and a new budget. */
    method Stir(rnd: seq<Byte>)
      requires Recorded() && ks.buf.Length == BUF && |rnd| == SEED
      modifies this, ks, ks.buf
      ensures Recorded() && Stocked() && ctx.Some?
      ensures old(refills) <= refills && old(stream) <= stream && pos == |stream|
      ensures REKEY_BASE <= budget == count < 2 * REKEY_BASE && requests == []
      ensures Seeded(cipher, old(ctx), rnd, ctx)
      ensures refills == if old(ctx).None? then old(refills) else old(refills) + [cipher.stream(old(ctx).value, BUF)]
    {
      Reseed(rnd);
      ks.Clear();
      pos := |stream|;
      NewBudget();
    }

    /** The rekey interval. */
    method NewBudget()
      requires Lawful(cipher) && ctx.Some?
      modifies this`ctx, this`count, this`budget, this`requests
      ensures ctx == Some(cipher.after(old(ctx).value, 4)) && REKEY_BASE <= budget == count < 2 * REKEY_BASE && requests == []
      ensures count % REKEY_BASE == GetHost(cipher.stream(old(ctx).value, 4)) % REKEY_BASE
    {
      var fuzz := GetHost(cipher.stream(ctx.value, 4));
      ctx := Some(cipher.after(ctx.value, 4));
      count := REKEY_BASE + fuzz % REKEY_BASE;
      budget, requests := count, [];
    }

    /** A request for `len` bytes must stir: there is no context yet, the process has
        forked, or the request takes all of the budget. */
    ghost predicate Stirs(len: nat, forked: bool)
      reads this`ctx, this`count
    {
      forked || ctx.None? || count <= len
    }

    /** _rs_stir_if_needed, after _rs_forkdetect.  A stir leaves nothing of the stream so
        far to be handed out, so a forked process shares no byte with its parent. */
    method StirIfNeeded(len: nat, forked: bool, rnd: seq<Byte>)
      requires Valid() && |rnd| == SEED
      modifies this, ks, ks.buf
      ensures Valid() && ctx.Some? && old(refills) <= refills && old(stream) <= stream && old(pos) <= pos
      ensures old(Stirs(len, forked)) ==> Seeded(cipher, old(ctx), rnd, ctx) && |old(stream)| <= pos == |stream| && requests == [len]
      ensures !old(Stirs(len, forked)) ==> ctx == old(ctx) && refills == old(refills) && stream == old(stream) && pos == old(pos) && requests == old(requests) + [len]
      ensures forked ==> |old(stream)| <= pos
    {
      if forked {
        ks.have, count := 0, 0;
      }
      if ctx.None? || count <= len {
        Stir(rnd);
      }
      Charge(len);
    }

    /** The request is charged to the budget. */
    method Charge(len: nat)
      requires ctx.Some? && REKEY_BASE <= budget < 2 * REKEY_BASE && Sum(requests) + count == budget
      requires count > len || requests == []
      modifies this`count, this`requests
      ensures Budgeted() && requests == old(requests) + [len]
    {
      assert (requests + [len])[..|requests|] == requests;
      if count <= len {
        count := 0;
      } else {
        count := count - len;
      }
      requests := requests + [len];
    }

    /** _rs_random_buf: the next bytes of the refills, all in a row. */
    method RandomBuf(out: array<Byte>, forked: bool, rnd: seq<Byte>)
      requires Valid() && |rnd| == SEED && out != ks.buf
      modifies this, ks, ks.buf, out
      ensures Valid() && old(refills) <= refills && old(pos) <= pos - out.Length
      ensures pos <= |stream| && out[..] == stream[pos - out.Length..pos]
      ensures old(Stirs(out.Length, forked)) ==> |old(stream)| <= pos - out.Length
      ensures !old(Stirs(out.Length, forked)) ==> pos - out.Length == old(pos)
    {
      StirIfNeeded(out.Length, forked, rnd);
      CopyAll(out);
    }

    /** The loop of _rs_random_buf. */
    method CopyAll(out: array<Byte>)
      requires Recorded() && Stocked() && ctx.Some? && out != ks.buf
      modifies this`ctx, this`refills, this`stream, this`pos, ks, ks.buf, out
      ensures Recorded() && Stocked() && ctx.Some? && old(refills) <= refills && pos == old(pos) + out.Length
      ensures out[..] == stream[pos - out.Length..pos]
    {
      ghost var first := pos;
      var done := 0;
      while done < out.Length
        invariant Recorded() && Stocked() && ctx.Some? && old(refills) <= refills
        invariant Copied(out, done, first)
        decreases out.Length - done, BUF - ks.have
      {
        if ks.have > 0 {
          done := CopyOut(out, done, first);
        }
        if ks.have == 0 {
          Refresh(out, done, first);
        }
      }
      assert out[..] == out[..done];
    }

    /** What is copied so far is the stream from `first` on. */
    ghost predicate Copied(out: array<Byte>, done: nat, first: nat)
      reads this`stream, this`pos, out
    {
      done <= out.Length && first + done == pos <= |stream| && out[..done] == stream[first..pos]
    }

    /** One copy of the loop. */
    method CopyOut(out: array<Byte>, done: nat, ghost first: nat) returns (now: nat)
      requires Stocked() && out != ks.buf && 0 < ks.have && done < out.Length && Copied(out, done, first)
      modifies this`pos, ks, ks.buf, out
      ensures Stocked() && done < now && Copied(out, now, first)
    {
      var m := if out.Length - done < ks.have then out.Length - done else ks.have;
      var bytes := Next(m);
      CopyTo(out, done, bytes);
      Adjoin(stream, first, pos - m, pos);
      now := done + m;
    }

    /** A refill when all is used keeps what has been copied. */
    method Refresh(out: array<Byte>, done: nat, ghost first: nat)
      requires Recorded() && Stocked() && ctx.Some? && ks.have == 0 && out != ks.buf && Copied(out, done, first)
      modifies this`ctx, this`refills, this`stream, this`pos, ks, ks.buf
      ensures Recorded() && Stocked() && ctx.Some? && old(refills) <= refills && ks.have == BUF - SEED && Copied(out, done, first)
    {
      ghost var was := stream;
      assert was[pos..] == [] && pos == |was|;
      Rekey([]);
      assert stream[first..pos] == was[first..pos];
    }

    /** The next bytes of the stream leave the buffer. */
    method Next(m: nat) returns (bytes: seq<Byte>)
      requires Stocked() && m <= ks.have
      modifies this`pos, ks, ks.buf
      ensures Stocked() && pos == old(pos) + m && ks.have == old(ks.have) - m
      ensures bytes == stream[pos - m..pos]
    {
      bytes := ks.Take(m);
      Prefix(stream, pos, bytes, ks.Content());
      pos := pos + m;
    }

    static lemma Prefix(s: seq<Byte>, i: nat, a: seq<Byte>, b: seq<Byte>)
      requires i <= |s| && s[i..] == a + b
      ensures i + |a| <= |s| && s[i..i + |a|] == a && s[i + |a|..] == b
    {
      assert s[i..i + |a|] == s[i..][..|a|] && s[i + |a|..] == s[i..][|a|..];
    }

    /** _rs_random_u32: four bytes in a row of the refills. */
    method RandomU32(forked: bool, rnd: seq<Byte>) returns (val: Word32)
      requires Valid() && |rnd| == SEED
      modifies this, ks, ks.buf
      ensures Valid() && old(refills) <= refills && old(pos) <= pos - 4
      ensures pos <= |stream| && val == GetHost(stream[pos - 4..pos])
      ensures old(Stirs(4, forked)) ==> |old(stream)| <= pos - 4
      ensures !old(Stirs(4, forked)) ==> pos - 4 == if old(pos) + 4 <= |old(stream)| then old(pos) else |old(stream)|
    {
      StirIfNeeded(4, forked, rnd);
      val := Word();
    }

    method Word() returns (val: Word32)
      requires Recorded() && Stocked() && ctx.Some?
      modifies this`ctx, this`refills, this`stream, this`pos, ks, ks.buf
      ensures Recorded() && Stocked() && ctx.Some? && old(refills) <= refills && old(pos) + 4 <= pos
      ensures val == GetHost(stream[pos - 4..pos])
      ensures pos - 4 == if old(pos) + 4 <= |old(stream)| then old(pos) else |old(stream)|
    {
      if ks.have < 4 {
        Rekey([]);
      }
      var bytes := Next(4);
      val := GetHost(bytes);
    }

    /** Between two stirs less than two rekey intervals are handed out, unless a single
        request alone takes more than one. */
    lemma HandedOut()
      requires Valid() && ctx.Some?
      ensures Sum(requests) < 2 * REKEY_BASE || (|requests| == 1 && requests[0] >= REKEY_BASE)
    {}
  }

  // ----- arc4random_uniform -----

  const RANGE: nat := 0x1_0000_0000

  /** The draws below which arc4random_uniform draws again: -b % b in 32 bits. */
  function Skipped(b: Word32): nat
    requires b >= 2
  {
    (RANGE - b) % b
  }

  lemma SkippedIsRemainder(b: Word32)
    requires b >= 2
    ensures Skipped(b) == RANGE % b
  {
    var q, r := RANGE / b, RANGE % b;
    assert RANGE == b * q + r;
    assert RANGE - b == b * (q - 1) + r;
    DivMod(b, q - 1, r);
  }

  /** The accepted draws that give `x`. */
  function Preimages(b: Word32, x: nat): set<int>
    requires b >= 2
  {
    set r: int | Skipped(b) <= r < RANGE && r % b == x
  }

  /** Every result has the same number of accepted draws. */
  lemma Unbiased(b: Word32, x: nat)
    requires b >= 2 && x < b
    ensures |Preimages(b, x)| == RANGE / b
  {
    SkippedIsRemainder(b);
    var m, q := Skipped(b), RANGE / b;
    assert RANGE == m + b * q;
    var s := Residues(m, b, x, q);
    assert s == Preimages(b, x);
  }

  /** Of the `q * b` numbers from `m` on, `q` have the remainder `x`. */
  lemma {:induction false} Residues(m: nat, b: nat, x: nat, q: nat) returns (s: set<int>)
    requires b > 0 && x < b
    ensures |s| == q && forall r :: r in s <==> m <= r < m + b * q && r % b == x
  {
    if q == 0 {
      s := {};
    } else {
      var t := Residues(m, b, x, q - 1);
      var from := m + b * (q - 1);
      assert b * q == b * (q - 1) + b;
      var y := OneResidue(from, b, x);
      s := t + {y};
    }
  }

  /** Exactly one of `b` numbers in a row has a given remainder. */
  lemma OneResidue(from: nat, b: nat, x: nat) returns (y: int)
    requires b > 0 && x < b
    ensures from <= y < from + b && y % b == x
    ensures forall r :: from <= r < from + b && r % b == x ==> r == y
  {
    var q, r := from / b, from % b;
    assert from == b * q + r;
    y := if x >= r then b * q + x else b * (q + 1) + x;
    assert b * (q + 1) == b * q + b;
    DivMod(b, q, x);
    DivMod(b, q + 1, x);
    forall z | from <= z < from + b && z % b == x
      ensures z == y
    {
      var p := z / b;
      assert z == b * p + x;
      var k := if x >= r then q else q + 1;
      assert b * (p - k) == z - y;
      SmallMultiple(b, p - k);
    }
  }

  /** More than half of all draws are accepted. */
  lemma MoreThanHalf(b: Word32)
    requires b >= 2
    ensures 2 * (RANGE - Skipped(b)) > RANGE
  {
    SkippedIsRemainder(b);
    var q, r := RANGE / b, RANGE % b;
    assert RANGE == b * q + r;
    assert q >= 1;
    assert b * q >= b;
  }

  ghost predicate FirstAccepted(b: Word32, draws: seq<Word32>, i: nat)
    requires b >= 2
  {
    i < |draws| && draws[i] >= Skipped(b) && forall j :: 0 <= j < i ==> draws[j] < Skipped(b)
  }

  /** The loop over the draws `draws`; None if they are all refused. */
  method Uniform(b: Word32, draws: seq<Word32>) returns (x: Option<Word32>)
    ensures b < 2 ==> x == Some(0)
    ensures b >= 2 && x.Some? ==> x.value < b && exists i: nat :: FirstAccepted(b, draws, i) && draws[i] in Preimages(b, x.value)
    ensures b >= 2 ==> (x.None? <==> forall j :: 0 <= j < |draws| ==> draws[j] < Skipped(b))
  {
    if b < 2 {
      return Some(0);
    }
    var min := (RANGE - b) % b;
    var i := 0;
    while i < |draws|
      invariant 0 <= i <= |draws| && forall j :: 0 <= j < i ==> draws[j] < Skipped(b)
    {
      var r := draws[i];
      if r >= min {
        assert FirstAccepted(b, draws, i) && r in Preimages(b, r % b);
        return Some(r % b);
      }
      i := i + 1;
    }
    x := None;
  }
}
