/** The keys of Child SAs (the key part of ikev2_childsa_negotiate in iked/ikev2.c;
    section 2.17 of RFC 7296). */
module KeyMaterial {
  import opened Bytes
  import opened Ikev2
  import opened KeyExpansion
  import opened SecureMessage
  import opened Options

  // ----- the proposals of a Child SA -----

  /** A proposal agreed on, with the SPIs of both sides. */
  datatype Agreed = Agreed(protoid: Byte, xforms: seq<Transform>, localspi: nat, peerspi: nat)

  /** keylength_xf and noncelength_xf, in bits. */
  datatype Tables = Tables(keylength: (Byte, Byte, Word16) -> nat, noncelength: (Byte, Word16) -> nat)

  function KeyBytes(tb: Tables, protoid: Byte, x: Transform): nat {
    ((if x.length != 0 then x.length else tb.keylength(protoid, x.kind, x.id)) + tb.noncelength(x.kind, x.id)) / 8
  }

  function TransformsLength(tb: Tables, protoid: Byte, xs: seq<Transform>): nat {
    if xs == [] then 0
    else
      var x := xs[|xs| - 1];
      TransformsLength(tb, protoid, xs[..|xs| - 1]) + if x.kind == ENCR || x.kind == INTEGR then KeyBytes(tb, protoid, x) else 0
  }

  function MaterialLength(tb: Tables, ps: seq<Agreed>): nat {
    if ps == [] then 0
    else
      var p := ps[|ps| - 1];
      MaterialLength(tb, ps[..|ps| - 1]) + if p.protoid == PROTO_IKE then 0 else TransformsLength(tb, p.protoid, p.xforms)
  }

  /** The loop that finds the length of the key material. */
  method KeyLength(tb: Tables, ps: seq<Agreed>) returns (ilen: nat)
    ensures ilen == 2 * MaterialLength(tb, ps)
  {
    ilen := 0;
    for j := 0 to |ps|
      invariant ilen == MaterialLength(tb, ps[..j])
    {
      assert ps[..j + 1][..j] == ps[..j];
      var p := ps[j];
      if p.protoid != PROTO_IKE {
        ghost var was := ilen;
        for i := 0 to |p.xforms|
          invariant ilen == was + TransformsLength(tb, p.protoid, p.xforms[..i])
        {
          assert p.xforms[..i + 1][..i] == p.xforms[..i];
          var x := p.xforms[i];
          if x.kind == ENCR || x.kind == INTEGR {
            ilen := ilen + KeyBytes(tb, p.protoid, x);
          }
        }
        assert p.xforms[..|p.xforms|] == p.xforms;
      }
    }
    assert ps[..|ps|] == ps;
    ilen := ilen * 2;
  }

  function Last(xs: seq<Transform>, kind: Byte): Option<Transform> {
    if xs == [] then None
    else if xs[|xs| - 1].kind == kind then Some(xs[|xs| - 1]) else Last(xs[..|xs| - 1], kind)
  }

  predicate Usable(p: Agreed) {
    || (p.protoid == PROTO_AH && Last(p.xforms, INTEGR).Some?)
    || (p.protoid == PROTO_ESP && Last(p.xforms, ENCR).Some?)
  }

  /** ikev2_valid_proposal. */
  method ValidProposal(p: Agreed) returns (ok: bool, encr: Option<Transform>, integr: Option<Transform>, esn: bool)
    ensures ok <==> Usable(p)
    ensures ok ==> encr == Last(p.xforms, ENCR) && integr == Last(p.xforms, INTEGR)
    ensures ok ==> (esn <==> exists i :: 0 <= i < |p.xforms| && p.xforms[i].kind == ESN && p.xforms[i].id == 1)
  {
    encr, integr, esn := None, None, false;
    if p.protoid != PROTO_ESP && p.protoid != PROTO_AH {
      return false, None, None, false;
    }
    for i := 0 to |p.xforms|
      invariant encr == Last(p.xforms[..i], ENCR) && integr == Last(p.xforms[..i], INTEGR)
      invariant esn <==> exists j :: 0 <= j < i && p.xforms[j].kind == ESN && p.xforms[j].id == 1
    {
      assert p.xforms[..i + 1][..i] == p.xforms[..i];
      var x := p.xforms[i];
      if x.kind == ENCR {
        encr := Some(x);
      } else if x.kind == INTEGR {
        integr := Some(x);
      } else if x.kind == ESN && x.id == 1 {
        esn := true;
      }
    }
    assert p.xforms[..|p.xforms|] == p.xforms;
    ok := if p.protoid == PROTO_AH then integr.Some? else encr.Some?;
  }

  // ----- the keys of a pair of Child SAs -----

  datatype ChildSa = ChildSa(protoid: Byte, out: bool, spi: nat, peerspi: nat,
                             encr: Option<Transform>, integr: Option<Transform>, encrkey: seq<Byte>, integrkey: seq<Byte>)

  function LengthOf(tb: Tables, protoid: Byte, x: Option<Transform>): nat {
    if x.None? then 0 else KeyBytes(tb, protoid, x.value)
  }

  /** The bytes of key material that one direction of a proposal takes. */
  function Need(tb: Tables, p: Agreed): nat {
    LengthOf(tb, p.protoid, Last(p.xforms, ENCR)) + LengthOf(tb, p.protoid, Last(p.xforms, INTEGR))
  }

  function NeedAll(tb: Tables, ps: seq<Agreed>): nat {
    if ps == [] then 0
    else NeedAll(tb, ps[..|ps| - 1]) + if Usable(ps[|ps| - 1]) then 2 * Need(tb, ps[|ps| - 1]) else 0
  }

  lemma {:induction false} LastCounted(tb: Tables, protoid: Byte, xs: seq<Transform>)
    ensures LengthOf(tb, protoid, Last(xs, ENCR)) + LengthOf(tb, protoid, Last(xs, INTEGR)) <= TransformsLength(tb, protoid, xs)
  {
    if xs != [] {
      LastCounted(tb, protoid, xs[..|xs| - 1]);
    }
  }

  /** The key material does not run short. */
  lemma {:induction false} MaterialSuffices(tb: Tables, ps: seq<Agreed>)
    ensures NeedAll(tb, ps) <= 2 * MaterialLength(tb, ps)
  {
    if ps != [] {
      var p := ps[|ps| - 1];
      LastCounted(tb, p.protoid, p.xforms);
      MaterialSuffices(tb, ps[..|ps| - 1]);
    }
  }

  /** At most one transform of a kind. */
  predicate Single(xs: seq<Transform>, kind: Byte) {
    forall i, j :: 0 <= i < j < |xs| && xs[i].kind == kind ==> xs[j].kind != kind
  }

  lemma {:induction false} SingleCounted(tb: Tables, protoid: Byte, xs: seq<Transform>)
    requires Single(xs, ENCR) && Single(xs, INTEGR)
    ensures LengthOf(tb, protoid, Last(xs, ENCR)) + LengthOf(tb, protoid, Last(xs, INTEGR)) == TransformsLength(tb, protoid, xs)
  {
    if xs != [] {
      var n := |xs| - 1;
      SingleCounted(tb, protoid, xs[..n]);
      LastIs(xs[..n], xs[n].kind);
    }
  }

  /** Nor is there more of it than the keys of the agreed proposals take. */
  lemma {:induction false} MaterialExact(tb: Tables, ps: seq<Agreed>)
    requires forall p :: p in ps ==> p.protoid == PROTO_IKE || (Usable(p) && Single(p.xforms, ENCR) && Single(p.xforms, INTEGR))
    ensures NeedAll(tb, ps) == 2 * MaterialLength(tb, ps)
  {
    if ps != [] {
      var p := ps[|ps| - 1];
      assert p in ps;
      MaterialExact(tb, ps[..|ps| - 1]);
      if p.protoid != PROTO_IKE {
        SingleCounted(tb, p.protoid, p.xforms);
      }
    }
  }

  /** The slice of the key material that follows `used` bytes, as two Child SAs: the
      first carries the initiator's traffic, the second the responder's. */
  function Pair(tb: Tables, initiator: bool, p: Agreed, spi: nat, keymat: seq<Byte>, used: nat): seq<ChildSa>
    requires used + 2 * Need(tb, p) <= |keymat|
  {
    var e, i := Last(p.xforms, ENCR), Last(p.xforms, INTEGR);
    var el, n := LengthOf(tb, p.protoid, e), Need(tb, p);
    var own, peer := if initiator then p.peerspi else spi, if initiator then p.localspi else p.peerspi;
    [ChildSa(p.protoid, initiator, own, peer, e, i, keymat[used..used + el], keymat[used + el..used + n]),
     ChildSa(p.protoid, !initiator, peer, own, e, i, keymat[used + n..used + n + el], keymat[used + n + el..used + 2 * n])]
  }

  /** The Child SAs of all proposals; `spis` are those that the responder allocates. */
  function Children(tb: Tables, initiator: bool, ps: seq<Agreed>, spis: seq<nat>, keymat: seq<Byte>): seq<ChildSa>
    requires NeedAll(tb, ps) <= |keymat| && (!initiator ==> |spis| == |ps|)
  {
    if ps == [] then []
    else
      var p, n := ps[|ps| - 1], |ps| - 1;
      var before := Children(tb, initiator, ps[..n], if initiator then [] else spis[..n], keymat);
      if Usable(p) then before + Pair(tb, initiator, p, if initiator then 0 else spis[n], keymat, NeedAll(tb, ps[..n])) else before
  }

  /** The keys in the order in which they are cut. */
  function Keys(cs: seq<ChildSa>): seq<Byte> {
    if cs == [] then [] else Keys(cs[..|cs| - 1]) + (cs[|cs| - 1].encrkey + cs[|cs| - 1].integrkey)
  }

  lemma {:induction false} KeysAppend(a: seq<ChildSa>, b: seq<ChildSa>)
    ensures Keys(a + b) == Keys(a) + Keys(b)
  {
    if b == [] {
      assert a + b == a;
    } else {
      assert (a + b)[..|a + b| - 1] == a + b[..|b| - 1];
      KeysAppend(a, b[..|b| - 1]);
    }
  }

  lemma {:induction false} PairKeys(tb: Tables, initiator: bool, p: Agreed, spi: nat, keymat: seq<Byte>, used: nat)
    requires used + 2 * Need(tb, p) <= |keymat|
    ensures Keys(Pair(tb, initiator, p, spi, keymat, used)) == keymat[used..used + 2 * Need(tb, p)]
  {
    var el, n := LengthOf(tb, p.protoid, Last(p.xforms, ENCR)), Need(tb, p);
    var cs := Pair(tb, initiator, p, spi, keymat, used);
    JoinFour(cs, keymat, used, used + el, used + n, used + n + el, used + 2 * n);
  }

  lemma {:induction false} JoinFour(cs: seq<ChildSa>, s: seq<Byte>, a: nat, b: nat, c: nat, d: nat, e: nat)
    requires |cs| == 2 && a <= b <= c <= d <= e <= |s|
    requires cs[0].encrkey == s[a..b] && cs[0].integrkey == s[b..c] && cs[1].encrkey == s[c..d] && cs[1].integrkey == s[d..e]
    ensures Keys(cs) == s[a..e]
  {
    assert cs == [cs[0], cs[1]];
    KeysTwo(cs[0], cs[1]);
    FourPieces(s, a, b, c, d, e);
  }

  lemma FourPieces(s: seq<Byte>, a: nat, b: nat, c: nat, d: nat, e: nat)
    requires a <= b <= c <= d <= e <= |s|
    ensures (s[a..b] + s[b..c]) + (s[c..d] + s[d..e]) == s[a..e]
  {
    Adjoin(s, a, b, c);
    Adjoin(s, c, d, e);
    Adjoin(s, a, c, e);
  }

  lemma KeysTwo(a: ChildSa, b: ChildSa)
    ensures Keys([a, b]) == (a.encrkey + a.integrkey) + (b.encrkey + b.integrkey)
  {
    assert [a, b][..1] == [a] && [a][..0] == [];
    assert Keys([a]) == a.encrkey + a.integrkey;
  }

  lemma KeysNext(cs: seq<ChildSa>, pair: seq<ChildSa>, keymat: seq<Byte>, used: nat, next: nat)
    requires used <= next <= |keymat| && Keys(cs) == keymat[..used] && Keys(pair) == keymat[used..next]
    ensures Keys(cs + pair) == keymat[..next]
  {
    KeysAppend(cs, pair);
    Adjoin(keymat, 0, used, next);
  }

  /** All keys together are the key material from its start: no two of them share a
      byte, and none is left out between them. */
  lemma {:induction false} KeysTile(tb: Tables, initiator: bool, ps: seq<Agreed>, spis: seq<nat>, keymat: seq<Byte>)
    requires NeedAll(tb, ps) <= |keymat| && (!initiator ==> |spis| == |ps|)
    ensures Keys(Children(tb, initiator, ps, spis, keymat)) == keymat[..NeedAll(tb, ps)]
  {
    if ps != [] {
      var p, n := ps[|ps| - 1], |ps| - 1;
      var init, spis' := ps[..n], if initiator then [] else spis[..n];
      var used := NeedAll(tb, init);
      var before := Children(tb, initiator, init, spis', keymat);
      KeysTile(tb, initiator, init, spis', keymat);
      if Usable(p) {
        var spi := if initiator then 0 else spis[n];
        PairKeys(tb, initiator, p, spi, keymat, used);
        KeysNext(before, Pair(tb, initiator, p, spi, keymat, used), keymat, used, used + 2 * Need(tb, p));
      }
    }
  }

  /** The two sides of a negotiation: the same protocols and transforms, each knows the
      other's SPI, and the initiator has learnt the SPIs the responder allocated. */
  predicate SameNegotiation(ps: seq<Agreed>, qs: seq<Agreed>, spis: seq<nat>) {
    && |ps| == |qs| == |spis|
    && forall j :: 0 <= j < |ps| ==>
         ps[j].protoid == qs[j].protoid && ps[j].xforms == qs[j].xforms && ps[j].localspi == qs[j].peerspi && ps[j].peerspi == spis[j]
  }

  /** The Child SA of the other side that carries the same traffic. */
  predicate Matches(a: ChildSa, b: ChildSa) {
    a == b.(out := !b.out)
  }

  predicate AllMatch(cs: seq<ChildSa>, ds: seq<ChildSa>) {
    |cs| == |ds| && forall j :: 0 <= j < |cs| ==> Matches(cs[j], ds[j])
  }

  lemma {:induction false} SameNeed(tb: Tables, ps: seq<Agreed>, qs: seq<Agreed>, spis: seq<nat>)
    requires SameNegotiation(ps, qs, spis)
    ensures NeedAll(tb, ps) == NeedAll(tb, qs)
  {
    if ps != [] {
      var n := |ps| - 1;
      SameNeed(tb, ps[..n], qs[..n], spis[..n]);
      assert ps[n].protoid == qs[n].protoid;
    }
  }

  /** With equal key material, each Child SA of one side has the SPI, the transforms and
      the keys of the one at the other side with the opposite direction. */
  lemma {:induction false} SidesMatch(tb: Tables, ps: seq<Agreed>, qs: seq<Agreed>, spis: seq<nat>, keymat: seq<Byte>)
    requires SameNegotiation(ps, qs, spis) && NeedAll(tb, ps) <= |keymat|
    ensures NeedAll(tb, qs) <= |keymat|
    ensures AllMatch(Children(tb, true, ps, [], keymat), Children(tb, false, qs, spis, keymat))
  {
    SameNeed(tb, ps, qs, spis);
    if ps != [] {
      var n := |ps| - 1;
      SidesMatch(tb, ps[..n], qs[..n], spis[..n], keymat);
      SameNeed(tb, ps[..n], qs[..n], spis[..n]);
      if Usable(ps[n]) {
        PairMatch(tb, ps[n], qs[n], spis[n], keymat, NeedAll(tb, ps[..n]));
      }
    }
  }

  lemma {:induction false} SameLength(tb: Tables, ps: seq<Agreed>, qs: seq<Agreed>, spis: seq<nat>)
    requires SameNegotiation(ps, qs, spis)
    ensures MaterialLength(tb, ps) == MaterialLength(tb, qs)
  {
    if ps != [] {
      var n := |ps| - 1;
      SameLength(tb, ps[..n], qs[..n], spis[..n]);
      assert ps[n].protoid == qs[n].protoid;
    }
  }

  /** How many proposals get their keys from material of `len` bytes. */
  function Reach(tb: Tables, ps: seq<Agreed>, len: nat): (j: nat)
    ensures j <= |ps| && NeedAll(tb, ps[..j]) <= len
    ensures j < |ps| ==> NeedAll(tb, ps[..j + 1]) > len
  {
    if NeedAll(tb, ps) <= len then
      assert ps[..|ps|] == ps;
      |ps|
    else
      var n := |ps| - 1;
      var j := Reach(tb, ps[..n], len);
      assert ps[..n][..j] == ps[..j] && (j < n ==> ps[..n][..j + 1] == ps[..j + 1]) && ps[..n + 1] == ps;
      j
  }

  /** The Child SAs that the loop makes, up to the proposal that lacks keys. */
  function Made(tb: Tables, initiator: bool, ps: seq<Agreed>, spis: seq<nat>, keymat: seq<Byte>): seq<ChildSa>
    requires !initiator ==> |spis| == |ps|
  {
    var j := Reach(tb, ps, |keymat|);
    Children(tb, initiator, ps[..j], if initiator then [] else spis[..j], keymat)
  }

  // ----- what each Child SA is -----

  /** The transform that a proposal with several of a kind takes is the last of them. */
  lemma {:induction false} LastIs(xs: seq<Transform>, kind: Byte)
    ensures Last(xs, kind).None? <==> forall i :: 0 <= i < |xs| ==> xs[i].kind != kind
    ensures forall i :: 0 <= i < |xs| && xs[i].kind == kind && (forall k :: i < k < |xs| ==> xs[k].kind != kind) ==>
              Last(xs, kind) == Some(xs[i])
  {
    if xs != [] {
      LastIs(xs[..|xs| - 1], kind);
    }
  }

  /** A key of `x` as long as its table says, in whole bytes; none without a transform. */
  predicate Fits(tb: Tables, protoid: Byte, x: Option<Transform>, key: seq<Byte>) {
    match x
    case None => key == []
    case Some(t) =>
      var bits := (if t.length != 0 then t.length else tb.keylength(protoid, t.kind, t.id)) + tb.noncelength(t.kind, t.id);
      8 * |key| <= bits < 8 * |key| + 8
  }

  /** Traffic goes out under the SPI that the peer allocated and comes in under the one
      allocated here; each of the two Child SAs knows the other's. */
  ghost predicate Directed(p: Agreed, ours: nat, out: ChildSa, back: ChildSa) {
    && out.out && out.spi == p.peerspi && out.peerspi == ours
    && !back.out && back.spi == ours && back.peerspi == p.peerspi
    && out.protoid == back.protoid == p.protoid
    && out.encr == back.encr == Last(p.xforms, ENCR) && out.integr == back.integr == Last(p.xforms, INTEGR)
  }

  /** The keys follow `used` bytes of the key material, `first` before `second` and
      encryption before integrity. */
  predicate Keyed(tb: Tables, keymat: seq<Byte>, used: nat, first: ChildSa, second: ChildSa) {
    && Fits(tb, first.protoid, first.encr, first.encrkey) && Fits(tb, first.protoid, first.integr, first.integrkey)
    && Fits(tb, second.protoid, second.encr, second.encrkey) && Fits(tb, second.protoid, second.integr, second.integrkey)
    && used <= |keymat| && first.encrkey + first.integrkey + second.encrkey + second.integrkey <= keymat[used..]
  }

  /** The two Child SAs of a proposal: the initiator's traffic takes its keys first. */
  ghost predicate Carries(tb: Tables, initiator: bool, p: Agreed, ours: nat, keymat: seq<Byte>, used: nat, first: ChildSa, second: ChildSa) {
    && Keyed(tb, keymat, used, first, second)
    && if initiator then Directed(p, ours, first, second) else Directed(p, ours, second, first)
  }

  function UsableCount(ps: seq<Agreed>): nat {
    if ps == [] then 0 else UsableCount(ps[..|ps| - 1]) + if Usable(ps[|ps| - 1]) then 1 else 0
  }

  lemma KeyFits(tb: Tables, protoid: Byte, x: Option<Transform>, key: seq<Byte>)
    requires |key| == LengthOf(tb, protoid, x)
    ensures Fits(tb, protoid, x, key)
  {}

  lemma CutKeyed(tb: Tables, protoid: Byte, e: Option<Transform>, i: Option<Transform>, s: seq<Byte>,
                 a: nat, b: nat, c: nat, d: nat, n: nat, first: ChildSa, second: ChildSa)
    requires a <= b <= c <= d <= n <= |s|
    requires b - a == d - c == LengthOf(tb, protoid, e) && c - b == n - d == LengthOf(tb, protoid, i)
    requires first.protoid == second.protoid == protoid && first.encr == second.encr == e && first.integr == second.integr == i
    requires first.encrkey == s[a..b] && first.integrkey == s[b..c] && second.encrkey == s[c..d] && second.integrkey == s[d..n]
    ensures Keyed(tb, s, a, first, second)
  {
    KeyFits(tb, protoid, e, first.encrkey);
    KeyFits(tb, protoid, i, first.integrkey);
    KeyFits(tb, protoid, e, second.encrkey);
    KeyFits(tb, protoid, i, second.integrkey);
    FourOnward(s, a, b, c, d, n);
  }

  lemma PairCarries(tb: Tables, initiator: bool, p: Agreed, spi: nat, keymat: seq<Byte>, used: nat)
    requires used + 2 * Need(tb, p) <= |keymat|
    ensures var cs := Pair(tb, initiator, p, spi, keymat, used);
      Carries(tb, initiator, p, if initiator then p.localspi else spi, keymat, used, cs[0], cs[1])
  {
    var e, i := Last(p.xforms, ENCR), Last(p.xforms, INTEGR);
    var el, n := LengthOf(tb, p.protoid, e), Need(tb, p);
    var cs := Pair(tb, initiator, p, spi, keymat, used);
    CutKeyed(tb, p.protoid, e, i, keymat, used, used + el, used + n, used + n + el, used + 2 * n, cs[0], cs[1]);
  }

  lemma FourOnward(s: seq<Byte>, a: nat, b: nat, c: nat, d: nat, e: nat)
    requires a <= b <= c <= d <= e <= |s|
    ensures s[a..b] + s[b..c] + s[c..d] + s[d..e] <= s[a..]
  {
    Adjoin(s, a, b, c);
    Adjoin(s, a, c, d);
    Adjoin(s, a, d, e);
  }

  predicate Holds(s: seq<ChildSa>, at: nat, x: seq<ChildSa>) {
    at + |x| <= |s| && s[at..at + |x|] == x
  }

  lemma Kept(a: seq<ChildSa>, b: seq<ChildSa>, at: nat, x: seq<ChildSa>)
    ensures Holds(a, at, x) ==> Holds(a + b, at, x)
    ensures Holds(a + b, |a|, b)
  {
    if Holds(a, at, x) {
      assert (a + b)[at..at + |x|] == a[at..at + |x|];
    }
  }

  /** The pair of each usable proposal is in its place. */
  lemma {:induction false} PairAt(tb: Tables, initiator: bool, ps: seq<Agreed>, spis: seq<nat>, keymat: seq<Byte>, j: nat)
    requires NeedAll(tb, ps) <= |keymat| && (!initiator ==> |spis| == |ps|) && j < |ps| && Usable(ps[j])
    ensures NeedAll(tb, ps[..j]) + 2 * Need(tb, ps[j]) <= |keymat|
    ensures Holds(Children(tb, initiator, ps, spis, keymat), 2 * UsableCount(ps[..j]),
                  Pair(tb, initiator, ps[j], if initiator then 0 else spis[j], keymat, NeedAll(tb, ps[..j])))
  {
    var n := |ps| - 1;
    var spis' := if initiator then [] else spis[..n];
    var before := Children(tb, initiator, ps[..n], spis', keymat);
    PairCount(tb, initiator, ps[..n], spis', keymat);
    if j < n {
      assert ps[..n][..j] == ps[..j];
      PairAt(tb, initiator, ps[..n], spis', keymat, j);
    }
    if Usable(ps[n]) {
      var last := Pair(tb, initiator, ps[n], if initiator then 0 else spis[n], keymat, NeedAll(tb, ps[..n]));
      var mine := Pair(tb, initiator, ps[j], if initiator then 0 else spis[j], keymat, NeedAll(tb, ps[..j]));
      Kept(before, last, 2 * UsableCount(ps[..j]), mine);
    }
  }

  lemma {:induction false} PairCount(tb: Tables, initiator: bool, ps: seq<Agreed>, spis: seq<nat>, keymat: seq<Byte>)
    requires NeedAll(tb, ps) <= |keymat| && (!initiator ==> |spis| == |ps|)
    ensures |Children(tb, initiator, ps, spis, keymat)| == 2 * UsableCount(ps)
  {
    if ps != [] {
      var n := |ps| - 1;
      PairCount(tb, initiator, ps[..n], if initiator then [] else spis[..n], keymat);
    }
  }

  /** Every usable proposal that gets keys has its two Child SAs, and there are no others. */
  lemma {:induction false} MadeCarries(tb: Tables, initiator: bool, ps: seq<Agreed>, spis: seq<nat>, keymat: seq<Byte>, j: nat)
    requires !initiator ==> |spis| == |ps|
    ensures |Made(tb, initiator, ps, spis, keymat)| == 2 * UsableCount(ps[..Reach(tb, ps, |keymat|)])
    ensures j < Reach(tb, ps, |keymat|) && Usable(ps[j]) ==>
      var cs, at := Made(tb, initiator, ps, spis, keymat), 2 * UsableCount(ps[..j]);
      && at + 2 <= |cs|
      && Carries(tb, initiator, ps[j], if initiator then ps[j].localspi else spis[j], keymat, NeedAll(tb, ps[..j]), cs[at], cs[at + 1])
  {
    var r := Reach(tb, ps, |keymat|);
    var spis' := if initiator then [] else spis[..r];
    PairCount(tb, initiator, ps[..r], spis', keymat);
    if j < r && Usable(ps[j]) {
      assert ps[..r][..j] == ps[..j];
      PairAt(tb, initiator, ps[..r], spis', keymat, j);
      PairCarries(tb, initiator, ps[j], if initiator then 0 else spis[j], keymat, NeedAll(tb, ps[..j]));
    }
  }

  lemma {:induction false} SameReach(tb: Tables, ps: seq<Agreed>, qs: seq<Agreed>, spis: seq<nat>, len: nat)
    requires SameNegotiation(ps, qs, spis)
    ensures Reach(tb, ps, len) == Reach(tb, qs, len)
  {
    SameNeed(tb, ps, qs, spis);
    if NeedAll(tb, ps) > len {
      var n := |ps| - 1;
      SameReach(tb, ps[..n], qs[..n], spis[..n], len);
    }
  }

  /** The length of the key material that ikev2_prfplus gives. */
  lemma MaterialFits(tb: Tables, prf: Prf, key: seq<Byte>, seed: seq<Byte>, hashlen: nat, ps: seq<Agreed>)
    requires hashlen > 0 && Gives(prf, hashlen) && Rounds(2 * MaterialLength(tb, ps), hashlen) <= 255
    ensures var km := Yield(prf, key, seed, Rounds(2 * MaterialLength(tb, ps), hashlen));
      NeedAll(tb, ps) <= |km| <==> NeedAll(tb, ps) <= MSGBUF_MAX / hashlen * hashlen
  {
    var n := Rounds(2 * MaterialLength(tb, ps), hashlen);
    RoundsSuffice(2 * MaterialLength(tb, ps), hashlen);
    MaterialSuffices(tb, ps);
    YieldCut(prf, key, seed, n, hashlen);
    Below(n, MSGBUF_MAX / hashlen, hashlen);
  }

  lemma Below(n: nat, m: nat, h: nat)
    ensures n < m ==> n * h <= m * h
  {}

  /** The whole derivation: from the same key and seed, each side computes the length of
      the key material from its own proposals, expands the key and cuts its Child SAs.
      They match, whatever the buffers of ikev2_prfplus drop; and no proposal lacks keys
      exactly when they fit the blocks that a buffer takes. */
  lemma {:induction false} ChildKeysMatch(tb: Tables, prf: Prf, key: seq<Byte>, seed: seq<Byte>, hashlen: nat,
                       ps: seq<Agreed>, qs: seq<Agreed>, spis: seq<nat>)
    requires SameNegotiation(ps, qs, spis) && hashlen > 0 && Gives(prf, hashlen)
    requires Rounds(2 * MaterialLength(tb, ps), hashlen) <= 255
    ensures Rounds(2 * MaterialLength(tb, qs), hashlen) <= 255
    ensures var km, km' := Yield(prf, key, seed, Rounds(2 * MaterialLength(tb, ps), hashlen)), Yield(prf, key, seed, Rounds(2 * MaterialLength(tb, qs), hashlen));
      && Reach(tb, ps, |km|) == Reach(tb, qs, |km'|)
      && (Reach(tb, ps, |km|) == |ps| <==> NeedAll(tb, ps) <= MSGBUF_MAX / hashlen * hashlen)
      && AllMatch(Made(tb, true, ps, [], km), Made(tb, false, qs, spis, km'))
  {
    SameLength(tb, ps, qs, spis);
    var km := Yield(prf, key, seed, Rounds(2 * MaterialLength(tb, ps), hashlen));
    SameReach(tb, ps, qs, spis, |km|);
    MaterialFits(tb, prf, key, seed, hashlen, ps);
    ReachAll(tb, ps, |km|);
    MadeMatch(tb, ps, qs, spis, km);
  }

  lemma {:induction false} MadeMatch(tb: Tables, ps: seq<Agreed>, qs: seq<Agreed>, spis: seq<nat>, keymat: seq<Byte>)
    requires SameNegotiation(ps, qs, spis)
    ensures AllMatch(Made(tb, true, ps, [], keymat), Made(tb, false, qs, spis, keymat))
  {
    SameReach(tb, ps, qs, spis, |keymat|);
    var j := Reach(tb, ps, |keymat|);
    SidesMatch(tb, ps[..j], qs[..j], spis[..j], keymat);
  }

  lemma {:induction false} ReachAll(tb: Tables, ps: seq<Agreed>, len: nat)
    ensures Reach(tb, ps, len) == |ps| <==> NeedAll(tb, ps) <= len
  {
    assert ps[..|ps|] == ps;
  }

  lemma PairMatch(tb: Tables, p: Agreed, q: Agreed, spi: nat, keymat: seq<Byte>, used: nat)
    requires p.protoid == q.protoid && p.xforms == q.xforms && p.localspi == q.peerspi && p.peerspi == spi
    requires used + 2 * Need(tb, p) <= |keymat|
    ensures var cs, ds := Pair(tb, true, p, 0, keymat, used), Pair(tb, false, q, spi, keymat, used);
      Matches(cs[0], ds[0]) && Matches(cs[1], ds[1]) && cs[0].out && !cs[1].out
  {}

  // ----- the loop that cuts them -----

  /** ibuf_getdata. */
  method GetData(rest: seq<Byte>, x: Option<Transform>, tb: Tables, protoid: Byte) returns (key: Option<seq<Byte>>, after: seq<Byte>)
    ensures key.Some? <==> LengthOf(tb, protoid, x) <= |rest|
    ensures key.Some? ==> key.value == rest[..LengthOf(tb, protoid, x)] && after == rest[LengthOf(tb, protoid, x)..]
  {
    if x.None? {
      return Some([]), rest;
    }
    var len := KeyBytes(tb, protoid, x.value);
    if |rest| < len {
      return None, rest;
    }
    return Some(rest[..len]), rest[len..];
  }

  /** The keys of one direction. */
  method GetKeys(tb: Tables, p: Agreed, e: Option<Transform>, i: Option<Transform>, ghost keymat: seq<Byte>, ghost used: nat, rest: seq<Byte>)
    returns (ok: bool, encrkey: seq<Byte>, integrkey: seq<Byte>, after: seq<Byte>)
    requires e == Last(p.xforms, ENCR) && i == Last(p.xforms, INTEGR) && used <= |keymat| && rest == keymat[used..]
    ensures ok <==> used + Need(tb, p) <= |keymat|
    ensures ok ==> encrkey == keymat[used..used + LengthOf(tb, p.protoid, e)]
    ensures ok ==> integrkey == keymat[used + LengthOf(tb, p.protoid, e)..used + Need(tb, p)]
    ensures ok ==> after == keymat[used + Need(tb, p)..]
  {
    var ek, rest1 := GetData(rest, e, tb, p.protoid);
    if ek.None? {
      return false, [], [], rest;
    }
    var ik, rest2 := GetData(rest1, i, tb, p.protoid);
    if ik.None? {
      return false, [], [], rest;
    }
    return true, ek.value, ik.value, rest2;
  }

  /** One proposal of ikev2_childsa_negotiate: the Child SA `csa`, and `csb` for the
      opposite direction. */
  method MakePair(tb: Tables, initiator: bool, p: Agreed, spi: nat, ghost keymat: seq<Byte>, ghost used: nat, rest: seq<Byte>)
    returns (cs: Option<seq<ChildSa>>, after: seq<Byte>)
    requires Usable(p) && used <= |keymat| && rest == keymat[used..]
    ensures cs.Some? <==> used + 2 * Need(tb, p) <= |keymat|
    ensures cs.Some? ==> cs.value == Pair(tb, initiator, p, spi, keymat, used)
    ensures cs.Some? ==> after == keymat[used + 2 * Need(tb, p)..]
  {
    var _, e, i, _ := ValidProposal(p);
    var own, peer := if initiator then p.peerspi else spi, if initiator then p.localspi else p.peerspi;
    var ok, ek, ik, rest1 := GetKeys(tb, p, e, i, keymat, used, rest);
    if !ok {
      return None, rest;
    }
    var csa := ChildSa(p.protoid, initiator, own, peer, e, i, ek, ik);
    var csb := csa.(spi := csa.peerspi, peerspi := csa.spi, out := !csa.out);
    ok, ek, ik, after := GetKeys(tb, p, e, i, keymat, used + Need(tb, p), rest1);
    if !ok {
      return None, rest;
    }
    csb := csb.(encrkey := ek, integrkey := ik);
    cs := Some([csa, csb]);
  }

  lemma {:induction false} NeedGrows(tb: Tables, ps: seq<Agreed>, i: nat, j: nat)
    requires i <= j <= |ps|
    ensures NeedAll(tb, ps[..i]) <= NeedAll(tb, ps[..j])
  {
    if i < j {
      NeedGrows(tb, ps, i, j - 1);
      assert ps[..j][..j - 1] == ps[..j - 1];
    }
  }

  /** Where the loop stops is as far as the keys reach. */
  lemma {:induction false} ReachIs(tb: Tables, ps: seq<Agreed>, len: nat, j: nat)
    requires j <= |ps| && NeedAll(tb, ps[..j]) <= len && (j < |ps| ==> NeedAll(tb, ps[..j + 1]) > len)
    ensures Reach(tb, ps, len) == j
  {
    var r := Reach(tb, ps, len);
    if r < j {
      NeedGrows(tb, ps, r + 1, j);
    } else if j < r {
      NeedGrows(tb, ps, j + 1, r);
    }
  }

  /** The last loop of ikev2_childsa_negotiate.  A proposal that lacks keys ends it; the
      Child SAs made before stay, and only the initiator returns an error, because the
      responder has set the result to that of its last SPI. */
  method NegotiateChildren(tb: Tables, initiator: bool, ps: seq<Agreed>, spis: seq<nat>, keymat: seq<Byte>)
    returns (ret: int, made: seq<ChildSa>)
    requires !initiator ==> |spis| == |ps|
    ensures made == Made(tb, initiator, ps, spis, keymat)
    ensures ret == if initiator && Reach(tb, ps, |keymat|) < |ps| then -1 else 0
  {
    ret, made := -1, [];
    var rest := keymat;
    for j := 0 to |ps|
      invariant NeedAll(tb, ps[..j]) <= |keymat| && rest == keymat[NeedAll(tb, ps[..j])..]
      invariant made == Children(tb, initiator, ps[..j], if initiator then [] else spis[..j], keymat)
      invariant initiator ==> ret == -1
    {
      assert ps[..j + 1][..j] == ps[..j] && (!initiator ==> spis[..j + 1][..j] == spis[..j]);
      var ok, _, _, _ := ValidProposal(ps[j]);
      if ok {
        if !initiator {
          ret := 0;
        }
        var pair, after := MakePair(tb, initiator, ps[j], if initiator then 0 else spis[j], keymat, NeedAll(tb, ps[..j]), rest);
        if pair.None? {
          ReachIs(tb, ps, |keymat|, j);
          return;
        }
        made, rest := made + pair.value, after;
      }
    }
    ReachIs(tb, ps, |keymat|, |ps|);
    ret := 0;
  }

  /** The key part of ikev2_childsa_negotiate; None is the exit of the process for key
      material of more than 255 rounds. */
  method Negotiate(tb: Tables, prf: Prf, key: seq<Byte>, seed: seq<Byte>, hashlen: nat, initiator: bool, ps: seq<Agreed>, spis: seq<nat>)
    returns (r: Option<(int, seq<ChildSa>)>)
    requires 0 < hashlen <= MSGBUF_MAX && Gives(prf, hashlen) && (!initiator ==> |spis| == |ps|)
    ensures r.None? <==> Rounds(2 * MaterialLength(tb, ps), hashlen) > 255
    ensures r.Some? ==> r.value.1 == Made(tb, initiator, ps, spis, Yield(prf, key, seed, Rounds(2 * MaterialLength(tb, ps), hashlen)))
    ensures r.Some? ==> r.value.0 == if initiator && NeedAll(tb, ps) > MSGBUF_MAX / hashlen * hashlen then -1 else 0
  {
    var ilen := KeyLength(tb, ps);
    var keymat := PrfPlus(prf, key, seed, ilen, hashlen);
    if keymat.None? {
      return None;
    }
    MaterialFits(tb, prf, key, seed, hashlen, ps);
    ReachAll(tb, ps, |keymat.value|);
    var ret, made := NegotiateChildren(tb, initiator, ps, spis, keymat.value);
    r := Some((ret, made));
  }

  /** An input that is short of keys: one ESP proposal with a key length of 32776 bits and a
      hash of 64 bytes needs two bytes more than a buffer takes.  No Child SA is made, the
      initiator returns an error, and the responder returns success. */
  lemma ShortOfKeys(tb: Tables, localspi: nat, peerspi: nat)
    requires tb.noncelength(ENCR, 12) == 0
    ensures var ps := [Agreed(PROTO_ESP, [Transform(ENCR, 12, 32776)], localspi, peerspi)];
      && 2 * MaterialLength(tb, ps) == NeedAll(tb, ps) == 8194 > MSGBUF_MAX / 64 * 64
      && Rounds(8194, 64) == 129 && Reach(tb, ps, MSGBUF_MAX) == 0
  {
    var x := Transform(ENCR, 12, 32776);
    var p := Agreed(PROTO_ESP, [x], localspi, peerspi);
    OneTransform(tb, x);
    assert [p][..0] == [];
    assert Need(tb, p) == KeyBytes(tb, PROTO_ESP, x) == 4097;
  }

  lemma OneTransform(tb: Tables, x: Transform)
    requires x.kind == ENCR
    ensures TransformsLength(tb, PROTO_ESP, [x]) == KeyBytes(tb, PROTO_ESP, x)
    ensures Last([x], ENCR) == Some(x) && Last([x], INTEGR) == None
  {
    assert [x][..0] == [];
  }
}
