/** The proposals of an SA payload as bytes, and back (ikev2_add_proposals in
    iked/ikev2.c, ikev2_pld_sa in iked/ikev2_pld.c, config_add_proposal and
    config_add_transform in iked/config.c; section 3.3 of RFC 7296), as values. */
module SaPayload {
  import opened Bytes
  import opened Ikev2
  import opened Options

  const MORE_PROPOSALS: Byte := 2
  const MORE_TRANSFORMS: Byte := 3
  const KEY_LENGTH: Word16 := 14
  const TV: Word16 := 0x8000

  datatype Proposal = Proposal(id: Byte, protoid: Byte, spi: nat, spisize: Byte, xforms: seq<Transform>)

  // ----- the writer -----

  /** ikev2_add_transform. */
  function TransformBytes(x: Transform, more: bool): (s: seq<Byte>)
    ensures |s| == if x.length == 0 then 8 else 12
  {
    [if more then MORE_TRANSFORMS else 0, 0] + Put16(if x.length == 0 then 8 else 12) + [x.kind, 0] + Put16(x.id) +
    if x.length == 0 then [] else Put16(TV + KEY_LENGTH) + Put16(x.length)
  }

  function TransformsBytes(xs: seq<Transform>): seq<Byte> {
    if xs == [] then [] else TransformBytes(xs[0], |xs| > 1) + TransformsBytes(xs[1..])
  }

  function SpiBytes(p: Proposal): (s: seq<Byte>)
    requires SpiFits(p)
    ensures |s| <= 8
  {
    if p.spisize == 4 then Put32(p.spi)
    else if p.spisize == 8 then Put32(p.spi / 0x1_0000_0000) + Put32(p.spi % 0x1_0000_0000)
    else []
  }

  predicate SpiFits(p: Proposal) {
    && (p.spisize == 4 ==> p.spi < 0x1_0000_0000)
    && (p.spisize == 8 ==> p.spi < 0x1_0000_0000_0000_0000)
  }

  predicate Fits(p: Proposal) {
    SpiFits(p) && 8 + |SpiBytes(p)| + |TransformsBytes(p.xforms)| < 0x1_0000
  }

  function ProposalBytes(p: Proposal, more: bool): (s: seq<Byte>)
    requires Fits(p)
    ensures |s| == 8 + |SpiBytes(p)| + |TransformsBytes(p.xforms)|
  {
    [if more then MORE_PROPOSALS else 0, 0] + Put16(8 + |SpiBytes(p)| + |TransformsBytes(p.xforms)|) +
    [p.id, p.protoid, p.spisize, |p.xforms| % 256] + SpiBytes(p) + TransformsBytes(p.xforms)
  }

  /** The payload of proposals that have been selected. */
  function Written(ps: seq<Proposal>): seq<Byte>
    requires forall p :: p in ps ==> Fits(p)
  {
    if ps == [] then []
    else
      assert ps[0] in ps;
      ProposalBytes(ps[0], |ps| > 1) + Written(ps[1..])
  }

  // ----- the lists of config.c -----

  /** config_add_transform with a known type: no transform twice. */
  function AddTransform(xs: seq<Transform>, x: Transform): seq<Transform> {
    if x in xs then xs else xs + [x]
  }

  function AddTransforms(xs: seq<Transform>, ys: seq<Transform>): seq<Transform>
    decreases |ys|
  {
    if ys == [] then xs else AddTransforms(AddTransform(xs, ys[0]), ys[1..])
  }

  predicate Known(x: Transform) { 1 <= x.kind <= 5 }

  predicate AllKnown(xs: seq<Transform>) { forall x :: x in xs ==> Known(x) }

  /** The place of a proposal by number and protocol; the end if there is none. */
  function PlaceOf(ps: seq<Proposal>, id: Byte, protoid: Byte): (k: nat)
    ensures k <= |ps|
    ensures k < |ps| ==> ps[k].id == id && ps[k].protoid == protoid
    ensures forall j :: 0 <= j < k ==> ps[j].id != id || ps[j].protoid != protoid
  {
    if ps == [] then 0
    else if ps[0].id == id && ps[0].protoid == protoid then 0
    else 1 + PlaceOf(ps[1..], id, protoid)
  }

  /** config_add_proposal, and the SPI that ikev2_pld_sa stores. */
  function AddProposal(ps: seq<Proposal>, id: Byte, protoid: Byte, spi: nat, spisize: Byte): (qs: seq<Proposal>)
    ensures var k := PlaceOf(ps, id, protoid);
      && k < |qs| && |qs| == (if k < |ps| then |ps| else |ps| + 1)
      && qs[k].id == id && qs[k].protoid == protoid && qs[k].spi == spi && qs[k].spisize == spisize
      && qs[k].xforms == (if k < |ps| then ps[k].xforms else [])
      && forall j :: 0 <= j < |ps| && j != k ==> qs[j] == ps[j]
  {
    var k := PlaceOf(ps, id, protoid);
    if k < |ps| then ps[k := ps[k].(spi := spi, spisize := spisize)]
    else ps + [Proposal(id, protoid, spi, spisize, [])]
  }

  // ----- the reader -----

  /** ikev2_pld_attr: the last key length attribute counts. */
  function ParseAttributes(b: seq<Byte>, length: Word16): Option<Word16>
    decreases |b|
  {
    if |b| < 4 then None
    else
      var kind, value := Get16(b[..2]), Get16(b[2..4]);
      if kind >= TV then
        var now := if kind - TV == KEY_LENGTH then value else length;
        if |b| == 4 then Some(now) else ParseAttributes(b[4..], now)
      else if value < 4 || |b| < value then None
      else if |b| == value then Some(length) else ParseAttributes(b[value..], length)
  }

  /** Malformed (-1), an unknown transform type (-2), or the transforms. */
  datatype Parsed = Malformed | Unknown | Transforms(xs: seq<Transform>)

  /** The length of a transform, whether more follow, and the transform. */
  datatype XformHead = XformHead(len: nat, more: bool, x: Transform)

  /** ikev2_validate_xform, and the fields that ikev2_pld_xform reads. */
  function ParseXform(b: seq<Byte>): (h: Option<XformHead>)
    ensures h.Some? ==> 8 <= h.value.len <= |b|
  {
    if |b| < 8 then None
    else
      var len := Get16(b[2..4]) as int;
      if len < 8 || |b| < len then None
      else
        var length := if len > 8 then ParseAttributes(b[8..len], 0) else Some(0);
        if length.None? then None
        else Some(XformHead(len, b[0] == MORE_TRANSFORMS, Transform(b[4], Get16(b[6..8]), length.value)))
  }

  /** ikev2_pld_xform. */
  function ParseTransforms(b: seq<Byte>, xs: seq<Transform>): Parsed
    decreases |b|
  {
    match ParseXform(b)
    case None => Malformed
    case Some(h) =>
      if !Known(h.x) then Unknown
      else if h.more then ParseTransforms(b[h.len..], AddTransform(xs, h.x))
      else if |b| == h.len then Transforms(AddTransform(xs, h.x)) else Malformed
  }

  function GetSpi(b: seq<Byte>, spisize: Byte): nat
    requires |b| >= spisize && spisize in {4, 8}
  {
    if spisize == 4 then Get32(b[..4]) else Get32(b[..4]) * 0x1_0000_0000 + Get32(b[4..8])
  }

  /** The header of a proposal and its SPI, if it has one. */
  datatype Head = Head(len: nat, more: bool, id: Byte, protoid: Byte, spisize: Byte, n: Byte, spi: Option<nat>)

  /** ikev2_validate_sa, and the SPI as ikev2_pld_sa reads it. */
  function ParseHead(b: seq<Byte>): (h: Option<Head>)
    ensures h.Some? ==> 8 + h.value.spisize as int <= h.value.len <= |b|
  {
    if |b| < 8 then None
    else
      var len, spisize := Get16(b[2..4]) as int, b[6];
      if len < 8 || |b| < len || (b[0] == 0 && |b| != len) || (b[0] != 0 && |b| <= len) then None
      else if spisize != 0 && (len - 8 < spisize as int || spisize !in {4, 8}) then None
      else Some(Head(len, b[0] != 0, b[4], b[5], spisize, b[7], if spisize != 0 then Some(GetSpi(b[8..len], spisize)) else None))
  }

  /** What a round of ikev2_pld_sa does: the length of the proposal, whether another
      follows, the proposals, and the last SPI read, which a proposal without one takes. */
  datatype Round = Round(len: nat, more: bool, ps: seq<Proposal>, spi: nat)

  function SaRound(b: seq<Byte>, ps: seq<Proposal>, spi: nat): Option<Round> {
    match ParseHead(b)
    case None => None
    case Some(h) =>
      var now := if h.spi.Some? then h.spi.value else spi;
      match ParseProposal(h.id, h.protoid, h.spisize, h.n, b[8 + h.spisize as int..h.len], ps, now)
      case None => None
      case Some(qs) => Some(Round(h.len, h.more, qs, now))
  }

  /** Rounds as long as another proposal follows. */
  function Repeat(round: (seq<Byte>, seq<Proposal>, nat) -> Option<Round>, b: seq<Byte>, ps: seq<Proposal>, spi: nat): Option<seq<Proposal>>
    decreases |b|
  {
    match round(b, ps, spi)
    case None => None
    case Some(r) =>
      if !r.more then Some(r.ps)
      else if 0 < r.len <= |b| then Repeat(round, b[r.len..], r.ps, r.spi)
      else None
  }

  /** ikev2_pld_sa. */
  function ParseSa(b: seq<Byte>, ps: seq<Proposal>, spi: nat): Option<seq<Proposal>> {
    Repeat(SaRound, b, ps, spi)
  }

  lemma {:induction false} RepeatStep(round: (seq<Byte>, seq<Proposal>, nat) -> Option<Round>, b: seq<Byte>, ps: seq<Proposal>, spi: nat, r: Option<Round>)
    requires round(b, ps, spi) == r && (r.Some? ==> 0 < r.value.len <= |b|)
    ensures Repeat(round, b, ps, spi) ==
      if r.None? then None else if r.value.more then Repeat(round, b[r.value.len..], r.value.ps, r.value.spi) else Some(r.value.ps)
  {}

  /** One round of the reader. */
  lemma {:induction false} SaStep(b: seq<Byte>, ps: seq<Proposal>, spi: nat, h: Head, now: nat, rs: Option<seq<Proposal>>)
    requires ParseHead(b) == Some(h) && now == (if h.spi.Some? then h.spi.value else spi)
    requires ParseProposal(h.id, h.protoid, h.spisize, h.n, b[8 + h.spisize as int..h.len], ps, now) == rs
    ensures ParseSa(b, ps, spi) == if rs.None? then None else if h.more then ParseSa(b[h.len..], rs.value, now) else rs
  {
    RoundIs(b, ps, spi, h, now, rs);
    RepeatStep(SaRound, b, ps, spi, if rs.None? then None else Some(Round(h.len, h.more, rs.value, now)));
  }

  lemma RoundIs(b: seq<Byte>, ps: seq<Proposal>, spi: nat, h: Head, now: nat, rs: Option<seq<Proposal>>)
    requires ParseHead(b) == Some(h) && now == (if h.spi.Some? then h.spi.value else spi)
    requires ParseProposal(h.id, h.protoid, h.spisize, h.n, b[8 + h.spisize as int..h.len], ps, now) == rs
    ensures SaRound(b, ps, spi) == if rs.None? then None else Some(Round(h.len, h.more, rs.value, now))
  {}

  /** One proposal, with `b` for its transforms: it is dropped if one of them is of an
      unknown type. */
  function ParseProposal(id: Byte, protoid: Byte, spisize: Byte, n: Byte, b: seq<Byte>, ps: seq<Proposal>, spi: nat): Option<seq<Proposal>> {
    var qs, k := AddProposal(ps, id, protoid, spi, spisize), PlaceOf(ps, id, protoid);
    if n == 0 then Some(qs)
    else
      match ParseTransforms(b, qs[k].xforms)
      case Malformed => None
      case Unknown => Some(qs[..k] + qs[k + 1..])
      case Transforms(xs) => Some(qs[k := qs[k].(xforms := xs)])
  }

  // ----- what the reader takes -----

  /** A proposal of the length it declares, with room for an SPI of 0, 4 or 8 bytes. */
  predicate ProposalSized(p: seq<Byte>) {
    |p| >= 8 && Get16(p[2..4]) as int == |p| && p[6] in {0, 4, 8} && 8 + p[6] as int <= |p|
  }

  /** A transform of the length it declares, and of a known type. */
  predicate TransformSized(p: seq<Byte>) {
    |p| >= 8 && Get16(p[2..4]) as int == |p| && p[4] in {1, 2, 3, 4, 5}
  }

  /** All but the last of the pieces announce another one. */
  predicate Announced(pieces: seq<seq<Byte>>, more: Byte -> bool) {
    pieces != [] && forall i :: 0 <= i < |pieces| ==> pieces[i] != [] && (more(pieces[i][0]) <==> i < |pieces| - 1)
  }

  /** A payload that is taken is tiled by its proposals. */
  lemma {:induction false} ProposalsTile(b: seq<Byte>, ps: seq<Proposal>, spi: nat) returns (pieces: seq<seq<Byte>>)
    requires ParseSa(b, ps, spi).Some?
    ensures Flat(pieces) == b && (forall p :: p in pieces ==> ProposalSized(p)) && Announced(pieces, x => x != 0)
    decreases |b|
  {
    var h := ParseHead(b).value;
    var now := if h.spi.Some? then h.spi.value else spi;
    var rs := ParseProposal(h.id, h.protoid, h.spisize, h.n, b[8 + h.spisize as int..h.len], ps, now);
    SaStep(b, ps, spi, h, now, rs);
    HeadSized(b);
    if h.more {
      var rest := ProposalsTile(b[h.len..], rs.value, now);
      pieces := [b[..h.len]] + rest;
      TileNext(b, h.len, rest, x => x != 0);
    } else {
      pieces := [b];
      FlatOne(b);
      assert b[..h.len] == b;
    }
  }

  lemma HeadSized(b: seq<Byte>)
    requires ParseHead(b).Some?
    ensures var h := ParseHead(b).value;
      && ProposalSized(b[..h.len]) && (h.more <==> b[0] != 0) && (!h.more ==> h.len == |b|)
  {
    var len := ParseHead(b).value.len;
    assert b[..len][2..4] == b[2..4];
  }

  lemma TileNext(b: seq<Byte>, len: nat, rest: seq<seq<Byte>>, more: Byte -> bool)
    requires 0 < len <= |b| && Flat(rest) == b[len..] && Announced(rest, more) && more(b[0])
    ensures Flat([b[..len]] + rest) == b && Announced([b[..len]] + rest, more)
  {
    assert ([b[..len]] + rest)[1..] == rest;
  }

  /** Transforms are added in order, each once. */
  lemma {:induction false} AddedOnce(xs: seq<Transform>, ys: seq<Transform>)
    ensures xs <= AddTransforms(xs, ys)
    ensures forall x :: x in AddTransforms(xs, ys) <==> x in xs || x in ys
    ensures NoTwice(xs) ==> NoTwice(AddTransforms(xs, ys))
    decreases |ys|
  {
    if ys != [] {
      AddedOnce(AddTransform(xs, ys[0]), ys[1..]);
      assert ys == [ys[0]] + ys[1..];
    }
  }

  /** What is read is added to the transforms before it. */
  lemma {:induction false} ParsedOnce(b: seq<Byte>, xs: seq<Transform>)
    requires ParseTransforms(b, xs).Transforms?
    ensures xs <= ParseTransforms(b, xs).xs && (NoTwice(xs) ==> NoTwice(ParseTransforms(b, xs).xs))
    decreases |b|
  {
    var h := ParseXform(b).value;
    if h.more {
      ParsedOnce(b[h.len..], AddTransform(xs, h.x));
    }
  }

  /** No two proposals with the same number and protocol, and no transform twice. */
  predicate Orderly(ps: seq<Proposal>) {
    DistinctKeys(ps) && forall p :: p in ps ==> NoTwice(p.xforms)
  }

  /** Whatever bytes are read, the list stays orderly; and a proposal with a transform of
      an unknown type leaves none of its number and protocol there. */
  lemma {:induction false} RoundOrderly(id: Byte, protoid: Byte, spisize: Byte, n: Byte, b: seq<Byte>, ps: seq<Proposal>, spi: nat)
    requires Orderly(ps) && ParseProposal(id, protoid, spisize, n, b, ps, spi).Some?
    ensures var qs := ParseProposal(id, protoid, spisize, n, b, ps, spi).value;
      && Orderly(qs)
      && (PlaceOf(qs, id, protoid) == |qs| <==> n != 0 && ParseTransforms(b, AddProposal(ps, id, protoid, spi, spisize)[PlaceOf(ps, id, protoid)].xforms).Unknown?)
  {
    var qs, k := AddProposal(ps, id, protoid, spi, spisize), PlaceOf(ps, id, protoid);
    AddOrderly(ps, id, protoid, spi, spisize);
    if n != 0 && ParseTransforms(b, qs[k].xforms).Transforms? {
      assert qs[k] in qs;
      ParsedOnce(b, qs[k].xforms);
      SetOrderly(qs, k, ParseTransforms(b, qs[k].xforms).xs);
    }
    if n != 0 && ParseTransforms(b, qs[k].xforms).Unknown? {
      DropOrderly(qs, k);
    }
  }

  lemma AddOrderly(ps: seq<Proposal>, id: Byte, protoid: Byte, spi: nat, spisize: Byte)
    requires Orderly(ps)
    ensures var qs := AddProposal(ps, id, protoid, spi, spisize); Orderly(qs) && PlaceOf(qs, id, protoid) < |qs|
  {
    var qs, k := AddProposal(ps, id, protoid, spi, spisize), PlaceOf(ps, id, protoid);
    forall p | p in qs
      ensures NoTwice(p.xforms)
    {
      var j :| 0 <= j < |qs| && qs[j] == p;
      assert j < |ps| ==> ps[j] in ps && qs[j].xforms == ps[j].xforms;
    }
    assert forall j :: 0 <= j < |ps| ==> qs[j].id == ps[j].id && qs[j].protoid == ps[j].protoid;
  }

  lemma SetOrderly(qs: seq<Proposal>, k: nat, xs: seq<Transform>)
    requires Orderly(qs) && k < |qs| && NoTwice(xs)
    ensures var rs := qs[k := qs[k].(xforms := xs)]; Orderly(rs) && PlaceOf(rs, qs[k].id, qs[k].protoid) < |rs|
  {
    var rs := qs[k := qs[k].(xforms := xs)];
    assert rs[k].id == qs[k].id && rs[k].protoid == qs[k].protoid;
    forall p | p in rs
      ensures NoTwice(p.xforms)
    {
      var j :| 0 <= j < |rs| && rs[j] == p;
      assert qs[j] in qs;
    }
  }

  lemma DropOrderly(qs: seq<Proposal>, k: nat)
    requires Orderly(qs) && k < |qs|
    ensures var rs := qs[..k] + qs[k + 1..]; Orderly(rs) && PlaceOf(rs, qs[k].id, qs[k].protoid) == |rs|
  {
    var rs := qs[..k] + qs[k + 1..];
    assert forall j :: 0 <= j < |rs| ==> rs[j] == qs[if j < k then j else j + 1];
    assert forall p :: p in rs ==> p in qs;
  }

  lemma {:induction false} PayloadOrderly(b: seq<Byte>, ps: seq<Proposal>, spi: nat)
    requires Orderly(ps) && ParseSa(b, ps, spi).Some?
    ensures Orderly(ParseSa(b, ps, spi).value)
    decreases |b|
  {
    var h := ParseHead(b).value;
    var now := if h.spi.Some? then h.spi.value else spi;
    var rs := ParseProposal(h.id, h.protoid, h.spisize, h.n, b[8 + h.spisize as int..h.len], ps, now);
    SaStep(b, ps, spi, h, now, rs);
    RoundOrderly(h.id, h.protoid, h.spisize, h.n, b[8 + h.spisize as int..h.len], ps, now);
    if h.more {
      PayloadOrderly(b[h.len..], rs.value, now);
    }
  }

  /** Transforms that are taken tile what the proposal has for them. */
  lemma {:induction false} TransformsTile(b: seq<Byte>, xs: seq<Transform>) returns (pieces: seq<seq<Byte>>)
    requires ParseTransforms(b, xs).Transforms?
    ensures Flat(pieces) == b && (forall p :: p in pieces ==> TransformSized(p)) && Announced(pieces, x => x == 3)
    decreases |b|
  {
    var h := ParseXform(b).value;
    assert b[..h.len][2..4] == b[2..4];
    if h.more {
      var rest := TransformsTile(b[h.len..], AddTransform(xs, h.x));
      pieces := [b[..h.len]] + rest;
      TileNext(b, h.len, rest, x => x == 3);
    } else {
      pieces := [b];
      FlatOne(b);
      assert b[..h.len] == b;
    }
  }

  // ----- what the reader makes of a written payload -----

  /** One proposal, as it is added to those read before. */
  function Added(ps: seq<Proposal>, p: Proposal, spi: nat): seq<Proposal> {
    var qs, k := AddProposal(ps, p.id, p.protoid, if p.spisize != 0 then p.spi else spi, p.spisize), PlaceOf(ps, p.id, p.protoid);
    if |p.xforms| % 256 == 0 then qs
    else if AllKnown(p.xforms) then qs[k := qs[k].(xforms := AddTransforms(qs[k].xforms, p.xforms))]
    else qs[..k] + qs[k + 1..]
  }

  function AddedAll(ps: seq<Proposal>, qs: seq<Proposal>, spi: nat): seq<Proposal>
    decreases |qs|
  {
    if qs == [] then ps
    else AddedAll(Added(ps, qs[0], spi), qs[1..], if qs[0].spisize != 0 then qs[0].spi else spi)
  }

  lemma TransformFields(x: Transform, more: bool, rest: seq<Byte>)
    ensures var b := TransformBytes(x, more) + rest;
      var len := if x.length == 0 then 8 else 12;
      && Get16(b[2..4]) == len && b[0] == (if more then MORE_TRANSFORMS else 0)
      && b[4] == x.kind && Get16(b[6..8]) == x.id && b[len..] == rest
      && (x.length != 0 ==> b[8..len] == Put16(TV + KEY_LENGTH) + Put16(x.length))
  {
    var b := TransformBytes(x, more) + rest;
    var len := if x.length == 0 then 8 else 12;
    assert b[2..4] == Put16(len) + [];
    RoundTrip16(len, []);
    assert b[6..8] == Put16(x.id) + [];
    RoundTrip16(x.id, []);
  }

  lemma AttributeRead(length: Word16)
    ensures ParseAttributes(Put16(TV + KEY_LENGTH) + Put16(length), 0) == Some(length)
  {
    var b := Put16(TV + KEY_LENGTH) + Put16(length);
    assert b[..2] == Put16(TV + KEY_LENGTH) + [] && b[2..4] == Put16(length) + [];
    RoundTrip16(TV + KEY_LENGTH, []);
    RoundTrip16(length, []);
  }

  /** A key length after others is the one that counts. */
  lemma KeyLengthLast(length: Word16, rest: seq<Byte>, was: Word16)
    ensures ParseAttributes(Put16(0x800e) + Put16(length) + rest, was) == if rest == [] then Some(length) else ParseAttributes(rest, length)
  {
    var b := Put16(0x800e) + Put16(length) + rest;
    assert b[..2] == Put16(0x800e) + [] && b[2..4] == Put16(length) + [] && b[4..] == rest;
    RoundTrip16(0x800e, []);
    RoundTrip16(length, []);
  }

  /** A transform that is read is the one that was written. */
  lemma TransformRead(x: Transform, more: bool, rest: seq<Byte>, xs: seq<Transform>)
    ensures var b := TransformBytes(x, more) + rest;
      ParseTransforms(b, xs) ==
        if !Known(x) then Unknown
        else if more then ParseTransforms(rest, AddTransform(xs, x))
        else if rest == [] then Transforms(AddTransform(xs, x)) else Malformed
  {
    TransformFields(x, more, rest);
    if x.length != 0 {
      AttributeRead(x.length);
    }
  }

  /** The five transform types are taken, an ESN transform (type 5) among them, and no
      other. */
  lemma KindsTaken(x: Transform)
    ensures ParseTransforms(TransformBytes(x, false), []) == if x.kind in {1, 2, 3, 4, 5} then Transforms([x]) else Unknown
  {
    assert TransformBytes(x, false) + [] == TransformBytes(x, false);
    TransformRead(x, false, [], []);
    assert [] + [x] == [x];
  }

  lemma {:induction false} TransformsRead(ys: seq<Transform>, xs: seq<Transform>)
    requires ys != []
    ensures ParseTransforms(TransformsBytes(ys), xs) == if AllKnown(ys) then Transforms(AddTransforms(xs, ys)) else Unknown
  {
    var rest := TransformsBytes(ys[1..]);
    TransformRead(ys[0], |ys| > 1, rest, xs);
    assert ys[0] in ys && forall x :: x in ys[1..] ==> x in ys;
    assert forall x :: x in ys ==> x == ys[0] || x in ys[1..];
    if |ys| > 1 {
      TransformsRead(ys[1..], AddTransform(xs, ys[0]));
    } else {
      assert AddTransforms(AddTransform(xs, ys[0]), ys[1..]) == AddTransform(xs, ys[0]);
    }
  }

  lemma SpiRead(p: Proposal, rest: seq<Byte>)
    requires SpiFits(p) && p.spisize in {4, 8}
    ensures |SpiBytes(p)| == p.spisize as int && GetSpi(SpiBytes(p) + rest, p.spisize) == p.spi
    ensures var b := SpiBytes(p) + rest; if p.spisize == 4 then Get32(b[..4]) as nat == p.spi else Get32(b[..4]) as nat * 0x1_0000_0000 + Get32(b[4..8]) as nat == p.spi
  {
    var b := SpiBytes(p) + rest;
    if p.spisize == 4 {
      assert b[..4] == Put32(p.spi) + [];
      RoundTrip32(p.spi, []);
    } else {
      assert b[..4] == Put32(p.spi / 0x1_0000_0000) + [] && b[4..8] == Put32(p.spi % 0x1_0000_0000) + [];
      RoundTrip32(p.spi / 0x1_0000_0000, []);
      RoundTrip32(p.spi % 0x1_0000_0000, []);
    }
  }

  lemma ProposalFields(p: Proposal, more: bool, rest: seq<Byte>)
    requires Fits(p)
    ensures var b := ProposalBytes(p, more) + rest;
      var len := |ProposalBytes(p, more)|;
      && Get16(b[2..4]) == len && b[0] == (if more then MORE_PROPOSALS else 0)
      && b[4] == p.id && b[5] == p.protoid && b[6] == p.spisize && b[7] == |p.xforms| % 256
      && b[8..len] == SpiBytes(p) + TransformsBytes(p.xforms) && b[len..] == rest
      && b[8 + |SpiBytes(p)|..len] == TransformsBytes(p.xforms)
  {
    HeadFields(if more then MORE_PROPOSALS else 0, |ProposalBytes(p, more)|, p.id, p.protoid, p.spisize, |p.xforms| % 256,
               SpiBytes(p), TransformsBytes(p.xforms), rest);
  }

  lemma HeadFields(more: Byte, len: Word16, id: Byte, protoid: Byte, spisize: Byte, n: Byte, spi: seq<Byte>, xs: seq<Byte>, rest: seq<Byte>)
    requires len == 8 + |spi| + |xs|
    ensures var b := [more, 0] + Put16(len) + [id, protoid, spisize, n] + spi + xs + rest;
      && Get16(b[2..4]) == len && b[0] == more
      && b[4] == id && b[5] == protoid && b[6] == spisize && b[7] == n
      && b[8..len] == spi + xs && b[len..] == rest && b[8 + |spi|..len] == xs
  {
    var b := [more, 0] + Put16(len) + [id, protoid, spisize, n] + spi + xs + rest;
    assert b[2..4] == Put16(len) + [];
    RoundTrip16(len, []);
  }

  /** A proposal whose fields are those of `p` is added as `p`. */
  lemma FieldsRead(b: seq<Byte>, len: nat, p: Proposal, more: bool, ps: seq<Proposal>, spi: nat)
    requires 8 <= len <= |b| && Get16(b[2..4]) == len && b[0] == (if more then MORE_PROPOSALS else 0)
    requires b[4] == p.id && b[5] == p.protoid && b[6] == p.spisize && p.spisize in {0, 4, 8} && b[7] == |p.xforms| % 256
    requires p.spisize != 0 ==> len - 8 >= p.spisize as int && GetSpi(b[8..len], p.spisize) == p.spi
    requires 8 + p.spisize as int <= len && b[8 + p.spisize as int..len] == TransformsBytes(p.xforms)
    requires more <==> len < |b|
    ensures ParseSa(b, ps, spi) ==
      if more then ParseSa(b[len..], Added(ps, p, spi), if p.spisize != 0 then p.spi else spi) else Some(Added(ps, p, spi))
  {
    var h := Head(len, more, p.id, p.protoid, p.spisize, |p.xforms| % 256, if p.spisize != 0 then Some(p.spi) else None);
    HeadRead(b, len, p, more);
    ProposalAdded(p, ps, spi);
    SaStep(b, ps, spi, h, if p.spisize != 0 then p.spi else spi, Some(Added(ps, p, spi)));
  }

  lemma HeadRead(b: seq<Byte>, len: nat, p: Proposal, more: bool)
    requires 8 <= len <= |b| && Get16(b[2..4]) == len && b[0] == (if more then MORE_PROPOSALS else 0)
    requires b[4] == p.id && b[5] == p.protoid && b[6] == p.spisize && p.spisize in {0, 4, 8} && b[7] == |p.xforms| % 256
    requires p.spisize != 0 ==> len - 8 >= p.spisize as int && GetSpi(b[8..len], p.spisize) == p.spi
    requires more <==> len < |b|
    ensures ParseHead(b) == Some(Head(len, more, p.id, p.protoid, p.spisize, |p.xforms| % 256, if p.spisize != 0 then Some(p.spi) else None))
  {}

  lemma ProposalAdded(p: Proposal, ps: seq<Proposal>, spi: nat)
    ensures ParseProposal(p.id, p.protoid, p.spisize, |p.xforms| % 256, TransformsBytes(p.xforms), ps, if p.spisize != 0 then p.spi else spi)
         == Some(Added(ps, p, spi))
  {
    if |p.xforms| % 256 != 0 {
      var qs, k := AddProposal(ps, p.id, p.protoid, if p.spisize != 0 then p.spi else spi, p.spisize), PlaceOf(ps, p.id, p.protoid);
      TransformsRead(p.xforms, qs[k].xforms);
    }
  }

  /** One proposal is read as it was written, after any others. */
  lemma ProposalRead(p: Proposal, more: bool, rest: seq<Byte>, ps: seq<Proposal>, spi: nat)
    requires Fits(p) && p.spisize in {0, 4, 8} && (more <==> rest != [])
    ensures ParseSa(ProposalBytes(p, more) + rest, ps, spi) ==
      if more then ParseSa(rest, Added(ps, p, spi), if p.spisize != 0 then p.spi else spi) else Some(Added(ps, p, spi))
  {
    ProposalFields(p, more, rest);
    if p.spisize != 0 {
      SpiRead(p, TransformsBytes(p.xforms));
    }
    FieldsRead(ProposalBytes(p, more) + rest, |ProposalBytes(p, more)|, p, more, ps, spi);
  }

  /** What the reader makes of any written payload. */
  lemma {:induction false} WrittenRead(qs: seq<Proposal>, ps: seq<Proposal>, spi: nat)
    requires qs != [] && forall p :: p in qs ==> Fits(p) && p.spisize in {0, 4, 8}
    ensures ParseSa(Written(qs), ps, spi) == Some(AddedAll(ps, qs, spi))
  {
    assert qs[0] in qs;
    ProposalRead(qs[0], |qs| > 1, Written(qs[1..]), ps, spi);
    if |qs| > 1 {
      assert qs[1] in qs;
      WrittenRead(qs[1..], Added(ps, qs[0], spi), if qs[0].spisize != 0 then qs[0].spi else spi);
    }
  }

  // ----- proposals without repetitions come back as they are -----

  predicate NoTwice(xs: seq<Transform>) {
    forall i, j :: 0 <= i < j < |xs| ==> xs[i] != xs[j]
  }

  predicate DistinctKeys(ps: seq<Proposal>) {
    forall i, j :: 0 <= i < j < |ps| ==> ps[i].id != ps[j].id || ps[i].protoid != ps[j].protoid
  }

  /** A proposal that the format can carry: known transform types, none twice, and not
      so many that their number, modulo 256, reads as none. */
  predicate Plain(p: Proposal) {
    p.spisize in {0, 4, 8} && AllKnown(p.xforms) && NoTwice(p.xforms) && (|p.xforms| % 256 != 0 || p.xforms == [])
  }

  predicate AllPlain(ps: seq<Proposal>) {
    forall p :: p in ps ==> Fits(p) && Plain(p)
  }

  /** The same proposals, those without an SPI with the one of the last that has one. */
  function Carried(qs: seq<Proposal>, spi: nat): seq<Proposal>
    decreases |qs|
  {
    if qs == [] then []
    else
      var now := if qs[0].spisize != 0 then qs[0].spi else spi;
      [qs[0].(spi := now)] + Carried(qs[1..], now)
  }

  lemma {:induction false} AddNew(xs: seq<Transform>, ys: seq<Transform>)
    requires NoTwice(xs + ys)
    ensures AddTransforms(xs, ys) == xs + ys
    decreases |ys|
  {
    if ys == [] {
      assert xs + ys == xs;
    } else {
      assert (xs + ys)[|xs|] == ys[0];
      assert forall i :: 0 <= i < |xs| ==> (xs + ys)[i] == xs[i];
      assert (xs + [ys[0]]) + ys[1..] == xs + ys;
      AddNew(xs + [ys[0]], ys[1..]);
    }
  }

  predicate NewKey(ps: seq<Proposal>, p: Proposal) {
    forall j :: 0 <= j < |ps| ==> ps[j].id != p.id || ps[j].protoid != p.protoid
  }

  lemma AddedNew(ps: seq<Proposal>, p: Proposal, spi: nat)
    requires NewKey(ps, p) && Plain(p)
    ensures Added(ps, p, spi) == ps + [p.(spi := if p.spisize != 0 then p.spi else spi)]
  {
    assert PlaceOf(ps, p.id, p.protoid) == |ps|;
    assert [] + p.xforms == p.xforms;
    AddNew([], p.xforms);
  }

  predicate NewKeys(ps: seq<Proposal>, qs: seq<Proposal>) {
    forall j :: 0 <= j < |qs| ==> NewKey(ps, qs[j])
  }

  lemma NextKeys(ps: seq<Proposal>, qs: seq<Proposal>, spi: nat)
    requires qs != [] && DistinctKeys(qs) && NewKeys(ps, qs)
    ensures DistinctKeys(qs[1..]) && NewKeys(ps + [qs[0].(spi := spi)], qs[1..])
  {
    assert forall j :: 0 <= j < |qs| - 1 ==> qs[1..][j] == qs[j + 1];
  }

  lemma {:induction false} AddedAllNew(ps: seq<Proposal>, qs: seq<Proposal>, spi: nat)
    requires DistinctKeys(qs) && NewKeys(ps, qs) && forall q :: q in qs ==> Plain(q)
    ensures AddedAll(ps, qs, spi) == ps + Carried(qs, spi)
    decreases |qs|
  {
    if qs == [] {
      assert ps + Carried(qs, spi) == ps;
    } else {
      var now := if qs[0].spisize != 0 then qs[0].spi else spi;
      assert qs[0] in qs;
      AddedNew(ps, qs[0], spi);
      NextKeys(ps, qs, now);
      AddedAllNew(ps + [qs[0].(spi := now)], qs[1..], now);
      CarriedNext(ps, qs, spi);
    }
  }

  lemma CarriedNext(ps: seq<Proposal>, qs: seq<Proposal>, spi: nat)
    requires qs != []
    ensures var now := if qs[0].spisize != 0 then qs[0].spi else spi;
      (ps + [qs[0].(spi := now)]) + Carried(qs[1..], now) == ps + Carried(qs, spi)
  {}

  /** The SA payload round trip. */
  lemma RoundTrip(qs: seq<Proposal>)
    requires qs != [] && DistinctKeys(qs) && AllPlain(qs)
    ensures ParseSa(Written(qs), [], 0) == Some(Carried(qs, 0))
  {
    WrittenRead(qs, [], 0);
    AddedAllNew([], qs, 0);
    assert [] + Carried(qs, 0) == Carried(qs, 0);
  }

  /** What comes back: each proposal with its number, protocol and transforms, and its
      SPI if it has one. */
  lemma {:induction false} CarriedSame(qs: seq<Proposal>, spi: nat, i: nat)
    requires i < |qs|
    ensures |Carried(qs, spi)| == |qs|
    ensures var p, q := Carried(qs, spi)[i], qs[i];
      p.id == q.id && p.protoid == q.protoid && p.spisize == q.spisize && p.xforms == q.xforms && (q.spisize != 0 ==> p.spi == q.spi)
    decreases |qs|
  {
    var now := if qs[0].spisize != 0 then qs[0].spi else spi;
    if |qs| > 1 {
      CarriedSame(qs[1..], now, if i > 0 then i - 1 else 0);
    }
  }

  // ----- which proposals and transforms are written -----

  predicate Selected(p: Proposal, protoid: Byte) {
    if protoid != 0 then p.protoid == protoid else p.protoid != PROTO_IKE
  }

  /** Whether DH transforms are dropped: when asked, or when the only group is NONE. */
  predicate SkipsDh(p: Proposal, protoid: Byte, skipdh: bool) {
    skipdh || (protoid != PROTO_IKE && forall x :: x in p.xforms ==> x.kind == DH ==> x.id == 0)
  }

  function WithoutDh(xs: seq<Transform>): seq<Transform> {
    if xs == [] then []
    else if xs[|xs| - 1].kind == DH then WithoutDh(xs[..|xs| - 1])
    else WithoutDh(xs[..|xs| - 1]) + [xs[|xs| - 1]]
  }

  /** The proposal as it is sent. */
  function Sent(p: Proposal, protoid: Byte, skipdh: bool): Proposal {
    if SkipsDh(p, protoid, skipdh) then p.(xforms := WithoutDh(p.xforms)) else p
  }

  function SentAll(ps: seq<Proposal>, protoid: Byte, skipdh: bool): seq<Proposal> {
    if ps == [] then []
    else
      var before, p := SentAll(ps[..|ps| - 1], protoid, skipdh), ps[|ps| - 1];
      if Selected(p, protoid) then before + [Sent(p, protoid, skipdh)] else before
  }

  lemma {:induction false} WithoutDhKeeps(xs: seq<Transform>)
    ensures |WithoutDh(xs)| <= |xs|
    ensures forall x :: x in WithoutDh(xs) <==> x in xs && x.kind != DH
    ensures NoTwice(xs) ==> NoTwice(WithoutDh(xs))
  {
    if xs != [] {
      var before, x := xs[..|xs| - 1], xs[|xs| - 1];
      assert xs == before + [x];
      WithoutDhKeeps(before);
      if NoTwice(xs) {
        assert forall i :: 0 <= i < |before| ==> before[i] == xs[i];
        assert x !in before;
      }
    }
  }

  lemma {:induction false} TransformsBound(xs: seq<Transform>)
    ensures |TransformsBytes(xs)| <= 12 * |xs|
  {
    if xs != [] {
      TransformsBound(xs[1..]);
    }
  }

  /** A proposal as configured: known transform types, none twice, fewer than 256. */
  predicate Configured(p: Proposal) {
    SpiFits(p) && p.spisize in {0, 4, 8} && AllKnown(p.xforms) && NoTwice(p.xforms) && |p.xforms| < 256
  }

  lemma SentPlain(p: Proposal, protoid: Byte, skipdh: bool)
    requires Configured(p)
    ensures Fits(Sent(p, protoid, skipdh)) && Plain(Sent(p, protoid, skipdh))
  {
    WithoutDhKeeps(p.xforms);
    ConfiguredPlain(Sent(p, protoid, skipdh));
  }

  lemma {:induction false} ConfiguredPlain(p: Proposal)
    requires Configured(p)
    ensures Fits(p) && Plain(p)
  {
    TransformsBound(p.xforms);
  }

  /** The proposals that are sent are made from some of those configured. */
  lemma {:induction false} SentFrom(ps: seq<Proposal>, protoid: Byte, skipdh: bool)
    ensures forall q :: q in SentAll(ps, protoid, skipdh) ==> exists j :: 0 <= j < |ps| && ps[j].id == q.id && ps[j].protoid == q.protoid
  {
    if ps != [] {
      var n := |ps| - 1;
      SentFrom(ps[..n], protoid, skipdh);
      forall q | q in SentAll(ps[..n], protoid, skipdh)
        ensures exists j :: 0 <= j < |ps| && ps[j].id == q.id && ps[j].protoid == q.protoid
      {
        var j :| 0 <= j < n && ps[..n][j].id == q.id && ps[..n][j].protoid == q.protoid;
        assert ps[j] == ps[..n][j];
      }
    }
  }

  lemma {:induction false} SentKeys(ps: seq<Proposal>, protoid: Byte, skipdh: bool)
    requires DistinctKeys(ps)
    ensures DistinctKeys(SentAll(ps, protoid, skipdh))
  {
    if ps != [] {
      var n := |ps| - 1;
      SentKeys(ps[..n], protoid, skipdh);
      SentFrom(ps[..n], protoid, skipdh);
      var before := SentAll(ps[..n], protoid, skipdh);
      forall i | 0 <= i < |before|
        ensures before[i].id != ps[n].id || before[i].protoid != ps[n].protoid
      {
        assert before[i] in before;
        var j :| 0 <= j < n && ps[..n][j].id == before[i].id && ps[..n][j].protoid == before[i].protoid;
        assert ps[j] == ps[..n][j];
      }
    }
  }

  lemma {:induction false} SentAllPlain(ps: seq<Proposal>, protoid: Byte, skipdh: bool)
    requires forall p :: p in ps ==> Configured(p)
    ensures AllPlain(SentAll(ps, protoid, skipdh))
  {
    if ps != [] {
      var n := |ps| - 1;
      assert ps[n] in ps;
      SentAllPlain(ps[..n], protoid, skipdh);
      SentPlain(ps[n], protoid, skipdh);
    }
  }

  /** The proposals that are selected come back in order, without the DH groups that
      are dropped. */
  lemma SentRoundTrip(ps: seq<Proposal>, protoid: Byte, skipdh: bool)
    requires DistinctKeys(ps) && (forall p :: p in ps ==> Configured(p)) && SentAll(ps, protoid, skipdh) != []
    ensures var qs := SentAll(ps, protoid, skipdh); AllPlain(qs) && ParseSa(Written(qs), [], 0) == Some(Carried(qs, 0))
  {
    SentKeys(ps, protoid, skipdh);
    SentAllPlain(ps, protoid, skipdh);
    RoundTrip(SentAll(ps, protoid, skipdh));
  }
}
