/** The writer of SA payloads (ikev2_add_proposals and ikev2_add_transform in
    iked/ikev2.c), on a buffer. */
module SaWriter {
  import opened Bytes
  import opened Ikev2
  import opened SaPayload
  import opened ImsgBuffer
  import opened Options

  /** A buffer of ibuf_static: it has all its memory, so that nothing moves while the code
      keeps pointers into it; and it is shorter than a payload length can say. */
  ghost predicate Open(buf: Ibuf)
    reads buf
  {
    buf.Valid() && 0 < buf.buf.Length == buf.max < 0x1_0000
  }

  /** ibuf_add, and where it ends. */
  method Put(buf: Ibuf, data: seq<Byte>) returns (ok: bool)
    requires Open(buf)
    modifies buf, buf.buf
    ensures Open(buf) && buf.max == old(buf.max) && buf.rpos == old(buf.rpos) && buf.buf == old(buf.buf)
    ensures ok <==> old(buf.wpos) + |data| <= buf.max
    ensures ok ==> buf.Contents() == old(buf.Contents()) + data && buf.wpos == old(buf.wpos) + |data|
  {
    ghost var n := |buf.Contents()|;
    ok := buf.Add(data);
    assert ok ==> |buf.Contents()| == n + |data|;
  }

  /** ikev2_add_transform. */
  method PutTransform(buf: Ibuf, x: Transform, more: bool) returns (ok: bool)
    requires Open(buf)
    modifies buf, buf.buf
    ensures Open(buf) && buf.max == old(buf.max) && buf.rpos == old(buf.rpos) && buf.buf == old(buf.buf)
    ensures ok <==> old(buf.wpos) + |TransformBytes(x, more)| <= buf.max
    ensures ok ==> buf.Contents() == old(buf.Contents()) + TransformBytes(x, more) && buf.wpos == old(buf.wpos) + |TransformBytes(x, more)|
  {
    ghost var was := buf.Contents();
    var head := [if more then MORE_TRANSFORMS else 0, 0] + Put16(if x.length == 0 then 8 else 12) + [x.kind, 0] + Put16(x.id);
    ok := Put(buf, head);
    if !ok || x.length == 0 {
      return;
    }
    ok := Put(buf, Put16(TV + KEY_LENGTH) + Put16(x.length));
    assert TransformBytes(x, more) == head + (Put16(TV + KEY_LENGTH) + Put16(x.length));
    Assoc(was, head, Put16(TV + KEY_LENGTH) + Put16(x.length));
  }

  // ----- the transforms -----

  /** The first `k` of the transforms `xs`; all but the last say that more follow. */
  function Marked(xs: seq<Transform>, k: nat): seq<Byte>
    requires k <= |xs|
  {
    if k == 0 then [] else Marked(xs, k - 1) + TransformBytes(xs[k - 1], k < |xs|)
  }

  lemma {:induction false} MarkedTail(xs: seq<Transform>, k: nat)
    requires 1 <= k <= |xs|
    ensures Marked(xs, k) == TransformBytes(xs[0], |xs| > 1) + Marked(xs[1..], k - 1)
  {
    if k > 1 {
      MarkedTail(xs, k - 1);
      Assoc(TransformBytes(xs[0], |xs| > 1), Marked(xs[1..], k - 2), TransformBytes(xs[k - 1], k < |xs|));
    }
  }

  lemma {:induction false} MarkedAll(xs: seq<Transform>)
    ensures Marked(xs, |xs|) == TransformsBytes(xs)
  {
    if xs != [] {
      MarkedTail(xs, |xs|);
      MarkedAll(xs[1..]);
    }
  }

  lemma {:induction false} MarkedGrows(xs: seq<Transform>, j: nat, k: nat)
    requires j <= k <= |xs|
    ensures |Marked(xs, j)| <= |Marked(xs, k)|
  {
    if j < k {
      MarkedGrows(xs, j, k - 1);
    }
  }

  /** The transforms of a proposal that are sent. */
  function Kept(xs: seq<Transform>, skip: bool): seq<Transform> {
    if skip then WithoutDh(xs) else xs
  }

  lemma {:induction false} KeptPrefix(xs: seq<Transform>, skip: bool, i: nat)
    requires i <= |xs|
    ensures Kept(xs[..i], skip) <= Kept(xs, skip)
  {
    if i == |xs| {
      assert xs[..i] == xs;
    } else {
      assert xs[..|xs| - 1][..i] == xs[..i];
      KeptPrefix(xs[..|xs| - 1], skip, i);
    }
  }

  /** The transform at `i` is the next one that is sent, unless it is skipped. */
  lemma KeptNext(xs: seq<Transform>, skip: bool, i: nat)
    requires i < |xs|
    ensures var k := |Kept(xs[..i], skip)|;
      if skip && xs[i].kind == DH then Kept(xs[..i + 1], skip) == Kept(xs[..i], skip)
      else k < |Kept(xs, skip)| && Kept(xs, skip)[k] == xs[i] && |Kept(xs[..i + 1], skip)| == k + 1
  {
    assert xs[..i + 1][..i] == xs[..i];
    KeptPrefix(xs, skip, i + 1);
  }

  /** The loop that counts the transforms that are sent. */
  method CountKept(xs: seq<Transform>, skip: bool) returns (n: nat)
    ensures n == |Kept(xs, skip)|
  {
    if !skip {
      return |xs|;
    }
    n := 0;
    for i := 0 to |xs|
      invariant n == |Kept(xs[..i], skip)|
    {
      KeptNext(xs, skip, i);
      if xs[i].kind != DH {
        n := n + 1;
      }
    }
    assert xs[..|xs|] == xs;
  }

  /** Whether the only DH group is NONE. */
  method OnlyNone(xs: seq<Transform>) returns (only: bool)
    ensures only <==> forall x :: x in xs ==> x.kind == DH ==> x.id == 0
  {
    for i := 0 to |xs|
      invariant forall j :: 0 <= j < i ==> xs[j].kind == DH ==> xs[j].id == 0
    {
      if xs[i].kind == DH && xs[i].id != 0 {
        return false;
      }
    }
    return true;
  }

  /** The next transform; if it does not fit, all of them do not. */
  method PutMarked(buf: Ibuf, x: Transform, more: bool, ghost all: seq<Transform>, ghost k: nat, ghost was: seq<Byte>) returns (ok: bool)
    requires Open(buf) && k < |all| && all[k] == x && (more <==> k + 1 < |all|)
    requires buf.Contents() == was + Marked(all, k)
    modifies buf, buf.buf
    ensures Open(buf) && buf.max == old(buf.max) && buf.rpos == old(buf.rpos) && buf.buf == old(buf.buf)
    ensures ok ==> buf.Contents() == was + Marked(all, k + 1) && buf.wpos == old(buf.wpos) - |Marked(all, k)| + |Marked(all, k + 1)|
    ensures !ok ==> old(buf.wpos) - |Marked(all, k)| + |Marked(all, |all|)| > buf.max
  {
    MarkedGrows(all, k + 1, |all|);
    ok := PutTransform(buf, x, more);
    Assoc(was, Marked(all, k), TransformBytes(x, more));
  }

  /** The loop that writes the transforms. */
  method PutTransforms(buf: Ibuf, xs: seq<Transform>, skip: bool, nxforms: nat) returns (ok: bool)
    requires Open(buf) && nxforms == |Kept(xs, skip)|
    modifies buf, buf.buf
    ensures Open(buf) && buf.max == old(buf.max) && buf.rpos == old(buf.rpos) && buf.buf == old(buf.buf)
    ensures ok <==> old(buf.wpos) + |TransformsBytes(Kept(xs, skip))| <= buf.max
    ensures ok ==> buf.Contents() == old(buf.Contents()) + TransformsBytes(Kept(xs, skip))
    ensures ok ==> buf.wpos == old(buf.wpos) + |TransformsBytes(Kept(xs, skip))|
  {
    ghost var all, was, start := Kept(xs, skip), buf.Contents(), buf.wpos;
    MarkedAll(all);
    var xfi := 0;
    for i := 0 to |xs|
      invariant Open(buf) && buf.max == old(buf.max) && buf.rpos == old(buf.rpos) && buf.buf == old(buf.buf)
      invariant xfi == |Kept(xs[..i], skip)| <= |all|
      invariant buf.Contents() == was + Marked(all, xfi) && buf.wpos == start + |Marked(all, xfi)|
    {
      KeptNext(xs, skip, i);
      if !(skip && xs[i].kind == DH) {
        ok := PutMarked(buf, xs[i], xfi != nxforms - 1, all, xfi, was);
        if !ok {
          return;
        }
        xfi := xfi + 1;
      }
    }
    assert xs[..|xs|] == xs;
    ok := true;
  }

  // ----- a proposal -----

  function ProposalSize(p: Proposal): nat
    requires SpiFits(p)
  {
    8 + |SpiBytes(p)| + |TransformsBytes(p.xforms)|
  }

  /** The length is set in the header `[more, 0, 0, 0, ...]` behind `was`. */
  lemma LengthSet(was: seq<Byte>, more: Byte, four: seq<Byte>, spi: seq<Byte>, xs: seq<Byte>, len: Word16)
    requires |four| == 4
    ensures var b := ((was + ([more, 0, 0, 0] + four)) + spi) + xs;
      b[..|was| + 2] + Put16(len) + b[|was| + 4..] == was + ([more, 0] + Put16(len) + four + spi + xs)
  {}

  method SetLength(buf: Ibuf, at: nat, len: Word16, ghost was: seq<Byte>, ghost four: seq<Byte>, ghost spi: seq<Byte>, ghost xs: seq<Byte>)
    requires buf.Valid() && at == |was| && |four| == 4
    requires buf.Contents() == ((was + ([MORE_PROPOSALS, 0, 0, 0] + four)) + spi) + xs
    modifies buf.buf
    ensures buf.Valid() && buf.Contents() == was + ([MORE_PROPOSALS, 0] + Put16(len) + four + spi + xs)
  {
    LengthSet(was, MORE_PROPOSALS, four, spi, xs, len);
    var _ := buf.Set(at + 2, Put16(len));
  }

  method PutSpi(buf: Ibuf, p: Proposal) returns (ok: bool)
    requires Open(buf) && SpiFits(p)
    modifies buf, buf.buf
    ensures Open(buf) && buf.max == old(buf.max) && buf.rpos == old(buf.rpos) && buf.buf == old(buf.buf)
    ensures ok <==> old(buf.wpos) + |SpiBytes(p)| <= buf.max
    ensures ok ==> buf.Contents() == old(buf.Contents()) + SpiBytes(p) && buf.wpos == old(buf.wpos) + |SpiBytes(p)|
  {
    match p.spisize
    case 4 => ok := Put(buf, Put32(p.spi));
    case 8 => ok := Put(buf, Put32(p.spi / 0x1_0000_0000) + Put32(p.spi % 0x1_0000_0000));
    case _ =>
      assert buf.Contents() + SpiBytes(p) == buf.Contents();
      ok := true;
  }

  /** Header, SPI and transforms; the length is not yet known. */
  method PutParts(buf: Ibuf, p: Proposal, skip: bool, nxforms: nat, four: seq<Byte>) returns (ok: bool)
    requires Open(buf) && SpiFits(p) && nxforms == |Kept(p.xforms, skip)| && |four| == 4
    modifies buf, buf.buf
    ensures Open(buf) && buf.max == old(buf.max) && buf.rpos == old(buf.rpos) && buf.buf == old(buf.buf)
    ensures var xs := TransformsBytes(Kept(p.xforms, skip));
      && (ok <==> old(buf.wpos) + (8 + |SpiBytes(p)| + |xs|) <= buf.max)
      && (ok ==> buf.Contents() == ((old(buf.Contents()) + ([MORE_PROPOSALS, 0, 0, 0] + four)) + SpiBytes(p)) + xs)
      && (ok ==> buf.wpos == old(buf.wpos) + (8 + |SpiBytes(p)| + |xs|))
  {
    ok := Put(buf, [MORE_PROPOSALS, 0, 0, 0] + four);
    if !ok {
      return;
    }
    ok := PutSpi(buf, p);
    if !ok {
      return;
    }
    ok := PutTransforms(buf, p.xforms, skip, nxforms);
  }

  /** One proposal of ikev2_add_proposals; it says that more follow. */
  method PutProposal(buf: Ibuf, p: Proposal, skip: bool) returns (ok: bool, saplength: nat)
    requires Open(buf) && SpiFits(p)
    modifies buf, buf.buf
    ensures Open(buf) && buf.max == old(buf.max) && buf.rpos == old(buf.rpos) && buf.buf == old(buf.buf)
    ensures var q := p.(xforms := Kept(p.xforms, skip));
      && (ok <==> old(buf.wpos) + ProposalSize(q) <= buf.max)
      && (ok ==> Fits(q) && buf.Contents() == old(buf.Contents()) + ProposalBytes(q, true))
      && (ok ==> saplength == ProposalSize(q) && buf.wpos == old(buf.wpos) + saplength)
  {
    saplength := 0;
    ghost var q, was := p.(xforms := Kept(p.xforms, skip)), buf.Contents();
    var at, start := buf.Size(), buf.wpos;
    var nxforms := CountKept(p.xforms, skip);
    var four := [p.id, p.protoid, p.spisize, nxforms % 256];
    ok := PutParts(buf, p, skip, nxforms, four);
    if ok {
      saplength := buf.wpos - start;
      SetLength(buf, at, saplength, was, four, SpiBytes(q), TransformsBytes(q.xforms));
      SameBytes(q, nxforms, saplength);
    }
  }

  lemma SameBytes(q: Proposal, n: nat, len: Word16)
    requires n == |q.xforms| && SpiFits(q) && len == ProposalSize(q)
    ensures Fits(q)
    ensures [MORE_PROPOSALS, 0] + Put16(len) + [q.id, q.protoid, q.spisize, n % 256] + SpiBytes(q) + TransformsBytes(q.xforms)
         == ProposalBytes(q, true)
  {}

  // ----- the payload -----

  predicate AllFit(qs: seq<Proposal>) { forall q :: q in qs ==> Fits(q) }

  predicate AllSpisFit(qs: seq<Proposal>) { forall q :: q in qs ==> SpiFits(q) }

  function TotalSize(qs: seq<Proposal>): nat
    requires AllSpisFit(qs)
  {
    if qs == [] then 0
    else
      assert qs[|qs| - 1] in qs;
      TotalSize(qs[..|qs| - 1]) + ProposalSize(qs[|qs| - 1])
  }

  /** The proposals, each marked as followed by more. */
  function Pieces(qs: seq<Proposal>): seq<seq<Byte>>
    requires AllFit(qs)
  {
    seq(|qs|, i requires 0 <= i < |qs| => assert qs[i] in qs; ProposalBytes(qs[i], true))
  }

  /** The payload before the last proposal is marked as the last. */
  function AllMore(qs: seq<Proposal>): seq<Byte>
    requires AllFit(qs)
  {
    Flat(Pieces(qs))
  }

  lemma AllMoreNext(qs: seq<Proposal>, q: Proposal)
    requires AllFit(qs) && Fits(q)
    ensures AllFit(qs + [q]) && AllMore(qs + [q]) == AllMore(qs) + ProposalBytes(q, true)
  {
    assert Pieces(qs + [q]) == Pieces(qs) + [ProposalBytes(q, true)];
    FlatAppend(Pieces(qs), [ProposalBytes(q, true)]);
    FlatOne(ProposalBytes(q, true));
  }

  /** The proposals, the last marked as the last. */
  function WrittenPieces(qs: seq<Proposal>): seq<seq<Byte>>
    requires AllFit(qs)
  {
    seq(|qs|, i requires 0 <= i < |qs| => assert qs[i] in qs; ProposalBytes(qs[i], i < |qs| - 1))
  }

  lemma {:induction false} WrittenFlat(qs: seq<Proposal>)
    requires AllFit(qs)
    ensures Written(qs) == Flat(WrittenPieces(qs))
  {
    if qs != [] {
      WrittenFlat(qs[1..]);
      assert WrittenPieces(qs)[1..] == WrittenPieces(qs[1..]);
    }
  }

  lemma LastMarked(qs: seq<Proposal>, p: Proposal)
    requires AllFit(qs + [p]) && AllFit(qs) && Fits(p)
    ensures Written(qs + [p]) == AllMore(qs) + ProposalBytes(p, false)
  {
    WrittenFlat(qs + [p]);
    assert WrittenPieces(qs + [p]) == Pieces(qs) + [ProposalBytes(p, false)];
    FlatAppend(Pieces(qs), [ProposalBytes(p, false)]);
    FlatOne(ProposalBytes(p, false));
  }

  /** The two forms of the last proposal differ in the flag only. */
  lemma {:induction false} LastTwo(qs: seq<Proposal>, p: Proposal) returns (x: seq<Byte>)
    requires AllFit(qs) && Fits(p) && AllFit(qs + [p])
    ensures x != [] && AllMore(qs + [p]) == AllMore(qs) + x && Written(qs + [p]) == AllMore(qs) + ([0] + x[1..])
  {
    x := ProposalBytes(p, true);
    AllMoreNext(qs, p);
    LastMarked(qs, p);
    FlagOnly(p);
  }

  lemma FlagCleared(was: seq<Byte>, before: seq<Byte>, x: seq<Byte>, y: seq<Byte>, s: seq<Byte>, s': seq<Byte>)
    requires x != [] && y == [0] + x[1..] && s == before + x && s' == before + y
    ensures var b, at := was + s, |was| + |before|; at < |b| && b[..at] + [0] + b[at + 1..] == was + s'
  {}

  lemma FlagOnly(p: Proposal)
    requires Fits(p)
    ensures ProposalBytes(p, false) == [0] + ProposalBytes(p, true)[1..]
  {}

  /** The SPI that a selected proposal gets: one for the new Child SAs, or that of the
      new IKE SA. */
  function Prepared(p: Proposal, protoid: Byte, initiator: bool, newspi: Word32, ikespi: Option<nat>): Proposal {
    if !Selected(p, protoid) then p
    else if ikespi.Some? then p.(spi := ikespi.value, spisize := 8)
    else if protoid != PROTO_IKE && initiator then p.(spi := newspi, spisize := 4)
    else p
  }

  function PreparedAll(ps: seq<Proposal>, protoid: Byte, initiator: bool, newspi: Word32, ikespi: Option<nat>): seq<Proposal> {
    seq(|ps|, i requires 0 <= i < |ps| => Prepared(ps[i], protoid, initiator, newspi, ikespi))
  }

  /** One round of the loop over the proposals. */
  method PutSelected(buf: Ibuf, p: Proposal, protoid: Byte, skipdh: bool) returns (ok: bool, saplength: nat)
    requires Open(buf) && SpiFits(p)
    modifies buf, buf.buf
    ensures Open(buf) && buf.max == old(buf.max) && buf.rpos == old(buf.rpos) && buf.buf == old(buf.buf)
    ensures var q := Sent(p, protoid, skipdh);
      && (ok <==> old(buf.wpos) + ProposalSize(q) <= buf.max)
      && (ok ==> Fits(q) && buf.Contents() == old(buf.Contents()) + ProposalBytes(q, true))
      && (ok ==> saplength == ProposalSize(q) && buf.wpos == old(buf.wpos) + saplength)
  {
    var skip := skipdh;
    if protoid != PROTO_IKE {
      var only := OnlyNone(p.xforms);
      skip := skip || only;
    }
    assert Sent(p, protoid, skipdh) == p.(xforms := Kept(p.xforms, skip));
    ok, saplength := PutProposal(buf, p, skip);
  }

  lemma {:induction false} SentPrefix(ps: seq<Proposal>, protoid: Byte, skipdh: bool, i: nat)
    requires i <= |ps|
    ensures SentAll(ps[..i], protoid, skipdh) <= SentAll(ps, protoid, skipdh)
  {
    if i == |ps| {
      assert ps[..i] == ps;
    } else {
      assert ps[..|ps| - 1][..i] == ps[..i];
      SentPrefix(ps[..|ps| - 1], protoid, skipdh, i);
    }
  }

  lemma SentNext(ps: seq<Proposal>, protoid: Byte, skipdh: bool, i: nat)
    requires i < |ps|
    ensures SentAll(ps[..i + 1], protoid, skipdh) ==
      if Selected(ps[i], protoid) then SentAll(ps[..i], protoid, skipdh) + [Sent(ps[i], protoid, skipdh)] else SentAll(ps[..i], protoid, skipdh)
  {
    assert ps[..i + 1][..i] == ps[..i];
  }

  /** What is sent of the proposal at `j`.  With no protocol asked for, those of Child SAs
      are sent, and else those of the protocol.  It has its own number and protocol, the
      SPI that was set, and its transforms; DH groups (type 4) only if they are not to be
      skipped, and for a Child SA only if one is not NONE. */
  lemma ProposalSent(ps: seq<Proposal>, protoid: Byte, initiator: bool, newspi: Word32, ikespi: Option<nat>, skipdh: bool, j: nat)
    requires j < |ps|
    ensures var rs := PreparedAll(ps, protoid, initiator, newspi, ikespi);
      var qs, k := SentAll(rs, protoid, skipdh), |SentAll(rs[..j], protoid, skipdh)|;
      if protoid == ps[j].protoid || (protoid == 0 && ps[j].protoid != 1) then
        && k < |qs| && |SentAll(rs[..j + 1], protoid, skipdh)| == k + 1
        && qs[k].id == ps[j].id && qs[k].protoid == ps[j].protoid
        && (qs[k].spi, qs[k].spisize) == (if ikespi.Some? then (ikespi.value, 8) else if protoid != 1 && initiator then (newspi as nat, 4) else (ps[j].spi, ps[j].spisize))
        && forall x :: x in qs[k].xforms <==>
             x in ps[j].xforms && (x.kind == 4 ==> !skipdh && (protoid == 1 || exists y :: y in ps[j].xforms && y.kind == 4 && y.id != 0))
      else SentAll(rs[..j + 1], protoid, skipdh) == SentAll(rs[..j], protoid, skipdh)
  {
    var rs := PreparedAll(ps, protoid, initiator, newspi, ikespi);
    SentNext(rs, protoid, skipdh, j);
    SentPrefix(rs, protoid, skipdh, j + 1);
    WithoutDhKeeps(ps[j].xforms);
  }

  lemma {:induction false} SentFit(ps: seq<Proposal>, protoid: Byte, skipdh: bool)
    requires AllSpisFit(ps)
    ensures AllSpisFit(SentAll(ps, protoid, skipdh))
  {
    if ps != [] {
      assert ps[|ps| - 1] in ps;
      SentFit(ps[..|ps| - 1], protoid, skipdh);
    }
  }

  lemma TotalNext(qs: seq<Proposal>, q: Proposal)
    requires AllSpisFit(qs + [q])
    ensures q in qs + [q] && AllSpisFit(qs) && TotalSize(qs + [q]) == TotalSize(qs) + ProposalSize(q)
  {
    assert (qs + [q])[..|qs|] == qs && (forall x :: x in qs ==> x in qs + [q]) && q in qs + [q];
  }

  lemma {:induction false} TotalGrows(qs: seq<Proposal>, rs: seq<Proposal>)
    requires qs <= rs && AllSpisFit(rs)
    ensures AllSpisFit(qs) && TotalSize(qs) <= TotalSize(rs)
    decreases |rs|
  {
    if |qs| < |rs| {
      assert rs[|rs| - 1] in rs && qs <= rs[..|rs| - 1];
      TotalGrows(qs, rs[..|rs| - 1]);
    } else {
      assert qs == rs;
    }
  }

  lemma {:induction false} SizeIs(qs: seq<Proposal>)
    requires AllFit(qs)
    ensures AllSpisFit(qs) && |AllMore(qs)| == TotalSize(qs)
  {
    if qs != [] {
      var before, q := qs[..|qs| - 1], qs[|qs| - 1];
      assert q in qs && qs == before + [q];
      AllMoreNext(before, q);
      SizeIs(before);
    }
  }

  /** Where the last proposal begins. */
  ghost function LastAt(was: seq<Byte>, qs: seq<Proposal>): Option<nat>
    requires AllFit(qs)
  {
    if qs == [] then None else Some(|was| + |AllMore(qs[..|qs| - 1])|)
  }

  /** `b'` is `b` without the flag at `last`. */
  ghost predicate FlagClears(last: Option<nat>, b: seq<Byte>, b': seq<Byte>) {
    if last.None? then b == b'
    else last.value < |b| && b[..last.value] + [0] + b[last.value + 1..] == b'
  }

  /** Clearing the flag of the last proposal, if there is one, makes the payload. */
  lemma {:induction false} LastCleared(was: seq<Byte>, qs: seq<Proposal>) returns (s: seq<Byte>, s': seq<Byte>)
    requires AllFit(qs)
    ensures s == AllMore(qs) && s' == Written(qs) && FlagClears(LastAt(was, qs), was + s, was + s')
  {
    s, s' := AllMore(qs), Written(qs);
    if qs != [] {
      var m, x := LastOf(qs);
      FlagCleared(was, m, x, [0] + x[1..], s, s');
    }
  }

  lemma {:induction false} LastOf(qs: seq<Proposal>) returns (m: seq<Byte>, x: seq<Byte>)
    requires qs != [] && AllFit(qs)
    ensures m == AllMore(qs[..|qs| - 1]) && x != [] && AllMore(qs) == m + x && Written(qs) == m + ([0] + x[1..])
  {
    var init, p := qs[..|qs| - 1], qs[|qs| - 1];
    assert p in qs && qs == init + [p];
    m := AllMore(init);
    x := LastTwo(init, p);
  }

  /** What is written so far: the proposals `qs` behind `was`. */
  ghost predicate Progress(buf: Ibuf, rpos: nat, was: seq<Byte>, qs: seq<Proposal>, last: Option<nat>)
    reads buf, buf.buf
  {
    Open(buf) && buf.rpos == rpos && AllFit(qs) && buf.Contents() == was + AllMore(qs) && last == LastAt(was, qs)
  }

  /** The next selected proposal. */
  method PutNext(buf: Ibuf, p: Proposal, protoid: Byte, skipdh: bool, ghost was: seq<Byte>, ghost qs: seq<Proposal>, ghost last: Option<nat>)
    returns (ok: bool, saplength: nat)
    requires Progress(buf, buf.rpos, was, qs, last) && SpiFits(p)
    modifies buf, buf.buf
    ensures Open(buf) && buf.max == old(buf.max) && buf.rpos == old(buf.rpos) && buf.buf == old(buf.buf)
    ensures var q := Sent(p, protoid, skipdh);
      && AllSpisFit(qs + [q]) && (ok <==> old(buf.rpos) + |was| + TotalSize(qs + [q]) <= buf.max)
      && (ok ==> saplength == ProposalSize(q) && Progress(buf, old(buf.rpos), was, qs + [q], Some(old(buf.Size()))))
  {
    ghost var q := Sent(p, protoid, skipdh);
    SizeIs(qs);
    TotalNext(qs, q);
    assert buf.Size() == |was + AllMore(qs)|;
    ok, saplength := PutSelected(buf, p, protoid, skipdh);
    if ok {
      PieceAdded(was, qs, q);
    }
  }

  lemma PieceAdded(was: seq<Byte>, qs: seq<Proposal>, q: Proposal)
    requires AllFit(qs) && Fits(q)
    ensures AllFit(qs + [q]) && LastAt(was, qs + [q]) == Some(|was + AllMore(qs)|)
    ensures (was + AllMore(qs)) + ProposalBytes(q, true) == was + AllMore(qs + [q])
  {
    AllMoreNext(qs, q);
    Assoc(was, AllMore(qs), ProposalBytes(q, true));
    assert (qs + [q])[..|qs + [q]| - 1] == qs;
  }

  /** ikev2_add_proposals: `newspi` is what ipsec_sa_init gives, `ikespi` the SPI of
      the new IKE SA if that is sent.  It fails exactly when the payload does not fit. */
  method AddProposals(buf: Ibuf, props: array<Proposal>, protoid: Byte, initiator: bool, newspi: Word32, ikespi: Option<nat>, skipdh: bool)
    returns (length: Option<nat>)
    requires Open(buf) && AllSpisFit(props[..]) && (ikespi.Some? ==> ikespi.value < 0x1_0000_0000_0000_0000)
    modifies props, buf, buf.buf
    ensures Open(buf) && buf.buf == old(buf.buf)
    ensures var qs := SentAll(PreparedAll(old(props[..]), protoid, initiator, newspi, ikespi), protoid, skipdh);
      && AllSpisFit(qs) && (length.Some? <==> old(buf.wpos) + TotalSize(qs) <= old(buf.max))
      && (length.Some? ==> AllFit(qs) && buf.Contents() == old(buf.Contents()) + Written(qs) && length.value == TotalSize(qs))
    ensures length.Some? ==> props[..] == PreparedAll(old(props[..]), protoid, initiator, newspi, ikespi)
  {
    ghost var ps := PreparedAll(props[..], protoid, initiator, newspi, ikespi);
    ghost var was := buf.Contents();
    PreparedFit(props[..], protoid, initiator, newspi, ikespi);
    SentFit(ps, protoid, skipdh);
    var ok, total, last := PutAll(buf, props, protoid, initiator, newspi, ikespi, skipdh, ps);
    if !ok {
      return None;
    }
    ghost var qs := SentAll(ps, protoid, skipdh);
    SizeIs(qs);
    ghost var s, s' := LastCleared(was, qs);
    Finish(buf, last, was + s, was + s');
    length := Some(total);
  }

  /** The loop over the proposals; `ps` are the proposals with their SPIs set. */
  method PutAll(buf: Ibuf, props: array<Proposal>, protoid: Byte, initiator: bool, newspi: Word32, ikespi: Option<nat>, skipdh: bool,
                ghost ps: seq<Proposal>)
    returns (ok: bool, total: nat, last: Option<nat>)
    requires Open(buf) && AllSpisFit(ps) && ps == PreparedAll(props[..], protoid, initiator, newspi, ikespi)
    modifies props, buf, buf.buf
    ensures Open(buf) && buf.buf == old(buf.buf)
    ensures AllSpisFit(SentAll(ps, protoid, skipdh))
    ensures !ok ==> old(buf.wpos) + TotalSize(SentAll(ps, protoid, skipdh)) > old(buf.max)
    ensures ok ==> buf.max == old(buf.max) && props[..] == ps && total == TotalSize(SentAll(ps, protoid, skipdh))
    ensures ok ==> Progress(buf, old(buf.rpos), old(buf.Contents()), SentAll(ps, protoid, skipdh), last)
  {
    ghost var orig, was, rpos := props[..], buf.Contents(), buf.rpos;
    SentFit(ps, protoid, skipdh);
    NothingSent(ps, protoid, skipdh, was);
    total, last := 0, None;
    for i := 0 to props.Length
      invariant props[..] == Half(ps, orig, i)
      invariant buf.max == old(buf.max) && buf.buf == old(buf.buf)
      invariant Progress(buf, rpos, was, SentAll(ps[..i], protoid, skipdh), last)
      invariant Totals(ps, protoid, skipdh, i, total)
    {
      ok, total, last := PutAt(buf, props, i, protoid, initiator, newspi, ikespi, skipdh, was, ps, orig, last, total);
      if !ok {
        return;
      }
    }
    assert ps[..props.Length] == ps;
    ok := true;
  }

  /** One round: the SPI is set, and the proposal written. */
  method PutAt(buf: Ibuf, props: array<Proposal>, i: nat, protoid: Byte, initiator: bool, newspi: Word32, ikespi: Option<nat>, skipdh: bool,
               ghost was: seq<Byte>, ghost ps: seq<Proposal>, ghost orig: seq<Proposal>, last: Option<nat>, total: nat)
    returns (ok: bool, sum: nat, at: Option<nat>)
    requires i < |ps| == |orig| && props[..] == Half(ps, orig, i) && ps[i] == Prepared(orig[i], protoid, initiator, newspi, ikespi)
    requires AllSpisFit(ps) && Progress(buf, buf.rpos, was, SentAll(ps[..i], protoid, skipdh), last) && Totals(ps, protoid, skipdh, i, total)
    modifies props, buf, buf.buf
    ensures props[..] == Half(ps, orig, i + 1)
    ensures Open(buf) && buf.max == old(buf.max) && buf.rpos == old(buf.rpos) && buf.buf == old(buf.buf)
    ensures AllSpisFit(SentAll(ps, protoid, skipdh))
    ensures !ok ==> old(buf.rpos) + |was| + TotalSize(SentAll(ps, protoid, skipdh)) > buf.max
    ensures ok ==> Progress(buf, old(buf.rpos), was, SentAll(ps[..i + 1], protoid, skipdh), at) && Totals(ps, protoid, skipdh, i + 1, sum)
  {
    HalfNext(ps, orig, i);
    var p := Prepare(props, i, protoid, initiator, newspi, ikespi);
    ok, sum, at := Round(buf, p, protoid, skipdh, was, ps, i, last, total);
  }

  lemma NothingSent(ps: seq<Proposal>, protoid: Byte, skipdh: bool, was: seq<Byte>)
    ensures var qs := SentAll(ps[..0], protoid, skipdh);
      AllFit(qs) && was + AllMore(qs) == was && LastAt(was, qs) == None && Totals(ps, protoid, skipdh, 0, 0)
  {
    Unit(was);
  }

  ghost predicate Totals(ps: seq<Proposal>, protoid: Byte, skipdh: bool, i: nat, total: nat)
    requires i <= |ps|
  {
    AllSpisFit(SentAll(ps[..i], protoid, skipdh)) && total == TotalSize(SentAll(ps[..i], protoid, skipdh))
  }

  /** The SPI of a selected proposal is set. */
  method Prepare(props: array<Proposal>, i: nat, protoid: Byte, initiator: bool, newspi: Word32, ikespi: Option<nat>) returns (p: Proposal)
    requires i < props.Length
    modifies props
    ensures p == Prepared(old(props[..])[i], protoid, initiator, newspi, ikespi) && props[..] == old(props[..])[i := p]
  {
    p := props[i];
    if !Selected(p, protoid) {
      return;
    }
    if protoid != PROTO_IKE && initiator {
      props[i] := props[i].(spi := newspi, spisize := 4);
    }
    if ikespi.Some? {
      props[i] := props[i].(spi := ikespi.value, spisize := 8);
    }
    p := props[i];
  }

  /** The proposals, the first `i` of them prepared. */
  ghost function Half(ps: seq<Proposal>, orig: seq<Proposal>, i: nat): seq<Proposal>
    requires i <= |ps| == |orig|
  {
    ps[..i] + orig[i..]
  }

  lemma HalfNext(ps: seq<Proposal>, orig: seq<Proposal>, i: nat)
    requires i < |ps| == |orig|
    ensures Half(ps, orig, i)[i] == orig[i] && Half(ps, orig, i)[i := ps[i]] == Half(ps, orig, i + 1)
  {}

  lemma PreparedFit(ps: seq<Proposal>, protoid: Byte, initiator: bool, newspi: Word32, ikespi: Option<nat>)
    requires AllSpisFit(ps) && (ikespi.Some? ==> ikespi.value < 0x1_0000_0000_0000_0000)
    ensures AllSpisFit(PreparedAll(ps, protoid, initiator, newspi, ikespi))
  {
    assert forall p :: p in ps ==> SpiFits(Prepared(p, protoid, initiator, newspi, ikespi));
  }

  /** One round of the loop over the proposals `ps`. */
  method Round(buf: Ibuf, p: Proposal, protoid: Byte, skipdh: bool, ghost was: seq<Byte>, ghost ps: seq<Proposal>, ghost i: nat,
               last: Option<nat>, total: nat)
    returns (ok: bool, sum: nat, at: Option<nat>)
    requires i < |ps| && ps[i] == p && AllSpisFit(ps) && Progress(buf, buf.rpos, was, SentAll(ps[..i], protoid, skipdh), last)
    requires Totals(ps, protoid, skipdh, i, total)
    modifies buf, buf.buf
    ensures Open(buf) && buf.max == old(buf.max) && buf.rpos == old(buf.rpos) && buf.buf == old(buf.buf)
    ensures AllSpisFit(SentAll(ps, protoid, skipdh))
    ensures !ok ==> old(buf.rpos) + |was| + TotalSize(SentAll(ps, protoid, skipdh)) > buf.max
    ensures ok ==> Progress(buf, old(buf.rpos), was, SentAll(ps[..i + 1], protoid, skipdh), at)
    ensures ok ==> Totals(ps, protoid, skipdh, i + 1, sum)
  {
    assert ps[i] in ps;
    SentFit(ps, protoid, skipdh);
    SentNext(ps, protoid, skipdh, i);
    if !Selected(p, protoid) {
      return true, total, last;
    }
    ghost var qs := SentAll(ps[..i], protoid, skipdh);
    SentPrefix(ps, protoid, skipdh, i + 1);
    TotalGrows(qs + [Sent(p, protoid, skipdh)], SentAll(ps, protoid, skipdh));
    TotalNext(qs, Sent(p, protoid, skipdh));
    at := Some(buf.Size());
    var saplength;
    ok, saplength := PutNext(buf, p, protoid, skipdh, was, qs, last);
    sum := total + saplength;
  }

  /** The last proposal is marked as the last: `b` becomes `b'`. */
  method Finish(buf: Ibuf, last: Option<nat>, ghost b: seq<Byte>, ghost b': seq<Byte>)
    requires buf.Valid() && buf.Contents() == b && FlagClears(last, b, b')
    modifies buf.buf
    ensures buf.Valid() && buf.Contents() == b'
  {
    if last.Some? {
      var _ := buf.Set(last.value, [0]);
    }
  }

  lemma Unit(a: seq<Byte>)
    ensures a + [] == a
  {}
}
