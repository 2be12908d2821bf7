/** The walks over the payloads of a message (ikev2_pld_payloads), over traffic selectors
    (ikev2_pld_tss) and over configuration attributes (ikev2_pld_cp) in
    iked/ikev2_pld.c, for any bytes. */
module PayloadWalk {
  import opened Bytes
  import opened Ikev2
  import opened Slices
  import opened Options
  import SecureMessage

  // ----- the chain of payloads -----

  datatype Payload = Payload(kind: Byte, flags: Byte, body: seq<Byte>)

  predicate Fits(p: Payload) { 4 + |p.body| < 0x1_0000 }

  function PayloadBytes(p: Payload, next: Byte): seq<Byte>
    requires Fits(p)
  {
    [next, p.flags] + Put16(4 + |p.body|) + p.body
  }

  predicate AllFit(ps: seq<Payload>) { forall p :: p in ps ==> Fits(p) }

  /** The bytes of a chain of payloads; the last one announces `next`. */
  function Chain(ps: seq<Payload>, next: Byte): seq<Byte>
    requires AllFit(ps)
  {
    if ps == [] then []
    else
      assert ps[0] in ps;
      PayloadBytes(ps[0], if |ps| > 1 then ps[1].kind else next) + Chain(ps[1..], next)
  }

  /** A walk ends with the payloads seen, the type announced next and the bytes left; or
      it stops at a malformed payload, or at one that is refused. */
  datatype Walked = Done(ps: seq<Payload>, next: Byte, rest: seq<Byte>) | Malformed | Refused

  function Before(p: Payload, w: Walked): Walked {
    if w.Done? then w.(ps := [p] + w.ps) else w
  }

  /** ikev2_validate_pld: a payload, and its length. */
  function OnePayload(b: seq<Byte>, kind: Byte): (p: Option<(Payload, nat)>)
    ensures p.Some? ==> 4 <= p.value.1 <= |b|
  {
    if |b| < 4 then None
    else
      var len := Get16(b[2..4]) as int;
      if |b| < len || len < 4 then None else Some((Payload(kind, b[1], b[4..len]), len))
  }

  /** ikev2_pld_payloads; `accepts` are the handlers of the payloads. */
  function Walk(accepts: Payload -> bool, b: seq<Byte>, kind: Byte): Walked
    decreases |b|
  {
    if kind == 0 || b == [] then Done([], kind, b)
    else
      match OnePayload(b, kind)
      case None => Malformed
      case Some((p, len)) =>
        if !accepts(p) then Refused
        else if kind == PAYLOAD_SK || kind == PAYLOAD_SKF then Done([p], b[0], b[len..])
        else Before(p, Walk(accepts, b[len..], b[0]))
  }

  /** Every byte walked over belongs to exactly one payload, in order. */
  lemma {:induction false} WalkTiles(accepts: Payload -> bool, b: seq<Byte>, kind: Byte)
    requires Walk(accepts, b, kind).Done?
    ensures var w := Walk(accepts, b, kind);
      && AllFit(w.ps) && b == Chain(w.ps, w.next) + w.rest
      && kind == (if w.ps != [] then w.ps[0].kind else w.next) && forall p :: p in w.ps ==> accepts(p)
    decreases |b|
  {
    if kind != 0 && b != [] {
      var len := Get16(b[2..4]) as int;
      var p := Payload(kind, b[1], b[4..len]);
      PayloadRead(b, len, p);
      if kind == PAYLOAD_SK || kind == PAYLOAD_SKF {
        ChainOne(p, b[0]);
        assert b == b[..len] + b[len..];
      } else {
        WalkTiles(accepts, b[len..], b[0]);
        var w := Walk(accepts, b[len..], b[0]);
        ChainCons(p, w.ps, w.next);
        Regroup(b, len, Chain(w.ps, w.next), w.rest);
      }
    }
  }

  lemma PayloadRead(b: seq<Byte>, len: nat, p: Payload)
    requires 4 <= len <= |b| && Get16(b[2..4]) == len && p.flags == b[1] && p.body == b[4..len]
    ensures Fits(p) && PayloadBytes(p, b[0]) == b[..len]
  {
    assert Put16(len) == b[2..4] by { PutGet16(b[2..4]); }
    assert b[..len] == [b[0], b[1]] + b[2..4] + b[4..len];
  }

  lemma PutGet16(s: seq<Byte>)
    requires |s| == 2
    ensures Put16(Get16(s)) == s
  {}

  lemma ChainOne(p: Payload, next: Byte)
    requires Fits(p)
    ensures Chain([p], next) == PayloadBytes(p, next)
  {
    assert Chain([p][1..], next) == [];
    assert PayloadBytes(p, next) + [] == PayloadBytes(p, next);
  }

  lemma ChainCons(p: Payload, ps: seq<Payload>, next: Byte)
    requires Fits(p) && AllFit(ps)
    ensures AllFit([p] + ps) && Chain([p] + ps, next) == PayloadBytes(p, if ps != [] then ps[0].kind else next) + Chain(ps, next)
  {
    assert ([p] + ps)[1..] == ps;
  }

  lemma Regroup(b: seq<Byte>, len: nat, c: seq<Byte>, rest: seq<Byte>)
    requires len <= |b| && b[len..] == c + rest
    ensures b == (b[..len] + c) + rest
  {}

  /** The payloads of a chain that a walk goes through: all of them can be followed by
      others. */
  predicate Followed(ps: seq<Payload>) {
    forall i :: 0 <= i < |ps| ==> ps[i].kind != 0 && (ps[i].kind == PAYLOAD_SK || ps[i].kind == PAYLOAD_SKF ==> i == |ps| - 1)
  }

  /** A chain is walked as it was made. */
  lemma {:induction false} ChainWalked(accepts: Payload -> bool, ps: seq<Payload>, rest: seq<Byte>)
    requires AllFit(ps) && Followed(ps) && forall p :: p in ps ==> accepts(p)
    ensures Walk(accepts, Chain(ps, 0) + rest, if ps == [] then 0 else ps[0].kind) == Done(ps, 0, rest)
  {
    if ps == [] {
      assert Chain(ps, 0) + rest == rest;
    } else {
      var p, next := ps[0], if |ps| > 1 then ps[1].kind else 0;
      assert p in ps;
      PayloadWalked(accepts, p, next, Chain(ps[1..], 0) + rest);
      Assoc(PayloadBytes(p, next), Chain(ps[1..], 0), rest);
      assert [p] + ps[1..] == ps;
      ChainWalked(accepts, ps[1..], rest);
    }
  }

  /** One payload of a chain is walked over. */
  lemma PayloadWalked(accepts: Payload -> bool, p: Payload, next: Byte, tail: seq<Byte>)
    requires Fits(p) && p.kind != 0 && accepts(p)
    ensures Walk(accepts, PayloadBytes(p, next) + tail, p.kind) ==
      if p.kind == PAYLOAD_SK || p.kind == PAYLOAD_SKF then Done([p], next, tail) else Before(p, Walk(accepts, tail, next))
  {
    PayloadFields(p, next, tail);
  }

  lemma PayloadFields(p: Payload, next: Byte, tail: seq<Byte>)
    requires Fits(p)
    ensures var b, len := PayloadBytes(p, next) + tail, 4 + |p.body|;
      |b| >= len && b[0] == next && b[1] == p.flags && Get16(b[2..4]) == len && b[4..len] == p.body && b[len..] == tail
  {
    var b, len := PayloadBytes(p, next) + tail, 4 + |p.body|;
    assert b[2..4] == Put16(len) + [];
    RoundTrip16(len, []);
  }

  /** ikev2_pld_e and ikev2_pld_ef take any payload that has its fragment header. */
  function Headed(): Payload -> bool {
    (p: Payload) => p.kind == PAYLOAD_SKF ==> |p.body| >= SecureMessage.FRAG
  }

  lemma LocateFirst(msg: seq<Byte>, b: seq<Byte>)
    requires SecureMessage.HDR <= |msg| && SecureMessage.HDR <= Get32(msg[24..28]) <= |msg| && msg[16] in {PAYLOAD_SK, PAYLOAD_SKF}
    requires b == msg[SecureMessage.HDR..Get32(msg[24..28])]
    ensures var l, p := SecureMessage.Locate(msg), OnePayload(b, msg[16]);
      && (l.Some? <==> p.Some? && Headed()(p.value.0))
      && (l.Some? ==> l.value.first == b[0] && p.value.0.body == SecureMessage.FragmentBytes(l.value.frag) + l.value.data)
  {
    var total: nat := |b|;
    assert b == msg[SecureMessage.HDR..SecureMessage.HDR + total];
    if total >= 4 {
      assert b[0] == msg[SecureMessage.HDR];
      SlicePart(msg, SecureMessage.HDR, total, 2, 4);
      var len: nat := Get16(b[2..4]);
      if 4 <= len <= total {
        SlicePart(msg, SecureMessage.HDR, total, 4, len);
        var body := b[4..len];
        assert body == msg[SecureMessage.HDR + SecureMessage.PLD..SecureMessage.HDR + len];
        BodyParts(body);
      }
    }
  }

  /** An encrypted payload that comes first is located where the walk finds it: in its
      one payload, behind the fragment header if that is a fragment. */
  lemma {:induction false} LocateWalks(msg: seq<Byte>)
    requires SecureMessage.HDR <= |msg| && SecureMessage.HDR <= Get32(msg[24..28]) <= |msg| && msg[16] in {PAYLOAD_SK, PAYLOAD_SKF}
    ensures var l, w := SecureMessage.Locate(msg), Walk(Headed(), msg[SecureMessage.HDR..Get32(msg[24..28])], msg[16]);
      && (l.Some? <==> w.Done? && w.ps != [])
      && (l.Some? ==> w.ps == [Payload(msg[16], msg[29], SecureMessage.FragmentBytes(l.value.frag) + l.value.data)] && w.next == l.value.first)
  {
    LocateFirst(msg, msg[SecureMessage.HDR..Get32(msg[24..28])]);
  }

  lemma BodyParts(body: seq<Byte>)
    ensures SecureMessage.FragmentBytes(SecureMessage.Whole) + body == body
    ensures |body| >= 4 ==> SecureMessage.FragmentBytes(SecureMessage.Part(Get16(body[..2]), Get16(body[2..4]))) + body[4..] == body
  {
    if |body| >= 4 {
      PutGet16(body[..2]);
      PutGet16(body[2..4]);
      assert body == body[..2] + body[2..4] + body[4..];
    }
  }

  /** The payload at `offset`, of type `kind`, and its length. */
  method ReadPayload(data: seq<Byte>, offset: nat, total: nat, kind: Byte, ghost b: seq<Byte>) returns (p: Option<(Payload, nat)>)
    requires offset + total <= |data| && b == data[offset..offset + total]
    ensures p == OnePayload(b, kind)
  {
    if total < 4 {
      return None;
    }
    SlicePart(data, offset, total, 2, 4);
    var size: nat := Get16(data[offset + 2..offset + 4]);
    if total < size || size < 4 {
      return None;
    }
    SlicePart(data, offset, total, 4, size);
    return Some((Payload(kind, data[offset + 1], data[offset + 4..offset + size]), size));
  }

  /** ikev2_pld_payloads, with its offsets: `total` is what is left of the message. */
  method PldPayloads(accepts: Payload -> bool, data: seq<Byte>, offset0: nat, length: nat, payload0: Byte) returns (ok: bool)
    requires length <= |data|
    ensures offset0 > length ==> ok
    ensures offset0 <= length ==> (ok <==> Walk(accepts, data[offset0..length], payload0).Done?)
  {
    if offset0 > length {
      return true;
    }
    var offset: nat, payload := offset0, payload0;
    var total: nat := length - offset;
    ghost var b := data[offset..offset + total];
    ghost var goal := Walk(accepts, b, payload).Done?;
    while payload != 0 && offset < length
      invariant offset + total == length && b == data[offset..offset + total]
      invariant goal <==> Walk(accepts, b, payload).Done?
      decreases total
    {
      var p := ReadPayload(data, offset, total, payload, b);
      if p.None? || !accepts(p.value.0) {
        return false;
      }
      if payload == PAYLOAD_SK || payload == PAYLOAD_SKF {
        return true;
      }
      var size := p.value.1;
      SliceTail(data, offset, total, size);
      payload := data[offset];
      b := b[size..];
      offset, total := offset + size, total - size;
    }
    return true;
  }

  // ----- traffic selectors -----

  const TS_IPV4: Byte := 7
  const TS_IPV6: Byte := 8

  /** The header of a selector, but for its length, and its addresses. */
  datatype Selector = Selector(kind: Byte, protoid: Byte, ports: seq<Byte>, addrs: seq<Byte>)

  /** ikev2_pld_ts: two addresses of the type, or a type that is not known. */
  predicate WellSized(t: Selector) {
    (t.kind == TS_IPV4 ==> |t.addrs| == 8) && (t.kind == TS_IPV6 ==> |t.addrs| == 32)
  }

  function SelectorBytes(t: Selector): seq<Byte>
    requires 8 + |t.addrs| < 0x1_0000
  {
    [t.kind, t.protoid] + Put16(8 + |t.addrs|) + t.ports + t.addrs
  }

  /** ikev2_validate_ts and ikev2_pld_ts: a selector, and its length. */
  function OneSelector(b: seq<Byte>): (t: Option<(Selector, nat)>)
    ensures t.Some? ==> 8 <= t.value.1 <= |b|
  {
    if |b| < 8 then None
    else
      var len := Get16(b[2..4]) as int;
      if len < 8 || |b| < len then None
      else
        var t := Selector(b[0], b[1], b[4..8], b[8..len]);
        if WellSized(t) then Some((t, len)) else None
  }

  /** ikev2_pld_tss, behind its header: `n` selectors, and the bytes left. */
  function Selectors(b: seq<Byte>, n: nat): Option<(seq<Selector>, seq<Byte>)> {
    if n == 0 then Some(([], b))
    else
      match OneSelector(b)
      case None => None
      case Some((t, len)) =>
        match Selectors(b[len..], n - 1)
        case None => None
        case Some((ts, rest)) => Some(([t] + ts, rest))
  }

  /** `n` selectors tile the bytes that are read, each with the length it declares. */
  lemma {:induction false} SelectorsTile(b: seq<Byte>, n: nat)
    requires Selectors(b, n).Some?
    ensures var (ts, rest) := Selectors(b, n).value;
      && |ts| == n && (forall t :: t in ts ==> WellSized(t) && |t.ports| == 4 && 8 + |t.addrs| < 0x1_0000)
      && b == SelectorsBytes(ts) + rest
  {
    if n > 0 {
      var (t, len) := OneSelector(b).value;
      SelectorRead(b);
      SelectorsTile(b[len..], n - 1);
      var (ts, rest) := Selectors(b[len..], n - 1).value;
      assert ([t] + ts)[0] == t && ([t] + ts)[1..] == ts;
      Regroup(b, len, SelectorsBytes(ts), rest);
    }
  }

  /** Which selectors are taken: those of the length they declare, which for IPv4 (type 7)
      is 16, and for IPv6 (type 8) 40. */
  lemma SelectorTaken(b: seq<Byte>)
    ensures OneSelector(b).Some? <==>
      |b| >= 8 && var len := Get16(b[2..4]) as int; 8 <= len <= |b| && (b[0] == 7 ==> len == 16) && (b[0] == 8 ==> len == 40)
  {}

  /** The fields of a selector at their places, and it is read as it was made. */
  lemma SelectorFields(t: Selector, rest: seq<Byte>)
    requires WellSized(t) && |t.ports| == 4 && 8 + |t.addrs| < 0x1_0000
    ensures var b, len := SelectorBytes(t) + rest, 8 + |t.addrs|;
      && b[0] == t.kind && b[1] == t.protoid && Get16(b[2..4]) as int == len && b[4..8] == t.ports && b[8..len] == t.addrs && b[len..] == rest
      && OneSelector(b) == Some((t, len))
  {
    var b, len := SelectorBytes(t) + rest, 8 + |t.addrs|;
    assert b[2..4] == Put16(len) + [];
    RoundTrip16(len, []);
    assert b[4..8] == t.ports && b[8..len] == t.addrs && b[len..] == rest;
  }

  /** Selectors of a size that fits their type are read as they were made. */
  lemma {:induction false} SelectorsBack(ts: seq<Selector>, rest: seq<Byte>)
    requires forall t :: t in ts ==> WellSized(t) && |t.ports| == 4 && 8 + |t.addrs| < 0x1_0000
    ensures Selectors(SelectorsBytes(ts) + rest, |ts|) == Some((ts, rest))
  {
    if ts == [] {
      assert SelectorsBytes(ts) + rest == rest;
    } else {
      assert ts[0] in ts;
      var tail := SelectorsBytes(ts[1..]) + rest;
      Assoc(SelectorBytes(ts[0]), SelectorsBytes(ts[1..]), rest);
      SelectorFields(ts[0], tail);
      SelectorsBack(ts[1..], rest);
      SelectorsNext(SelectorBytes(ts[0]) + tail, ts, 8 + |ts[0].addrs|, rest);
    }
  }

  lemma SelectorsNext(b: seq<Byte>, ts: seq<Selector>, len: nat, rest: seq<Byte>)
    requires ts != [] && OneSelector(b) == Some((ts[0], len)) && Selectors(b[len..], |ts| - 1) == Some((ts[1..], rest))
    ensures Selectors(b, |ts|) == Some((ts, rest))
  {
    assert [ts[0]] + ts[1..] == ts;
  }

  lemma SelectorRead(b: seq<Byte>)
    requires OneSelector(b).Some?
    ensures var (t, len) := OneSelector(b).value;
      WellSized(t) && |t.ports| == 4 && 8 + |t.addrs| < 0x1_0000 && SelectorBytes(t) == b[..len]
  {
    PutGet16(b[2..4]);
    var len := OneSelector(b).value.1;
    assert b[..len] == [b[0], b[1]] + b[2..4] + b[4..8] + b[8..len];
  }

  function SelectorsBytes(ts: seq<Selector>): seq<Byte>
    requires forall t :: t in ts ==> 8 + |t.addrs| < 0x1_0000
  {
    if ts == [] then []
    else
      assert ts[0] in ts;
      SelectorBytes(ts[0]) + SelectorsBytes(ts[1..])
  }

  /** The length of the selector at `offset`, if it is well formed. */
  method ReadSelector(data: seq<Byte>, offset: nat, left: nat, ghost b: seq<Byte>) returns (len: Option<nat>)
    requires offset + left <= |data| && b == data[offset..offset + left]
    ensures len == if OneSelector(b).Some? then Some(OneSelector(b).value.1) else None
  {
    if left < 8 {
      return None;
    }
    SlicePart(data, offset, left, 2, 4);
    var size: nat := Get16(data[offset + 2..offset + 4]);
    if size < 8 || left < size {
      return None;
    }
    SlicePart(data, offset, left, 4, 8);
    SlicePart(data, offset, left, 8, size);
    var t := Selector(data[offset], data[offset + 1], data[offset + 4..offset + 8], data[offset + 8..offset + size]);
    return if WellSized(t) then Some(size) else None;
  }

  /** ikev2_pld_tss. */
  method PldTss(data: seq<Byte>, offset0: nat, left0: nat) returns (ok: bool)
    requires offset0 + left0 <= |data|
    ensures ok <==> left0 >= 4 && Selectors(data[offset0 + 4..offset0 + left0], data[offset0]).Some?
  {
    if left0 < 4 {
      return false;
    }
    var n: nat, offset: nat, left: nat := data[offset0], offset0 + 4, left0 - 4;
    ghost var b := data[offset..offset + left];
    ghost var goal := Selectors(b, n).Some?;
    for i := 0 to n
      invariant offset + left == offset0 + left0 && b == data[offset..offset + left]
      invariant goal <==> Selectors(b, n - i).Some?
    {
      var len := ReadSelector(data, offset, left, b);
      if len.None? {
        return false;
      }
      SliceTail(data, offset, left, len.value);
      b := b[len.value..];
      offset, left := offset + len.value, left - len.value;
    }
    return true;
  }

  // ----- configuration attributes -----

  const IP4_ADDRESS: Word16 := 1
  const IP4_DNS: Word16 := 3
  const IP6_ADDRESS: Word16 := 8
  const IP6_DNS: Word16 := 10

  datatype Attribute = Attribute(kind: Word16, value: seq<Byte>)

  /** An address is not cut short, if it is there. */
  predicate Whole(a: Attribute) {
    && (a.kind in {IP4_ADDRESS, IP4_DNS} ==> a.value == [] || |a.value| >= 4)
    && (a.kind in {IP6_ADDRESS, IP6_DNS} ==> a.value == [] || |a.value| >= 16)
  }

  /** The attribute at the start; its header has 4 bytes. */
  function OneAttribute(b: seq<Byte>): (a: Option<Attribute>)
    ensures a.Some? ==> 4 + |a.value.value| <= |b| && |a.value.value| < 0x1_0000
  {
    if |b| < 4 then None
    else
      var len := Get16(b[2..4]) as int;
      if |b| - 4 < len then None
      else
        var a := Attribute(Get16(b[..2]), b[4..4 + len]);
        if Whole(a) then Some(a) else None
  }

  /** ikev2_pld_cp, behind its header. */
  function Attributes(b: seq<Byte>): Option<seq<Attribute>>
    decreases |b|
  {
    if b == [] then Some([])
    else
      match OneAttribute(b)
      case None => None
      case Some(a) =>
        match Attributes(b[4 + |a.value|..])
        case None => None
        case Some(s) => Some([a] + s)
  }

  function AttributeBytes(a: Attribute): seq<Byte>
    requires |a.value| < 0x1_0000
  {
    Put16(a.kind) + Put16(|a.value|) + a.value
  }

  function AttributesBytes(s: seq<Attribute>): seq<Byte>
    requires forall a :: a in s ==> |a.value| < 0x1_0000
  {
    if s == [] then []
    else
      assert s[0] in s;
      AttributeBytes(s[0]) + AttributesBytes(s[1..])
  }

  /** Which attributes are taken: those that fit; addresses of IPv4 (types 1 and 3) with no
      value or at least 4 bytes, of IPv6 (types 8 and 10) with none or at least 16. */
  lemma AttributeTaken(b: seq<Byte>)
    ensures OneAttribute(b).Some? <==>
      |b| >= 4 && var kind, len := Get16(b[..2]), Get16(b[2..4]) as int;
      && len <= |b| - 4 && (kind in {1, 3} ==> len == 0 || len >= 4) && (kind in {8, 10} ==> len == 0 || len >= 16)
  {}

  /** The fields of an attribute at their places, and it is read as it was made. */
  lemma AttributeFields(a: Attribute, rest: seq<Byte>)
    requires Whole(a) && |a.value| < 0x1_0000
    ensures var b, len := AttributeBytes(a) + rest, 4 + |a.value|;
      && Get16(b[..2]) == a.kind && Get16(b[2..4]) as int == |a.value| && b[4..len] == a.value && b[len..] == rest
      && OneAttribute(b) == Some(a)
  {
    var b, len := AttributeBytes(a) + rest, 4 + |a.value|;
    assert b[..2] == Put16(a.kind) + [] && b[2..4] == Put16(|a.value|) + [];
    RoundTrip16(a.kind, []);
    RoundTrip16(|a.value|, []);
    assert b[4..len] == a.value && b[len..] == rest;
  }

  /** Attributes whose addresses are not cut short are read as they were made. */
  lemma {:induction false} AttributesBack(s: seq<Attribute>)
    requires forall a :: a in s ==> Whole(a) && |a.value| < 0x1_0000
    ensures Attributes(AttributesBytes(s)) == Some(s)
  {
    if s != [] {
      assert s[0] in s;
      AttributeFields(s[0], AttributesBytes(s[1..]));
      AttributesBack(s[1..]);
      assert [s[0]] + s[1..] == s;
    }
  }

  lemma AttributeRead(b: seq<Byte>)
    requires OneAttribute(b).Some?
    ensures var a := OneAttribute(b).value; Whole(a) && AttributeBytes(a) == b[..4 + |a.value|]
  {
    var a := OneAttribute(b).value;
    PutGet16(b[..2]);
    PutGet16(b[2..4]);
    assert b[..4 + |a.value|] == b[..2] + b[2..4] + b[4..4 + |a.value|];
  }

  /** The attributes tile the whole payload. */
  lemma {:induction false} AttributesTile(b: seq<Byte>)
    requires Attributes(b).Some?
    ensures var s := Attributes(b).value; (forall a :: a in s ==> Whole(a) && |a.value| < 0x1_0000) && b == AttributesBytes(s)
    decreases |b|
  {
    if b != [] {
      var a := OneAttribute(b).value;
      var len := 4 + |a.value|;
      AttributeRead(b);
      AttributesTile(b[len..]);
      var s := Attributes(b[len..]).value;
      assert ([a] + s)[0] == a && ([a] + s)[1..] == s;
      assert b == b[..len] + b[len..];
    }
  }

  /** The addresses that a message asks for or gives. */
  datatype Config = Config(addr: Option<seq<Byte>>, addr6: Option<seq<Byte>>, dns: Option<seq<Byte>>)

  /** The first address of a sort counts. */
  function Taken(c: Config, a: Attribute): Config
    requires Whole(a)
  {
    if a.value == [] then c
    else if a.kind == IP4_ADDRESS && c.addr.None? then c.(addr := Some(a.value[..4]))
    else if a.kind == IP6_ADDRESS && c.addr6.None? then c.(addr6 := Some(a.value[..16]))
    else if a.kind == IP4_DNS && c.dns.None? then c.(dns := Some(a.value[..4]))
    else if a.kind == IP6_DNS && c.dns.None? then c.(dns := Some(a.value[..16]))
    else c
  }

  function TakenAll(c: Config, s: seq<Attribute>): Config
    requires forall a :: a in s ==> Whole(a)
    decreases |s|
  {
    if s == [] then c
    else
      assert s[0] in s;
      TakenAll(Taken(c, s[0]), s[1..])
  }

  /** Reads the attribute at `offset`. */
  method ReadAttribute(data: seq<Byte>, offset: nat, len: nat, ghost b: seq<Byte>) returns (a: Option<Attribute>)
    requires offset + len <= |data| && b == data[offset..offset + len]
    ensures a == OneAttribute(b)
  {
    if len < 4 {
      return None;
    }
    SlicePart(data, offset, len, 0, 2);
    SlicePart(data, offset, len, 2, 4);
    var size: nat := Get16(data[offset + 2..offset + 4]);
    if len - 4 < size {
      return None;
    }
    SlicePart(data, offset, len, 4, 4 + size);
    var read := Attribute(Get16(data[offset..offset + 2]), data[offset + 4..offset + 4 + size]);
    return if Whole(read) then Some(read) else None;
  }

  /** ikev2_pld_cp. */
  method PldCp(data: seq<Byte>, offset0: nat, left: nat, c0: Config) returns (c: Option<Config>)
    requires offset0 + left <= |data|
    ensures c == if left < 4 then None else Outcome(data[offset0 + 4..offset0 + left], c0)
  {
    if left < 4 {
      return None;
    }
    var offset: nat, len: nat, now := offset0 + 4, left - 4, c0;
    ghost var b := data[offset..offset + len];
    ghost var goal := Outcome(b, c0);
    while len > 0
      invariant offset + len == offset0 + left && b == data[offset..offset + len]
      invariant goal == Outcome(b, now)
      decreases len
    {
      var size, next := TakeAttribute(data, offset, len, now, b);
      if size.None? {
        return None;
      }
      SliceTail(data, offset, len, size.value);
      b, now := b[size.value..], next;
      offset, len := offset + size.value, len - size.value;
    }
    c := Some(now);
  }

  /** One round of the loop: the size of the attribute, and the addresses with it. */
  method TakeAttribute(data: seq<Byte>, offset: nat, len: nat, c: Config, ghost b: seq<Byte>) returns (size: Option<nat>, next: Config)
    requires 0 < len && offset + len <= |data| && b == data[offset..offset + len]
    ensures size.Some? ==> 0 < size.value <= len
    ensures Outcome(b, c) == if size.None? then None else Outcome(b[size.value..], next)
  {
    var a := ReadAttribute(data, offset, len, b);
    OutcomeNext(b, c);
    if a.None? {
      return None, c;
    }
    return Some(4 + |a.value.value|), Taken(c, a.value);
  }

  /** What the attributes of a payload add to the addresses, if all are well formed. */
  ghost function Outcome(b: seq<Byte>, c: Config): Option<Config> {
    if Attributes(b).None? then None
    else
      AttributesTile(b);
      Some(TakenAll(c, Attributes(b).value))
  }

  lemma OutcomeNext(b: seq<Byte>, c: Config)
    requires b != []
    ensures OneAttribute(b).None? ==> Outcome(b, c) == None
    ensures OneAttribute(b).Some? ==> var a := OneAttribute(b).value; Whole(a) && Outcome(b, c) == Outcome(b[4 + |a.value|..], Taken(c, a))
  {
    if OneAttribute(b).Some? {
      var a := OneAttribute(b).value;
      AttributeRead(b);
      if Attributes(b).Some? {
        var s := Attributes(b[4 + |a.value|..]).value;
        assert ([a] + s)[0] == a && ([a] + s)[1..] == s;
      }
    }
  }

  /** The first of the attributes of these kinds that is not empty; the end if none is. */
  predicate FirstOf(s: seq<Attribute>, kinds: set<Word16>, i: nat) {
    && i <= |s| && (i < |s| ==> s[i].kind in kinds && s[i].value != [])
    && forall j :: 0 <= j < i ==> s[j].kind !in kinds || s[j].value == []
  }

  /** An address is that of the first attribute of its sort that is not empty, if none was
      there before; both sorts of name servers share a place. */
  lemma {:induction false} FirstTaken(c: Config, s: seq<Attribute>, i: nat, i6: nat, d: nat)
    requires (forall a :: a in s ==> Whole(a)) && FirstOf(s, {1}, i) && FirstOf(s, {8}, i6) && FirstOf(s, {3, 10}, d)
    ensures i < |s| ==> |s[i].value| >= 4
    ensures i6 < |s| ==> |s[i6].value| >= 16
    ensures d < |s| ==> |s[d].value| >= if s[d].kind == 3 then 4 else 16
    ensures TakenAll(c, s).addr == if c.addr.None? && i < |s| then Some(s[i].value[..4]) else c.addr
    ensures TakenAll(c, s).addr6 == if c.addr6.None? && i6 < |s| then Some(s[i6].value[..16]) else c.addr6
    ensures TakenAll(c, s).dns == if c.dns.None? && d < |s| then Some(s[d].value[..if s[d].kind == 3 then 4 else 16]) else c.dns
    decreases |s|
  {
    if s != [] {
      assert s[0] in s;
      var j := NextFirst(s, {1}, i);
      var j6 := NextFirst(s, {8}, i6);
      var e := NextFirst(s, {3, 10}, d);
      FirstTaken(Taken(c, s[0]), s[1..], j, j6, e);
    }
  }

  lemma First(s: seq<Attribute>, kinds: set<Word16>) returns (i: nat)
    ensures FirstOf(s, kinds, i)
  {
    i := 0;
    while i < |s| && (s[i].kind !in kinds || s[i].value == [])
      invariant i <= |s| && forall j :: 0 <= j < i ==> s[j].kind !in kinds || s[j].value == []
    {
      i := i + 1;
    }
  }

  /** The place in the rest; that of the next one if it was the start. */
  lemma NextFirst(s: seq<Attribute>, kinds: set<Word16>, i: nat) returns (j: nat)
    requires s != [] && FirstOf(s, kinds, i)
    ensures FirstOf(s[1..], kinds, j) && (i > 0 ==> j == i - 1)
  {
    if i > 0 {
      j := i - 1;
    } else {
      j := First(s[1..], kinds);
    }
  }
}
