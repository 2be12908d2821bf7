/** The reader of SA payloads (ikev2_pld_sa, ikev2_pld_xform and ikev2_pld_attr in
    iked/ikev2_pld.c, with the lists of iked/config.c), as it walks over a message from
    the peer. */
module SaReader {
  import opened Bytes
  import opened Ikev2
  import opened SaPayload
  import opened Slices
  import opened Options

  class Message {
    const data: seq<Byte>
    var proposals: seq<Proposal>
    var attrlength: Word16

    constructor (data: seq<Byte>)
      ensures this.data == data && proposals == []
    {
      this.data := data;
      proposals, attrlength := [], 0;
    }

    /** The bytes of a structure. */
    ghost function At(offset: nat, total: nat): seq<Byte>
      requires offset + total <= |data|
    {
      data[offset..offset + total]
    }

    /** ikev2_pld_attr. */
    method PldAttr(offset0: nat, total0: nat) returns (ok: bool)
      requires offset0 + total0 <= |data|
      modifies this`attrlength
      ensures ParseAttributes(At(offset0, total0), old(attrlength)) == if ok then Some(attrlength) else None
    {
      var offset: nat, total: nat := offset0, total0;
      while true
        invariant offset + total == offset0 + total0
        invariant ParseAttributes(At(offset0, total0), old(attrlength)) == ParseAttributes(At(offset, total), attrlength)
        decreases total
      {
        if total < 4 {
          return false;
        }
        SlicePart(data, offset, total, 0, 2);
        SlicePart(data, offset, total, 2, 4);
        var kind, value := Get16(data[offset..offset + 2]), Get16(data[offset + 2..offset + 4]);
        var size: nat := value;
        if kind >= TV {
          if kind - TV == KEY_LENGTH {
            attrlength := value;
          }
          SliceTail(data, offset, total, 4);
          offset, total := offset + 4, total - 4;
        } else {
          if size < 4 || total < size {
            return false;
          }
          SliceTail(data, offset, total, size);
          offset, total := offset + size, total - size;
        }
        if total == 0 {
          return true;
        }
      }
    }

    /** config_add_transform, to the proposal at `k`: -2 for an unknown type. */
    method AddTransformTo(k: nat, x: Transform) returns (r: int)
      requires k < |proposals|
      modifies this`proposals
      ensures r == if Known(x) then 0 else -2
      ensures proposals == if Known(x) then old(proposals)[k := old(proposals)[k].(xforms := AddTransform(old(proposals)[k].xforms, x))] else old(proposals)
    {
      if !(1 <= x.kind <= 5) {
        return -2;
      }
      var xs := proposals[k].xforms;
      for i := 0 to |xs|
        invariant x !in xs[..i] && proposals == old(proposals)
      {
        if xs[i] == x {
          assert proposals[k].(xforms := xs) == proposals[k];
          return 0;
        }
      }
      assert xs[..|xs|] == xs;
      proposals := proposals[k := proposals[k].(xforms := xs + [x])];
      r := 0;
    }

    /** The header and the attributes of a transform. */
    method ReadXform(offset: nat, total: nat) returns (h: Option<XformHead>)
      requires offset + total <= |data|
      modifies this`attrlength
      ensures h == ParseXform(At(offset, total))
    {
      if total < 8 {
        return None;
      }
      SlicePart(data, offset, total, 2, 4);
      SlicePart(data, offset, total, 6, 8);
      var len: nat := Get16(data[offset + 2..offset + 4]);
      if len < 8 || total < len {
        return None;
      }
      SlicePart(data, offset, total, 8, len);
      attrlength := 0;
      if len > 8 {
        var ok := PldAttr(offset + 8, len - 8);
        if !ok {
          return None;
        }
      }
      h := Some(XformHead(len, data[offset] == MORE_TRANSFORMS, Transform(data[offset + 4], Get16(data[offset + 6..offset + 8]), attrlength)));
    }

    /** ikev2_pld_xform. */
    method PldXform(offset0: nat, total0: nat, k: nat) returns (r: int)
      requires offset0 + total0 <= |data| && k < |proposals|
      modifies this
      ensures |proposals| == |old(proposals)| && proposals == old(proposals)[k := old(proposals)[k].(xforms := proposals[k].xforms)]
      ensures match ParseTransforms(At(offset0, total0), old(proposals)[k].xforms)
        case Malformed => r == -1
        case Unknown => r == -2
        case Transforms(xs) => r == 0 && proposals[k].xforms == xs
    {
      var offset: nat, total: nat := offset0, total0;
      assert proposals == proposals[k := proposals[k].(xforms := proposals[k].xforms)];
      while true
        invariant offset + total == offset0 + total0 && |proposals| == |old(proposals)|
        invariant proposals == old(proposals)[k := old(proposals)[k].(xforms := proposals[k].xforms)]
        invariant ParseTransforms(At(offset0, total0), old(proposals)[k].xforms) == ParseTransforms(At(offset, total), proposals[k].xforms)
        decreases total
      {
        var h := ReadXform(offset, total);
        if h.None? {
          return -1;
        }
        SliceTail(data, offset, total, h.value.len);
        r := AddTransformTo(k, h.value.x);
        if r != 0 {
          return;
        }
        offset, total := offset + h.value.len, total - h.value.len;
        if !h.value.more {
          return if total != 0 then -1 else 0;
        }
      }
    }

    /** config_add_proposal: the place of the proposal, old or new. */
    method AddProposalTo(id: Byte, protoid: Byte, spi: nat, spisize: Byte) returns (k: nat)
      modifies this`proposals
      ensures proposals == AddProposal(old(proposals), id, protoid, spi, spisize)
      ensures k == PlaceOf(old(proposals), id, protoid)
    {
      k := 0;
      ghost var place := PlaceOf(proposals, id, protoid);
      while k < |proposals|
        invariant k <= place && proposals == old(proposals)
      {
        if proposals[k].id == id && proposals[k].protoid == protoid {
          proposals := proposals[k := proposals[k].(spi := spi, spisize := spisize)];
          return;
        }
        k := k + 1;
      }
      proposals := proposals + [Proposal(id, protoid, spi, spisize, [])];
    }

    /** The proposal is added with its transforms, or ignored for an unknown one. */
    method TakeProposal(id: Byte, protoid: Byte, spisize: Byte, n: Byte, offset: nat, total: nat, spi: nat, ghost b: seq<Byte>) returns (ok: bool)
      requires offset + total <= |data| && b == At(offset, total)
      modifies this
      ensures ParseProposal(id, protoid, spisize, n, b, old(proposals), spi) == if ok then Some(proposals) else None
    {
      var k := AddProposalTo(id, protoid, spi, spisize);
      if n == 0 {
        return true;
      }
      ghost var qs := proposals;
      var r := PldXform(offset, total, k);
      if r == -2 {
        assert proposals[..k] == qs[..k] && proposals[k + 1..] == qs[k + 1..];
        proposals := proposals[..k] + proposals[k + 1..];
        return true;
      }
      return r == 0;
    }

    /** The header of a proposal and its SPI. */
    method ReadHead(offset: nat, left: nat) returns (h: Option<Head>)
      requires offset + left <= |data|
      ensures h == ParseHead(At(offset, left))
    {
      if left < 8 {
        return None;
      }
      SlicePart(data, offset, left, 2, 4);
      var len: nat, more := Get16(data[offset + 2..offset + 4]), data[offset] != 0;
      if len < 8 || left < len || (!more && left != len) || (more && left <= len) {
        return None;
      }
      SlicePart(data, offset, left, 8, len);
      var spisize, total := data[offset + 6] as int, len - 8;
      var spi := None;
      if spisize != 0 {
        if total < spisize || (spisize != 4 && spisize != 8) {
          return None;
        }
        spi := Some(GetSpi(data[offset + 8..offset + len], spisize));
      }
      h := Some(Head(len, more, data[offset + 4], data[offset + 5], spisize, data[offset + 7], spi));
    }

    /** One round of ikev2_pld_sa, on the bytes `b`; the SPI read is kept for the next. */
    method OneProposal(offset: nat, left: nat, spi: nat, ghost b: seq<Byte>) returns (ok: bool, len: nat, more: bool, now: nat)
      requires offset + left <= |data| && b == At(offset, left)
      modifies this
      ensures ok ==> 8 <= len <= left
      ensures ParseSa(b, old(proposals), spi) == if !ok then None else if more then ParseSa(b[len..], proposals, now) else Some(proposals)
    {
      ok, len, more, now := false, 0, false, spi;
      var h := ReadHead(offset, left);
      if h.None? {
        return;
      }
      len, more := h.value.len, h.value.more;
      var head := 8 + h.value.spisize as int;
      if h.value.spi.Some? {
        now := h.value.spi.value;
      }
      SlicePart(data, offset, left, head, len);
      ok := TakeProposal(h.value.id, h.value.protoid, h.value.spisize, h.value.n, offset + head, len - head, now, b[head..len]);
      SaStep(b, old(proposals), spi, h.value, now, if ok then Some(proposals) else None);
    }

    /** ikev2_pld_sa. */
    method PldSa(offset0: nat, left0: nat) returns (ok: bool)
      requires offset0 + left0 <= |data|
      modifies this
      ensures ParseSa(At(offset0, left0), old(proposals), 0) == if ok then Some(proposals) else None
    {
      var offset: nat, left: nat, spi: nat := offset0, left0, 0;
      ghost var b := At(offset0, left0);
      ghost var goal := ParseSa(b, proposals, 0);
      while true
        invariant offset + left == offset0 + left0 && b == At(offset, left)
        invariant goal == ParseSa(b, proposals, spi)
        decreases left
      {
        var len, more, now;
        ok, len, more, now := OneProposal(offset, left, spi, b);
        if !ok || !more {
          return;
        }
        SliceTail(data, offset, left, len);
        b, offset, left, spi := b[len..], offset + len, left - len, now;
      }
    }
  }
}
