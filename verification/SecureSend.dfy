/** The sender and the receiver of encrypted messages (ikev2_msg_send_encrypt and
    ikev2_msg_decrypt in iked/ikev2_msg.c), on buffers. */
module SecureSend {
  import opened Bytes
  import opened Ikev2
  import opened SecureMessage
  import opened ImsgBuffer
  import opened Options

  /** ikev2_add_header, ikev2_add_payload and the fragment header. */
  method AddHeaders(buf: Ibuf, h: Header, initiator: bool, f: Fragment)
    requires buf.Valid() && buf.Contents() == [] && buf.rpos == 0 && buf.max == MSGBUF_MAX && WellFormed(h)
    modifies buf, buf.buf
    ensures buf.Valid() && buf.rpos == 0 && buf.max == MSGBUF_MAX && (buf.buf == old(buf.buf) || fresh(buf.buf))
    ensures buf.Contents() == HeaderBytes(h, initiator, if f.Whole? then PAYLOAD_SK else PAYLOAD_SKF, HDR) + [0, 0, PLD, 0] + FragmentBytes(f)
  {
    assert buf.wpos == |buf.Contents()|;
    var _ := buf.Add(HeaderBytes(h, initiator, if f.Whole? then PAYLOAD_SK else PAYLOAD_SKF, HDR));
    assert buf.wpos == |buf.Contents()|;
    var _ := buf.Add([0, 0, PLD, 0]);
    assert buf.wpos == |buf.Contents()|;
    if f.Part? {
      var _ := buf.Add(FragmentBytes(f));
    }
  }

  /** ikev2_msg_encrypt_prepare: the final lengths, before encryption. */
  method EncryptPrepare(s: Suite, buf: Ibuf, h: Header, initiator: bool, first: Byte, f: Fragment, len: nat) returns (ok: bool)
    requires 0 < s.blocklen && WellFormed(h) && buf.Valid()
    requires buf.Contents() == HeaderBytes(h, initiator, if f.Whole? then PAYLOAD_SK else PAYLOAD_SKF, HDR) + [0, 0, PLD, 0] + FragmentBytes(f)
    modifies buf.buf
    ensures buf.Valid()
    ensures ok <==> MessageLength(s, f, len) - HDR < 0x1_0000
    ensures |buf.Contents()| == old(|buf.Contents()|)
    ensures ok && MessageLength(s, f, len) <= MSGBUF_MAX ==> buf.Contents() == Prefix(s, h, initiator, first, f, len)
  {
    var pldlen, pldlength := Lengths(s, f, len);
    if pldlength > 0xffff {
      return false;
    }
    assert buf.Size() == |buf.Contents()|;
    Prepared(s, buf, h, initiator, first, f, len, pldlength, buf.Size() + pldlen);
    ok := true;
  }

  method Prepared(s: Suite, buf: Ibuf, ghost h: Header, ghost initiator: bool, first: Byte, ghost f: Fragment, ghost len: nat,
                  pldlength: Word16, total: Word32)
    requires 0 < s.blocklen && WellFormed(h) && buf.Valid() && total == pldlength + HDR == MessageLength(s, f, len)
    requires buf.Contents() == HeaderBytes(h, initiator, if f.Whole? then PAYLOAD_SK else PAYLOAD_SKF, HDR) + [0, 0, PLD, 0] + FragmentBytes(f)
    modifies buf.buf
    ensures buf.Valid() && |buf.Contents()| == old(|buf.Contents()|)
    ensures MessageLength(s, f, len) <= MSGBUF_MAX ==> buf.Contents() == Prefix(s, h, initiator, first, f, len)
  {
    PreparedPrefix(s, h, initiator, first, f, len, buf.Contents(), total);
    SetLengths(buf, first, pldlength, total);
  }

  /** The lengths of the encrypted data and of the payload. */
  method Lengths(s: Suite, f: Fragment, len: nat) returns (pldlen: nat, pldlength: nat)
    requires 0 < s.blocklen
    ensures pldlen == SecureLength(s, len) && pldlength == PLD + pldlen + |FragmentBytes(f)| == MessageLength(s, f, len) - HDR
  {
    var encrlen := Roundup(len + 1, s.blocklen);
    pldlen := s.ivlen + encrlen + s.integrlen;
    pldlength := PLD + pldlen + |FragmentBytes(f)|;
  }

  /** ikev2_next_payload and ikev2_set_header. */
  method SetLengths(buf: Ibuf, first: Byte, pldlength: Word16, total: Word32)
    requires buf.Valid() && |buf.Contents()| >= HDR + PLD
    modifies buf.buf
    ensures buf.Valid() && buf.Contents() == WithLengths(old(buf.Contents()), first, pldlength, total)
  {
    var _ := buf.Set(HDR + 2, Put16(pldlength));
    var _ := buf.Set(HDR, [first]);
    var _ := buf.Set(24, Put32(total));
  }

  ghost function WithLengths(b0: seq<Byte>, first: Byte, pldlength: Word16, total: Word32): (b: seq<Byte>)
    requires |b0| >= HDR + PLD
    ensures |b| == |b0|
  {
    var b1 := b0[..HDR + 2] + Put16(pldlength) + b0[HDR + 4..];
    var b2 := b1[..HDR] + [first] + b1[HDR + 1..];
    b2[..24] + Put32(total) + b2[28..]
  }

  lemma PreparedPrefix(s: Suite, h: Header, initiator: bool, first: Byte, f: Fragment, len: nat, b: seq<Byte>, total: Word32)
    requires s.blocklen > 0 && WellFormed(h) && total == MessageLength(s, f, len) < HDR + 0x1_0000
    requires b == HeaderBytes(h, initiator, if f.Whole? then PAYLOAD_SK else PAYLOAD_SKF, HDR) + [0, 0, PLD, 0] + FragmentBytes(f)
    ensures total <= MSGBUF_MAX ==> WithLengths(b, first, total - HDR, total) == Prefix(s, h, initiator, first, f, len)
  {
    PreparedBytes(h, initiator, if f.Whole? then PAYLOAD_SK else PAYLOAD_SKF, first, total, f);
  }

  lemma PreparedBytes(h: Header, initiator: bool, next: Byte, first: Byte, total: Word32, f: Fragment)
    requires WellFormed(h) && HDR <= total < HDR + 0x1_0000
    ensures WithLengths(HeaderBytes(h, initiator, next, HDR) + [0, 0, PLD, 0] + FragmentBytes(f), first, total - HDR, total)
         == HeaderBytes(h, initiator, next, total) + PayloadBytes(first, total - HDR) + FragmentBytes(f)
  {
    var hdr := HeaderBytes(h, initiator, next, HDR);
    var a := hdr[..24];
    assert hdr == a + Put32(HDR) && HeaderBytes(h, initiator, next, total) == a + Put32(total);
    ThreeSet(a, Put32(HDR), FragmentBytes(f), first, Put16(total - HDR), Put32(total));
  }

  lemma ThreeSet(a: seq<Byte>, l: seq<Byte>, f: seq<Byte>, first: Byte, two: seq<Byte>, four: seq<Byte>)
    requires |a| == 24 && |l| == |four| == 4 && |two| == 2
    ensures var b0 := (a + l) + [0, 0, PLD, 0] + f;
      var b1 := b0[..HDR + 2] + two + b0[HDR + 4..];
      var b2 := b1[..HDR] + [first] + b1[HDR + 1..];
      b2[..24] + four + b2[28..] == (a + four) + ([first, 0] + two) + f
  {
    var b0 := (a + l) + [0, 0, PLD, 0] + f;
    var b1 := b0[..HDR + 2] + two + b0[HDR + 4..];
    assert b1 == (a + l) + ([0, 0] + two) + f;
    var b2 := b1[..HDR] + [first] + b1[HDR + 1..];
    assert b2 == (a + l) + ([first, 0] + two) + f;
  }

  /** The padding and its length, after the payload. */
  method Pad(s: Suite, src: Ibuf, padding: seq<Byte>) returns (ok: bool)
    requires 0 < s.blocklen <= 256 && src.Valid() && src.rpos == 0
    requires |padding| == Roundup(|src.Contents()| + 1, s.blocklen) - (|src.Contents()| + 1)
    modifies src, src.buf
    ensures src.Valid()
    ensures ok <==> Roundup(old(|src.Contents()|) + 1, s.blocklen) <= old(src.max)
    ensures ok ==> src.Contents() == Padded(s, old(src.Contents()), padding)
  {
    RoundupBounds(|src.Contents()| + 1, s.blocklen);
    var pad := |padding|;
    assert src.wpos == |src.Contents()|;
    if pad != 0 {
      ok := src.Add(padding);
      if !ok {
        return;
      }
    }
    assert src.Contents() == old(src.Contents()) + padding && src.wpos == |src.Contents()|;
    ok := src.Add([pad]);
  }

  /** ikev2_msg_encrypt: the IV, the ciphertext, and room for the checksum. */
  method Encrypt(s: Suite, key: seq<Byte>, src: Ibuf, aad: seq<Byte>, iv: seq<Byte>, padding: seq<Byte>)
    returns (dst: Ibuf?, tag: seq<Byte>)
    requires Lawful(s) && |iv| == s.ivlen && src.Valid() && src.rpos == 0 && src.max == MSGBUF_MAX
    requires |padding| == Roundup(|src.Contents()| + 1, s.blocklen) - (|src.Contents()| + 1)
    modifies src, src.buf
    ensures dst != null <==> SecureLength(s, old(|src.Contents()|)) <= MSGBUF_MAX
    ensures dst != null ==> fresh(dst) && fresh(dst.buf) && dst.Valid()
    ensures dst != null ==>
      var sealed := s.seal(key, iv, if s.aead then aad else [], Padded(s, old(src.Contents()), padding));
      dst.Contents() == iv + sealed.0 + seq(s.integrlen, _ => 0) && tag == sealed.1
  {
    tag := [];
    RoundupBounds(|src.Contents()| + 1, s.blocklen);
    var ok := Pad(s, src, padding);
    if !ok || |iv| > MSGBUF_MAX {
      return null, [];
    }
    dst := new Ibuf(|iv|, MSGBUF_MAX);
    ok := dst.Add(iv);
    var plain := src.buf[src.rpos..src.wpos];
    var ct, t := Seal(s, key, iv, if s.aead then aad else [], plain);
    assert dst.wpos == |dst.Contents()|;
    ok := dst.Add(ct);
    if !ok {
      return null, [];
    }
    assert dst.wpos == |dst.Contents()|;
    ok := dst.Add(seq(s.integrlen, _ => 0));
    if !ok {
      return null, [];
    }
    tag := t;
  }

  /** cipher_update and cipher_final. */
  method Seal(s: Suite, key: seq<Byte>, iv: seq<Byte>, aad: seq<Byte>, p: seq<Byte>) returns (ct: seq<Byte>, tag: seq<Byte>)
    requires Lawful(s) && |p| % s.blocklen == 0
    ensures (ct, tag) == s.seal(key, iv, aad, p) && |ct| == |p|
  {
    var sealed := s.seal(key, iv, aad, p);
    ct, tag := sealed.0, sealed.1;
  }

  /** ikev2_msg_integr: the checksum or the tag over the room left for it. */
  method Integr(s: Suite, key: seq<Byte>, buf: Ibuf, tag: seq<Byte>) returns (msg: seq<Byte>)
    requires Lawful(s) && buf.Valid() && s.integrlen <= |buf.Contents()| && (s.aead ==> |tag| == s.integrlen)
    modifies buf.buf
    ensures var body := old(buf.Contents())[..|old(buf.Contents())| - s.integrlen];
      msg == body + if s.aead then tag else s.mac(key, body)
  {
    var n := buf.Size() - s.integrlen;
    assert buf.Contents()[..n] == buf.buf[buf.rpos..buf.rpos + n];
    var sum := if s.aead then tag else s.mac(key, buf.buf[buf.rpos..buf.rpos + n]);
    assert |sum| == s.integrlen;
    EndSet(buf.Contents(), n, sum);
    var _ := buf.Set(n, sum);
    msg := buf.buf[buf.rpos..buf.wpos];
  }

  lemma EndSet(b: seq<Byte>, n: nat, sum: seq<Byte>)
    requires n + |sum| == |b|
    ensures b[..n] + sum + b[n + |sum|..] == b[..n] + sum
  {
    assert b[n + |sum|..] == [];
  }

  /** ikev2_msg_send_encrypt, up to the sending, and one fragment of
      ikev2_send_encrypted_fragments: it builds the datagram, or fails exactly when
      the message does not fit the buffer. */
  method SendEncrypt(s: Suite, k: Keys, initiator: bool, h: Header, first: Byte, f: Fragment,
                     e: seq<Byte>, iv: seq<Byte>, padding: seq<Byte>) returns (msg: Option<seq<Byte>>)
    requires Lawful(s) && WellFormed(h) && |e| <= MSGBUF_MAX && |iv| == s.ivlen
    requires |padding| == Roundup(|e| + 1, s.blocklen) - (|e| + 1)
    ensures msg == if MessageLength(s, f, |e|) <= MSGBUF_MAX
      then Some(Datagram(s, k, initiator, h, first, f, e, iv, padding)) else None
  {
    ghost var total := MessageLength(s, f, |e|);
    assert total == HDR + PLD + |FragmentBytes(f)| + SecureLength(s, |e|);
    var buf := Prepare(s, initiator, h, first, f, |e|);
    if buf == null {
      assert total > MSGBUF_MAX;
      return None;
    }
    var dst, tag := EncryptPayload(s, Encr(k, initiator), buf.buf[buf.rpos..buf.wpos], e, iv, padding);
    if dst == null {
      return None;
    }
    var ok := Append(buf, dst);
    if !ok {
      assert total > MSGBUF_MAX;
      return None;
    }
    Finished(s, k, initiator, h, first, f, e, iv, padding);
    var done := Integr(s, Auth(k, initiator), buf, tag);
    msg := Some(done);
  }

  /** The message buffer with its headers and their final lengths. */
  method Prepare(s: Suite, initiator: bool, h: Header, first: Byte, f: Fragment, len: nat) returns (buf: Ibuf?)
    requires 0 < s.blocklen && WellFormed(h)
    ensures buf != null <==> MessageLength(s, f, len) - HDR < 0x1_0000
    ensures buf != null ==> buf.Valid() && fresh(buf) && fresh(buf.buf) && buf.rpos == 0 && buf.max == MSGBUF_MAX
    ensures buf != null ==> |buf.Contents()| == HDR + PLD + |FragmentBytes(f)|
    ensures buf != null && MessageLength(s, f, len) <= MSGBUF_MAX ==> buf.Contents() == Prefix(s, h, initiator, first, f, len)
  {
    buf := new Ibuf(MSGBUF_MAX, MSGBUF_MAX);
    AddHeaders(buf, h, initiator, f);
    var ok := EncryptPrepare(s, buf, h, initiator, first, f, len);
    if !ok {
      buf := null;
    }
  }

  /** ibuf_add_buf. */
  method Append(buf: Ibuf, from: Ibuf) returns (ok: bool)
    requires buf.Valid() && from.Valid() && buf != from && buf.buf != from.buf && buf.rpos == 0
    modifies buf, buf.buf
    ensures buf.Valid() && buf.max == old(buf.max) && (buf.buf == old(buf.buf) || fresh(buf.buf))
    ensures ok <==> |old(buf.Contents())| + |from.Contents()| <= buf.max && (from.Contents() != [] || old(buf.buf.Length) > 0)
    ensures ok ==> buf.Contents() == old(buf.Contents()) + old(from.Contents())
  {
    assert buf.wpos == |buf.Contents()|;
    ok := buf.Add(from.buf[from.rpos..from.wpos]);
  }

  /** The ciphertext and the tag of a payload under `prefix`. */
  ghost function Sealed(s: Suite, key: seq<Byte>, prefix: seq<Byte>, e: seq<Byte>, iv: seq<Byte>, padding: seq<Byte>): (seq<Byte>, seq<Byte>)
    requires 0 < s.blocklen <= 256 && |padding| == Roundup(|e| + 1, s.blocklen) - (|e| + 1)
  {
    s.seal(key, iv, if s.aead then prefix else [], Padded(s, e, padding))
  }

  /** The payload in a buffer of its own, encrypted. */
  method EncryptPayload(s: Suite, key: seq<Byte>, prefix: seq<Byte>, e: seq<Byte>, iv: seq<Byte>, padding: seq<Byte>)
    returns (dst: Ibuf?, tag: seq<Byte>)
    requires Lawful(s) && |iv| == s.ivlen && |e| <= MSGBUF_MAX
    requires |padding| == Roundup(|e| + 1, s.blocklen) - (|e| + 1)
    ensures dst != null <==> SecureLength(s, |e|) <= MSGBUF_MAX
    ensures dst != null ==> fresh(dst) && fresh(dst.buf) && dst.Valid()
    ensures dst != null ==>
      var sealed := Sealed(s, key, prefix, e, iv, padding);
      dst.Contents() == iv + sealed.0 + seq(s.integrlen, _ => 0) && tag == sealed.1 && |dst.Contents()| == SecureLength(s, |e|)
  {
    RoundupBounds(|e| + 1, s.blocklen);
    SealLaws(s, key, iv, if s.aead then prefix else [], Padded(s, e, padding));
    var src := new Ibuf(MSGBUF_MAX, MSGBUF_MAX);
    var _ := src.Add(e);
    dst, tag := Encrypt(s, key, src, prefix, iv, padding);
  }

  lemma {:induction false} Finished(s: Suite, k: Keys, initiator: bool, h: Header, first: Byte, f: Fragment, e: seq<Byte>, iv: seq<Byte>, padding: seq<Byte>)
    requires Lawful(s) && WellFormed(h) && |iv| == s.ivlen && MessageLength(s, f, |e|) <= MSGBUF_MAX
    requires |padding| == Roundup(|e| + 1, s.blocklen) - (|e| + 1)
    ensures var prefix := Prefix(s, h, initiator, first, f, |e|);
      var sealed := Sealed(s, Encr(k, initiator), prefix, e, iv, padding);
      var all := prefix + (iv + sealed.0 + seq(s.integrlen, _ => 0));
      var body := all[..|all| - s.integrlen];
      && (s.aead ==> |sealed.1| == s.integrlen)
      && Datagram(s, k, initiator, h, first, f, e, iv, padding) == body + if s.aead then sealed.1 else s.mac(Auth(k, initiator), body)
  {
    var prefix := Prefix(s, h, initiator, first, f, |e|);
    RoundupBounds(|e| + 1, s.blocklen);
    var aad := if s.aead then prefix else [];
    SealLaws(s, Encr(k, initiator), iv, aad, Padded(s, e, padding));
    var sealed := Sealed(s, Encr(k, initiator), prefix, e, iv, padding);
    var all := prefix + (iv + sealed.0 + seq(s.integrlen, _ => 0));
    var body := prefix + iv + sealed.0;
    var sum := if s.aead then sealed.1 else s.mac(Auth(k, initiator), body);
    SumPlaced(prefix, iv, sealed.0, seq(s.integrlen, _ => 0), sum);
  }

  lemma SumPlaced(prefix: seq<Byte>, iv: seq<Byte>, c: seq<Byte>, room: seq<Byte>, sum: seq<Byte>)
    ensures var all := prefix + (iv + c + room); all[..|all| - |room|] == prefix + iv + c
    ensures prefix + iv + c + sum == prefix + (iv + c + sum)
  {}

  // ----- the receiver -----

  /** ikev2_msg_decrypt: `src` is the encrypted data of the message `msg`. */
  method MsgDecrypt(s: Suite, k: Keys, initiator: bool, msg: Ibuf, src: Ibuf) returns (out: Option<seq<Byte>>)
    requires s.blocklen > 0 && msg.Valid() && src.Valid() && |src.Contents()| <= |msg.Contents()|
    ensures out == Decrypt(s, k, initiator, msg.Contents(), src.Contents())
  {
    var m, d := msg.buf[msg.rpos..msg.wpos], src.buf[src.rpos..src.wpos];
    if src.Size() < s.integrlen + s.ivlen {
      return None;
    }
    var integroff, encrlen := src.Size() - s.integrlen, src.Size() - s.integrlen - s.ivlen;
    if !s.aead {
      var tmp := s.mac(Auth(k, !initiator), m[..msg.Size() - s.integrlen]);
      if tmp != d[integroff..] {
        return None;
      }
    }
    if encrlen % s.blocklen != 0 {
      return None;
    }
    var plain := s.open(Encr(k, !initiator), d[..s.ivlen], if s.aead then m[..msg.Size() - src.Size()] else [],
                         d[s.ivlen..integroff], if s.aead then d[integroff..] else []);
    if plain.None? || plain.value == [] {
      return None;
    }
    var outlen := |plain.value|;
    var pad := plain.value[outlen - 1] as int;
    if outlen < pad + 1 {
      return None;
    }
    out := Some(plain.value[..outlen - pad - 1]);
  }
}
