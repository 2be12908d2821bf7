/** Encrypted IKE messages (iked/ikev2_msg.c, ikev2_pld_e and ikev2_pld_ef in
    iked/ikev2_pld.c; section 3.14 of RFC 7296, section 2.5 of RFC 7383), as values. */
module SecureMessage {
  import opened Arith
  import opened Bytes
  import opened Ikev2
  import opened Options

  /** IKED_MSGBUF_MAX. */
  const MSGBUF_MAX: nat := 8192
  const HDR: nat := 28
  const PLD: nat := 4
  const FRAG: nat := 4
  const VERSION: Byte := 0x20
  const FLAG_INITIATOR: Byte := 0x08
  const FLAG_RESPONSE: Byte := 0x20

  /** The sizes and functions of the negotiated cipher and checksum.  `seal` gives
      the ciphertext and the tag of an AEAD cipher; a cipher that is not AEAD is
      given no additional data, and its tag is not used. */
  datatype Suite = Suite(
    blocklen: nat, ivlen: nat, integrlen: nat, aead: bool,
    seal: (seq<Byte>, seq<Byte>, seq<Byte>, seq<Byte>) -> (seq<Byte>, seq<Byte>),
    open: (seq<Byte>, seq<Byte>, seq<Byte>, seq<Byte>, seq<Byte>) -> Option<seq<Byte>>,
    mac: (seq<Byte>, seq<Byte>) -> seq<Byte>)

  /** Decryption inverts encryption and keeps the length; the checksum has its
      length; the pad length of a block fits one byte. */
  ghost predicate Lawful(s: Suite) {
    && 0 < s.blocklen <= 256
    && (forall key, data :: |s.mac(key, data)| == s.integrlen)
    && (forall key, iv, aad, p :: |p| % s.blocklen == 0 ==> |s.seal(key, iv, aad, p).0| == |p|)
    && (s.aead ==> forall key, iv, aad, p :: |s.seal(key, iv, aad, p).1| == s.integrlen)
    && (forall key, iv, aad, p :: |p| % s.blocklen == 0 ==>
          s.open(key, iv, aad, s.seal(key, iv, aad, p).0, if s.aead then s.seal(key, iv, aad, p).1 else []) == Some(p))
  }

  /** SK_ei, SK_er, SK_ai and SK_ar. */
  datatype Keys = Keys(iencr: seq<Byte>, rencr: seq<Byte>, iauth: seq<Byte>, rauth: seq<Byte>)

  function Encr(k: Keys, initiator: bool): seq<Byte> { if initiator then k.iencr else k.rencr }

  function Auth(k: Keys, initiator: bool): seq<Byte> { if initiator then k.iauth else k.rauth }

  function Roundup(x: nat, y: nat): nat
    requires y > 0
  {
    (x + (y - 1)) / y * y
  }

  /** The padding of ikev2_msg_encrypt is less than a block. */
  lemma RoundupBounds(x: nat, y: nat)
    requires y > 0
    ensures x <= Roundup(x, y) < x + y && Roundup(x, y) % y == 0
  {
    var q, r := (x + (y - 1)) / y, (x + (y - 1)) % y;
    assert x + (y - 1) == q * y + r;
    Multiple(y, q);
  }

  lemma RoundupGrows(x: nat, z: nat, y: nat)
    requires y > 0 && x <= z
    ensures Roundup(x, y) <= Roundup(z, y)
  {
    RoundupBounds(x, y);
    RoundupBounds(z, y);
    var q, r := (x + (y - 1)) / y, (z + (y - 1)) / y;
    Apart(y, q, r);
  }

  // ----- the sender: ikev2_msg_encrypt_prepare, _encrypt and _integr -----

  /** The fields of the IKE header but for its length and next payload. */
  datatype Header = Header(ispi: seq<Byte>, rspi: seq<Byte>, exchange: Byte, msgid: Word32, response: bool)

  predicate WellFormed(h: Header) { |h.ispi| == |h.rspi| == 8 }

  /** ikev2_add_header and ikev2_set_header. */
  function HeaderBytes(h: Header, initiator: bool, next: Byte, length: Word32): (s: seq<Byte>)
    requires WellFormed(h)
    ensures |s| == HDR
  {
    h.ispi + h.rspi +
    [next, VERSION, h.exchange, (if h.response then FLAG_RESPONSE else 0) + (if initiator then FLAG_INITIATOR else 0)] +
    Put32(h.msgid) + Put32(length)
  }

  /** ikev2_add_payload and ikev2_next_payload. */
  function PayloadBytes(next: Byte, length: Word16): (s: seq<Byte>)
    ensures |s| == PLD
  {
    [next, 0] + Put16(length)
  }

  /** The fragment header, if any. */
  datatype Fragment = Whole | Part(num: Word16, total: Word16)

  function FragmentBytes(f: Fragment): seq<Byte> {
    match f
    case Whole => []
    case Part(num, total) => Put16(num) + Put16(total)
  }

  /** The size of the encrypted data, its IV and its checksum. */
  function SecureLength(s: Suite, len: nat): nat
    requires s.blocklen > 0
  {
    s.ivlen + Roundup(len + 1, s.blocklen) + s.integrlen
  }

  /** The size of the message; a payload length has 16 bits. */
  function MessageLength(s: Suite, f: Fragment, len: nat): nat
    requires s.blocklen > 0
  {
    HDR + PLD + |FragmentBytes(f)| + SecureLength(s, len)
  }

  /** The headers as ikev2_msg_encrypt_prepare leaves them: they are what is
      authenticated besides the encrypted data. */
  function Prefix(s: Suite, h: Header, initiator: bool, first: Byte, f: Fragment, len: nat): (b: seq<Byte>)
    requires WellFormed(h) && s.blocklen > 0 && MessageLength(s, f, len) <= MSGBUF_MAX
    ensures |b| == HDR + PLD + |FragmentBytes(f)|
  {
    HeaderBytes(h, initiator, if f.Whole? then PAYLOAD_SK else PAYLOAD_SKF, MessageLength(s, f, len)) +
    PayloadBytes(first, MessageLength(s, f, len) - HDR) + FragmentBytes(f)
  }

  /** The payload, padding and pad length: a whole number of blocks. */
  function Padded(s: Suite, e: seq<Byte>, padding: seq<Byte>): (p: seq<Byte>)
    requires 0 < s.blocklen <= 256 && |padding| == Roundup(|e| + 1, s.blocklen) - (|e| + 1)
    ensures |p| == Roundup(|e| + 1, s.blocklen)
  {
    RoundupBounds(|e| + 1, s.blocklen);
    e + padding + [|padding|]
  }

  /** The encrypted data that follows `prefix`: IV, ciphertext and checksum. */
  function Encrypted(s: Suite, k: Keys, initiator: bool, prefix: seq<Byte>,
                     e: seq<Byte>, iv: seq<Byte>, padding: seq<Byte>): seq<Byte>
    requires 0 < s.blocklen <= 256 && |padding| == Roundup(|e| + 1, s.blocklen) - (|e| + 1)
  {
    var sealed := s.seal(Encr(k, initiator), iv, if s.aead then prefix else [], Padded(s, e, padding));
    iv + sealed.0 + (if s.aead then sealed.1 else s.mac(Auth(k, initiator), prefix + iv + sealed.0))
  }

  /** The datagram of a payload `e`. */
  function Datagram(s: Suite, k: Keys, initiator: bool, h: Header, first: Byte, f: Fragment,
                    e: seq<Byte>, iv: seq<Byte>, padding: seq<Byte>): seq<Byte>
    requires WellFormed(h) && 0 < s.blocklen <= 256 && MessageLength(s, f, |e|) <= MSGBUF_MAX
    requires |padding| == Roundup(|e| + 1, s.blocklen) - (|e| + 1)
  {
    var prefix := Prefix(s, h, initiator, first, f, |e|);
    prefix + Encrypted(s, k, initiator, prefix, e, iv, padding)
  }

  // ----- the receiver: ikev2_msg_decrypt -----

  /** The plaintext of the encrypted data `src` at the end of the message `msg`. */
  function Decrypt(s: Suite, k: Keys, initiator: bool, msg: seq<Byte>, src: seq<Byte>): Option<seq<Byte>>
    requires s.blocklen > 0 && |src| <= |msg|
  {
    if |src| < s.integrlen + s.ivlen then None
    else
      var iv, ct, sum := src[..s.ivlen], src[s.ivlen..|src| - s.integrlen], src[|src| - s.integrlen..];
      if !s.aead && s.mac(Auth(k, !initiator), msg[..|msg| - s.integrlen]) != sum then None
      else if |ct| % s.blocklen != 0 then None
      else
        var out := s.open(Encr(k, !initiator), iv, if s.aead then msg[..|msg| - |src|] else [], ct, if s.aead then sum else []);
        if out.None? || out.value == [] then None
        else
          var pad := out.value[|out.value| - 1] as int;
          if |out.value| < pad + 1 then None else Some(out.value[..|out.value| - pad - 1])
  }

  /** An encrypted payload found in a datagram: the type of the first payload inside,
      the fragment, and the encrypted data. */
  datatype Located = Located(first: Byte, frag: Fragment, data: seq<Byte>)

  /** ikev2_pld_parse and ikev2_pld_payloads, down to ikev2_pld_e or ikev2_pld_ef, on
      a message whose first payload is an encrypted one. */
  function Locate(msg: seq<Byte>): (l: Option<Located>)
    ensures l.Some? ==> |l.value.data| <= |msg|
  {
    if |msg| < HDR || |msg| < Get32(msg[24..28]) || msg[16] !in {PAYLOAD_SK, PAYLOAD_SKF} then None
    else if Get32(msg[24..28]) < HDR + PLD then None
    else
      var length, total := Get16(msg[HDR + 2..HDR + PLD]) as int, Get32(msg[24..28]) - HDR;
      if total < length || length < PLD then None
      else
        var data := msg[HDR + PLD..HDR + length];
        if msg[16] == PAYLOAD_SK then Some(Located(msg[HDR], Whole, data))
        else if |data| < FRAG then None
        else Some(Located(msg[HDR], Part(Get16(data[..2]), Get16(data[2..4])), data[FRAG..]))
  }

  /** Decryption of data that is cut and authenticated as it was made. */
  lemma DecryptParts(s: Suite, k: Keys, initiator: bool, prefix: seq<Byte>, iv: seq<Byte>, ct: seq<Byte>, sum: seq<Byte>, p: seq<Byte>)
    requires s.blocklen > 0 && |iv| == s.ivlen && |sum| == s.integrlen && |ct| % s.blocklen == 0
    requires !s.aead ==> sum == s.mac(Auth(k, initiator), prefix + iv + ct)
    requires s.open(Encr(k, initiator), iv, if s.aead then prefix else [], ct, if s.aead then sum else []) == Some(p)
    requires p != [] && p[|p| - 1] as int + 1 <= |p|
    ensures Decrypt(s, k, !initiator, prefix + (iv + ct + sum), iv + ct + sum) == Some(p[..|p| - p[|p| - 1] as int - 1])
  {
    Slices(prefix, iv, ct, sum);
  }

  lemma Slices(prefix: seq<Byte>, iv: seq<Byte>, ct: seq<Byte>, sum: seq<Byte>)
    ensures var src := iv + ct + sum;
      var msg := prefix + src;
      && src[..|iv|] == iv && src[|iv|..|src| - |sum|] == ct && src[|src| - |sum|..] == sum
      && msg[..|msg| - |sum|] == prefix + iv + ct && msg[..|msg| - |src|] == prefix
  {}

  lemma SealLaws(s: Suite, key: seq<Byte>, iv: seq<Byte>, aad: seq<Byte>, p: seq<Byte>)
    requires Lawful(s) && |p| % s.blocklen == 0
    ensures var sealed := s.seal(key, iv, aad, p);
      && |sealed.0| == |p| && (s.aead ==> |sealed.1| == s.integrlen)
      && s.open(key, iv, aad, sealed.0, if s.aead then sealed.1 else []) == Some(p)
  {}

  /** The opposite role, with its own choice of keys, gets back the payload. */
  lemma DecryptInverts(s: Suite, k: Keys, initiator: bool, prefix: seq<Byte>, e: seq<Byte>, iv: seq<Byte>, padding: seq<Byte>)
    requires Lawful(s) && |iv| == s.ivlen && |padding| == Roundup(|e| + 1, s.blocklen) - (|e| + 1)
    ensures var src := Encrypted(s, k, initiator, prefix, e, iv, padding);
      |src| == SecureLength(s, |e|) && Decrypt(s, k, !initiator, prefix + src, src) == Some(e)
  {
    var p, aad := Padded(s, e, padding), if s.aead then prefix else [];
    PaddedShape(s, e, padding);
    SealLaws(s, Encr(k, initiator), iv, aad, p);
    var sealed := s.seal(Encr(k, initiator), iv, aad, p);
    var sum := if s.aead then sealed.1 else s.mac(Auth(k, initiator), prefix + iv + sealed.0);
    assert Encrypted(s, k, initiator, prefix, e, iv, padding) == iv + sealed.0 + sum;
    DecryptParts(s, k, initiator, prefix, iv, sealed.0, sum, p);
  }

  /** The last byte of the plaintext tells where the payload ends. */
  lemma PaddedShape(s: Suite, e: seq<Byte>, padding: seq<Byte>)
    requires 0 < s.blocklen <= 256 && |padding| == Roundup(|e| + 1, s.blocklen) - (|e| + 1)
    ensures var p := Padded(s, e, padding);
      && |p| == Roundup(|e| + 1, s.blocklen) && |p| % s.blocklen == 0
      && p[|p| - 1] as int == |padding| && p[..|p| - |padding| - 1] == e
  {
    RoundupBounds(|e| + 1, s.blocklen);
  }

  /** The header fields of a message, as the receiver reads them. */
  lemma PrefixFields(s: Suite, h: Header, initiator: bool, first: Byte, f: Fragment, len: nat, rest: seq<Byte>)
    requires WellFormed(h) && s.blocklen > 0 && MessageLength(s, f, len) <= MSGBUF_MAX
    ensures var msg := Prefix(s, h, initiator, first, f, len) + rest;
      && Get32(msg[24..28]) == MessageLength(s, f, len)
      && msg[16] == (if f.Whole? then PAYLOAD_SK else PAYLOAD_SKF)
      && msg[HDR] == first
      && Get16(msg[HDR + 2..HDR + PLD]) == MessageLength(s, f, len) - HDR
      && msg[HDR + PLD..] == FragmentBytes(f) + rest
  {
    var n := MessageLength(s, f, len);
    var b := Prefix(s, h, initiator, first, f, len);
    var msg := b + rest;
    assert msg[24..28] == b[24..28] == Put32(n) + [];
    RoundTrip32(n, []);
    assert msg[HDR + 2..HDR + PLD] == b[HDR + 2..HDR + PLD] == Put16(n - HDR) + [];
    RoundTrip16(n - HDR, []);
    assert b[HDR + PLD..] == FragmentBytes(f);
  }

  /** The headers of a message, field by field, at their places on the wire. */
  predicate Addressed(msg: seq<Byte>, h: Header, initiator: bool, first: Byte, f: Fragment) {
    && |msg| >= (if f.Whole? then 32 else 36)
    && msg[..8] == h.ispi && msg[8..16] == h.rspi
    && msg[16] == (if f.Whole? then 46 else 53) && msg[17] == 0x20 && msg[18] == h.exchange
    && msg[19] in {0, 0x08, 0x20, 0x28} && (msg[19] >= 0x20 <==> h.response) && (msg[19] % 0x10 == 0x08 <==> initiator)
    && Get32(msg[20..24]) == h.msgid && Get32(msg[24..28]) as int == |msg|
    && msg[28] == first && msg[29] == 0 && Get16(msg[30..32]) as int == |msg| - 28
    && (f.Part? ==> Get16(msg[32..34]) == f.num && Get16(msg[34..36]) == f.total)
  }

  /** From `at` on the IV, the ciphertext under the key of the sender's role, and its tag
      or the checksum under the other key of that role over all before it. */
  predicate Protected(s: Suite, k: Keys, initiator: bool, msg: seq<Byte>, at: nat, e: seq<Byte>, iv: seq<Byte>, padding: seq<Byte>) {
    && at + s.ivlen + s.integrlen <= |msg| && |padding| < 256
    && msg[at..at + s.ivlen] == iv
    && var end := |msg| - s.integrlen;
       var sealed := s.seal(if initiator then k.iencr else k.rencr, iv, if s.aead then msg[..at] else [], e + padding + [|padding|]);
    && msg[at + s.ivlen..end] == sealed.0
    && msg[end..] == if s.aead then sealed.1 else s.mac(if initiator then k.iauth else k.rauth, msg[..end])
  }

  /** What is where in a datagram. */
  lemma DatagramLayout(s: Suite, k: Keys, initiator: bool, h: Header, first: Byte, f: Fragment,
                       e: seq<Byte>, iv: seq<Byte>, padding: seq<Byte>)
    requires Lawful(s) && WellFormed(h) && MessageLength(s, f, |e|) <= MSGBUF_MAX
    requires |iv| == s.ivlen && |padding| == Roundup(|e| + 1, s.blocklen) - (|e| + 1)
    ensures var msg := Datagram(s, k, initiator, h, first, f, e, iv, padding);
      && Addressed(msg, h, initiator, first, f)
      && Protected(s, k, initiator, msg, if f.Whole? then 32 else 36, e, iv, padding)
  {
    var prefix := Prefix(s, h, initiator, first, f, |e|);
    EncryptedLayout(s, k, initiator, prefix, e, iv, padding);
    PrefixLayout(s, h, initiator, first, f, |e|, Encrypted(s, k, initiator, prefix, e, iv, padding));
  }

  lemma EncryptedLayout(s: Suite, k: Keys, initiator: bool, prefix: seq<Byte>, e: seq<Byte>, iv: seq<Byte>, padding: seq<Byte>)
    requires Lawful(s) && |iv| == s.ivlen && |padding| == Roundup(|e| + 1, s.blocklen) - (|e| + 1)
    ensures var src := Encrypted(s, k, initiator, prefix, e, iv, padding);
      |src| == SecureLength(s, |e|) && Protected(s, k, initiator, prefix + src, |prefix|, e, iv, padding)
  {
    var p, aad := Padded(s, e, padding), if s.aead then prefix else [];
    PaddedShape(s, e, padding);
    SealLaws(s, Encr(k, initiator), iv, aad, p);
    var sealed := s.seal(Encr(k, initiator), iv, aad, p);
    var sum := if s.aead then sealed.1 else s.mac(Auth(k, initiator), prefix + iv + sealed.0);
    assert Encrypted(s, k, initiator, prefix, e, iv, padding) == iv + sealed.0 + sum;
    PartsProtected(s, k, initiator, prefix, iv, sealed.0, sum, p, e, padding);
  }

  lemma PartsProtected(s: Suite, k: Keys, initiator: bool, prefix: seq<Byte>, iv: seq<Byte>, ct: seq<Byte>, sum: seq<Byte>,
                       p: seq<Byte>, e: seq<Byte>, padding: seq<Byte>)
    requires |iv| == s.ivlen && |sum| == s.integrlen && |padding| < 256 && p == e + padding + [|padding|]
    requires s.seal(Encr(k, initiator), iv, if s.aead then prefix else [], p).0 == ct
    requires sum == if s.aead then s.seal(Encr(k, initiator), iv, prefix, p).1 else s.mac(Auth(k, initiator), prefix + iv + ct)
    ensures Protected(s, k, initiator, prefix + (iv + ct + sum), |prefix|, e, iv, padding)
  {
    DatagramSlices(prefix, iv, ct, sum);
  }

  lemma DatagramSlices(prefix: seq<Byte>, iv: seq<Byte>, ct: seq<Byte>, sum: seq<Byte>)
    ensures var msg := prefix + (iv + ct + sum);
      && msg[..|prefix|] == prefix && msg[|prefix|..|prefix| + |iv|] == iv && msg[|prefix| + |iv|..|msg| - |sum|] == ct
      && msg[|msg| - |sum|..] == sum && msg[..|msg| - |sum|] == prefix + iv + ct
  {}

  lemma PrefixLayout(s: Suite, h: Header, initiator: bool, first: Byte, f: Fragment, len: nat, rest: seq<Byte>)
    requires WellFormed(h) && s.blocklen > 0 && MessageLength(s, f, len) <= MSGBUF_MAX && |rest| == SecureLength(s, len)
    ensures Addressed(Prefix(s, h, initiator, first, f, len) + rest, h, initiator, first, f)
  {
    var n := MessageLength(s, f, len);
    var next: Byte := if f.Whole? then PAYLOAD_SK else PAYLOAD_SKF;
    HeaderLayout(h, initiator, next, n, first, n - HDR, f, rest);
  }

  lemma HeaderLayout(h: Header, initiator: bool, next: Byte, n: Word32, first: Byte, m: Word16, f: Fragment, rest: seq<Byte>)
    requires WellFormed(h) && next == (if f.Whole? then PAYLOAD_SK else PAYLOAD_SKF)
    requires n as int == HDR + PLD + |FragmentBytes(f)| + |rest| && m as int == n as int - HDR
    ensures Addressed(HeaderBytes(h, initiator, next, n) + PayloadBytes(first, m) + FragmentBytes(f) + rest, h, initiator, first, f)
  {
    var flags: Byte := (if h.response then FLAG_RESPONSE else 0) + (if initiator then FLAG_INITIATOR else 0);
    HeaderSlices(h.ispi, h.rspi, [next, VERSION, h.exchange, flags], Put32(h.msgid), Put32(n), [first, 0] + Put16(m), FragmentBytes(f), rest);
    RoundTrip32(h.msgid, []);
    RoundTrip32(n, []);
    assert ([first, 0] + Put16(m))[2..] == Put16(m) + [];
    RoundTrip16(m, []);
    if f.Part? {
      FragmentFields(f.num, f.total, rest);
    }
  }

  lemma HeaderSlices(a: seq<Byte>, b: seq<Byte>, c: seq<Byte>, d: seq<Byte>, e: seq<Byte>, p: seq<Byte>, f: seq<Byte>, rest: seq<Byte>)
    requires |a| == |b| == 8 && |c| == |d| == |e| == |p| == 4
    ensures var s := a + b + c + d + e + p + f + rest;
      && s[..8] == a && s[8..16] == b && s[16] == c[0] && s[17] == c[1] && s[18] == c[2] && s[19] == c[3]
      && s[20..24] == d + [] && s[24..28] == e + [] && s[28] == p[0] && s[29] == p[1] && s[30..32] == p[2..]
      && (|f| == 4 ==> s[32..34] == (f + rest)[..2] && s[34..36] == (f + rest)[2..4])
  {}

  /** What decrypts is what would be encrypted: a cipher without redundant forms. */
  ghost predicate Exact(s: Suite) {
    forall key, iv, aad, ct, tag, p :: s.open(key, iv, aad, ct, tag) == Some(p) ==>
      s.seal(key, iv, aad, p).0 == ct && (s.aead ==> s.seal(key, iv, aad, p).1 == tag)
  }

  /** Conversely, nothing is taken but what the opposite role protects with its keys: a
      message with another checksum, other headers under the tag, or other encrypted data
      does not decrypt. */
  lemma DecryptsOnly(s: Suite, k: Keys, initiator: bool, prefix: seq<Byte>, src: seq<Byte>) returns (padding: seq<Byte>)
    requires Exact(s) && s.blocklen > 0
    ensures var e := Decrypt(s, k, initiator, prefix + src, src);
      e.Some? ==> |src| >= s.ivlen && Protected(s, k, !initiator, prefix + src, |prefix|, e.value, src[..s.ivlen], padding)
  {
    var e := Decrypt(s, k, initiator, prefix + src, src);
    padding := [];
    if e.Some? {
      var iv, ct, sum := src[..s.ivlen], src[s.ivlen..|src| - s.integrlen], src[|src| - s.integrlen..];
      assert src == iv + ct + sum;
      var p := DecryptedParts(s, k, initiator, prefix, iv, ct, sum);
      padding := p[|e.value|..|p| - 1];
      PartsProtected(s, k, !initiator, prefix, iv, ct, sum, p, e.value, padding);
    }
  }

  lemma DecryptedParts(s: Suite, k: Keys, initiator: bool, prefix: seq<Byte>, iv: seq<Byte>, ct: seq<Byte>, sum: seq<Byte>)
    returns (p: seq<Byte>)
    requires Exact(s) && s.blocklen > 0 && |iv| == s.ivlen && |sum| == s.integrlen
    requires Decrypt(s, k, initiator, prefix + (iv + ct + sum), iv + ct + sum).Some?
    ensures var e := Decrypt(s, k, initiator, prefix + (iv + ct + sum), iv + ct + sum).value;
      && |e| < |p| && var padding := p[|e|..|p| - 1]; |padding| < 256 && p == e + padding + [|padding|]
    ensures s.seal(Encr(k, !initiator), iv, if s.aead then prefix else [], p).0 == ct
    ensures sum == if s.aead then s.seal(Encr(k, !initiator), iv, prefix, p).1 else s.mac(Auth(k, !initiator), prefix + iv + ct)
  {
    Slices(prefix, iv, ct, sum);
    p := s.open(Encr(k, !initiator), iv, if s.aead then prefix else [], ct, if s.aead then sum else []).value;
  }

  /** What a role sends depends on its own two keys only. */
  lemma OwnKeys(s: Suite, k: Keys, k': Keys, initiator: bool, h: Header, first: Byte, f: Fragment,
                e: seq<Byte>, iv: seq<Byte>, padding: seq<Byte>)
    requires WellFormed(h) && 0 < s.blocklen <= 256 && MessageLength(s, f, |e|) <= MSGBUF_MAX
    requires |padding| == Roundup(|e| + 1, s.blocklen) - (|e| + 1)
    requires if initiator then k.iencr == k'.iencr && k.iauth == k'.iauth else k.rencr == k'.rencr && k.rauth == k'.rauth
    ensures Datagram(s, k, initiator, h, first, f, e, iv, padding) == Datagram(s, k', initiator, h, first, f, e, iv, padding)
  {}

  lemma FragmentFields(num: Word16, total: Word16, rest: seq<Byte>)
    ensures var data := FragmentBytes(Part(num, total)) + rest;
      |data| >= FRAG && data[FRAG..] == rest && Get16(data[..2]) == num && Get16(data[2..4]) == total
  {
    var data := FragmentBytes(Part(num, total)) + rest;
    assert data[..2] == Put16(num) + [] && data[2..4] == Put16(total) + [];
    RoundTrip16(num, []);
    RoundTrip16(total, []);
  }

  /** A message whose header fields are right is cut where they say. */
  lemma LocateParts(msg: seq<Byte>, first: Byte, f: Fragment, src: seq<Byte>)
    requires |msg| >= HDR + PLD && Get32(msg[24..28]) == |msg|
    requires msg[16] == (if f.Whole? then PAYLOAD_SK else PAYLOAD_SKF) && msg[HDR] == first
    requires Get16(msg[HDR + 2..HDR + PLD]) == |msg| - HDR && msg[HDR + PLD..] == FragmentBytes(f) + src
    ensures Locate(msg) == Some(Located(first, f, src))
  {
    var data := msg[HDR + PLD..HDR + (|msg| - HDR)];
    assert data == FragmentBytes(f) + src;
    if f.Part? {
      FragmentFields(f.num, f.total, src);
    } else {
      assert data == src;
    }
  }

  /** The lengths fixed before encryption are those of the finished message, and the
      opposite role recovers exactly the payload, its type and its place. */
  lemma OpenInverts(s: Suite, k: Keys, initiator: bool, h: Header, first: Byte, f: Fragment,
                    e: seq<Byte>, iv: seq<Byte>, padding: seq<Byte>)
    requires Lawful(s) && WellFormed(h) && MessageLength(s, f, |e|) <= MSGBUF_MAX
    requires |iv| == s.ivlen && |padding| == Roundup(|e| + 1, s.blocklen) - (|e| + 1)
    ensures var msg := Datagram(s, k, initiator, h, first, f, e, iv, padding);
      && |msg| == MessageLength(s, f, |e|) == Get32(msg[24..28])
      && Get16(msg[HDR + 2..HDR + PLD]) == |msg| - HDR
      && Locate(msg).Some? && Locate(msg).value.first == first && Locate(msg).value.frag == f
      && Decrypt(s, k, !initiator, msg, Locate(msg).value.data) == Some(e)
  {
    var prefix := Prefix(s, h, initiator, first, f, |e|);
    var src := Encrypted(s, k, initiator, prefix, e, iv, padding);
    DecryptInverts(s, k, initiator, prefix, e, iv, padding);
    PrefixFields(s, h, initiator, first, f, |e|, src);
    LocateParts(Datagram(s, k, initiator, h, first, f, e, iv, padding), first, f, src);
  }
}
