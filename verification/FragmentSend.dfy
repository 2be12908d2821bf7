/** The loop that encrypts and sends a payload in fragments
    (ikev2_send_encrypted_fragments in iked/ikev2_msg.c), and what the other side makes
    of them. */
module FragmentSend {
  import opened Bytes
  import opened SecureMessage
  import opened Fragments
  import opened SecureSend
  import opened Options

  /** IKEV2_MAXLEN_IPV4_FRAG and IKEV2_MAXLEN_IPV6_FRAG. */
  function MaxLen(ipv4: bool): nat { if ipv4 then 576 - 56 else 1280 - 76 }

  function Overhead(s: Suite): nat { s.ivlen + s.blocklen + s.integrlen }

  predicate SmallOverhead(s: Suite, ipv4: bool) {
    Overhead(s) < MaxLen(ipv4)
  }

  /** The sizes are those of objects in memory, and the division by the room that they
      leave is defined. */
  predicate Sizes(s: Suite, ipv4: bool) {
    Overhead(s) < 0x8000_0000_0000_0000 && Overhead(s) != MaxLen(ipv4)
  }

  /** The most plaintext that one fragment carries; the subtraction wraps. */
  function MaxPiece(s: Suite, ipv4: bool): (m: nat)
    requires Sizes(s, ipv4)
    ensures m > 0 && (!SmallOverhead(s, ipv4) ==> m > MSGBUF_MAX)
  {
    if SmallOverhead(s, ipv4) then MaxLen(ipv4) - Overhead(s) else MaxLen(ipv4) + 0x1_0000_0000_0000_0000 - Overhead(s)
  }

  /** The random bytes: an IV and padding for each fragment. */
  datatype Random = Random(iv: nat -> seq<Byte>, padding: (nat, nat) -> seq<Byte>)

  ghost predicate Suits(r: Random, s: Suite)
    requires s.blocklen > 0
  {
    && (forall i: nat :: |r.iv(i)| == s.ivlen)
    && (forall i: nat, n: nat :: |r.padding(i, n)| == Roundup(n + 1, s.blocklen) - (n + 1))
  }

  /** IV, ciphertext and checksum of a piece stay within the fragment size. */
  lemma PieceFits(s: Suite, ipv4: bool, len: nat)
    requires SmallOverhead(s, ipv4) && Sizes(s, ipv4) && 0 < s.blocklen && len <= MaxPiece(s, ipv4)
    ensures SecureLength(s, len) <= MaxLen(ipv4)
    ensures forall f :: MessageLength(s, f, len) <= MSGBUF_MAX
  {
    RoundupBounds(len + 1, s.blocklen);
  }

  /** The padding of a full piece. */
  function FullPadding(s: Suite, ipv4: bool): nat
    requires 0 < s.blocklen && Sizes(s, ipv4)
  {
    RoundupBounds(MaxPiece(s, ipv4) + 1, s.blocklen);
    Roundup(MaxPiece(s, ipv4) + 1, s.blocklen) - (MaxPiece(s, ipv4) + 1)
  }

  /** The packet of a piece: with the headers of IP and UDP, and the datagram. */
  function PacketSize(s: Suite, ipv4: bool, len: nat): nat
    requires 0 < s.blocklen
  {
    (if ipv4 then 20 else 40) + 8 + MessageLength(s, Part(1, 1), len)
  }

  /** The sizes are chosen for packets of 576 bytes with IPv4 and of 1280 with IPv6, but
      they leave out the payload and fragment headers.  A packet exceeds that by at most 8
      bytes; that of a full piece keeps to it if and only if its padding leaves 9 bytes of
      a block.  No piece a block longer would do. */
  lemma PacketLimit(s: Suite, ipv4: bool, len: nat)
    requires SmallOverhead(s, ipv4) && Sizes(s, ipv4) && 0 < s.blocklen && len <= MaxPiece(s, ipv4)
    ensures var mtu, m := if ipv4 then 576 else 1280, MaxPiece(s, ipv4);
      && PacketSize(s, ipv4, len) <= PacketSize(s, ipv4, m) <= mtu + 8
      && (PacketSize(s, ipv4, m) <= mtu <==> FullPadding(s, ipv4) + 9 <= s.blocklen)
      && PacketSize(s, ipv4, m + s.blocklen) > mtu + 8
  {
    var m := MaxPiece(s, ipv4);
    RoundupBounds(m + 1, s.blocklen);
    RoundupBounds(m + s.blocklen + 1, s.blocklen);
    RoundupGrows(len + 1, m + 1, s.blocklen);
  }

  /** Blocks of one byte, as AES-GCM has them: the packet of a full piece has 584 bytes. */
  lemma GcmExceeds(s: Suite)
    requires s.blocklen == 1 && s.ivlen == 8 && s.integrlen == 16
    ensures SmallOverhead(s, true) && Sizes(s, true) && MaxPiece(s, true) == 495 && PacketSize(s, true, 495) == 584
  {
    assert Roundup(496, 1) == 496;
  }

  lemma {:induction false} ChunkSize(e: seq<Byte>, m: nat, i: nat)
    requires m > 0 && i < |Chunks(e, m)|
    ensures |Chunks(e, m)[i]| <= m
    decreases |e|
  {
    if |e| >= m && i > 0 {
      ChunkSize(e[m..], m, i - 1);
    }
  }

  lemma FragmentWithinLimit(s: Suite, ipv4: bool, e: seq<Byte>, i: nat)
    requires SmallOverhead(s, ipv4) && Sizes(s, ipv4) && 0 < s.blocklen && i < |Chunks(e, MaxPiece(s, ipv4))|
    ensures SecureLength(s, |Chunks(e, MaxPiece(s, ipv4))[i]|) <= MaxLen(ipv4)
  {
    ChunkSize(e, MaxPiece(s, ipv4), i);
    PieceFits(s, ipv4, |Chunks(e, MaxPiece(s, ipv4))[i]|);
  }

  /** `msg` is the datagram of fragment `i` of a payload cut into `chunks`. */
  ghost predicate IsFragment(s: Suite, k: Keys, initiator: bool, h: Header, first: Byte, chunks: seq<seq<Byte>>, r: Random, i: nat, msg: seq<Byte>)
    requires 0 < s.blocklen <= 256 && WellFormed(h) && Suits(r, s) && i < |chunks| < 0x1_0000
  {
    var f := Part(i + 1, |chunks|);
    && MessageLength(s, f, |chunks[i]|) <= MSGBUF_MAX
    && msg == Datagram(s, k, initiator, h, if i == 0 then first else 0, f, chunks[i], r.iv(i), r.padding(i, |chunks[i]|))
  }

  /** The first datagrams of such a payload, in order. */
  ghost predicate AreFragments(s: Suite, k: Keys, initiator: bool, h: Header, first: Byte, chunks: seq<seq<Byte>>, r: Random, out: seq<seq<Byte>>)
    requires 0 < s.blocklen <= 256 && WellFormed(h) && Suits(r, s) && |out| <= |chunks| < 0x1_0000
  {
    forall i :: 0 <= i < |out| ==> IsFragment(s, k, initiator, h, first, chunks, r, i, out[i])
  }

  lemma NextFragment(s: Suite, k: Keys, initiator: bool, h: Header, first: Byte, chunks: seq<seq<Byte>>, r: Random, out: seq<seq<Byte>>, msg: seq<Byte>)
    requires 0 < s.blocklen <= 256 && WellFormed(h) && Suits(r, s) && |out| < |chunks| < 0x1_0000
    requires AreFragments(s, k, initiator, h, first, chunks, r, out) && IsFragment(s, k, initiator, h, first, chunks, r, |out|, msg)
    ensures AreFragments(s, k, initiator, h, first, chunks, r, out + [msg])
  {}

  /** ikev2_send_encrypted_fragments, up to the sending.  It fails exactly when the
      overhead exceeds the fragment size, so that all is one fragment, and this does not
      fit a buffer. */
  method SendFragments(s: Suite, k: Keys, initiator: bool, h: Header, first: Byte, e: seq<Byte>, ipv4: bool, r: Random)
    returns (ok: bool, out: seq<seq<Byte>>)
    requires Lawful(s) && Sizes(s, ipv4) && Suits(r, s) && WellFormed(h) && |e| <= MSGBUF_MAX
    ensures ok <==> SmallOverhead(s, ipv4) || MessageLength(s, Part(1, 1), |e|) <= MSGBUF_MAX
    ensures !ok ==> out == []
    ensures ok ==>
      var chunks := Chunks(e, MaxPiece(s, ipv4));
      |out| == |chunks| == |e| / MaxPiece(s, ipv4) + 1 < 0x1_0000 && AreFragments(s, k, initiator, h, first, chunks, r, out)
  {
    var maxLen := MaxPiece(s, ipv4);
    ghost var chunks := Chunks(e, maxLen);
    ChunksCount(e, maxLen);
    ChunksAtMost(e, maxLen);
    assert e[0..] == e && chunks[0..] == chunks;
    ok, out := SendLoop(s, k, initiator, h, first, e, maxLen, |e| / maxLen + 1, r, chunks);
    if ok {
      AllSent(s, k, initiator, h, first, e, ipv4, r, out);
    } else {
      NotSent(s, ipv4, e, |out| + 1);
    }
  }

  /** The loop: it goes on to the first fragment that does not fit a buffer. */
  method SendLoop(s: Suite, k: Keys, initiator: bool, h: Header, first: Byte, e: seq<Byte>, maxLen: nat, fragTotal: Word16, r: Random,
                  ghost chunks: seq<seq<Byte>>)
    returns (ok: bool, out: seq<seq<Byte>>)
    requires Lawful(s) && Suits(r, s) && WellFormed(h) && |e| <= MSGBUF_MAX
    requires maxLen > 0 && |chunks| == fragTotal && Ahead(e, maxLen, 0, chunks, 0)
    ensures |out| <= |chunks| && AreFragments(s, k, initiator, h, first, chunks, r, out)
    ensures if ok then |out| == |chunks|
      else |out| < |chunks| && MessageLength(s, Part(|out| + 1, |chunks|), |chunks[|out|]|) > MSGBUF_MAX
  {
    ok, out := true, [];
    var offset: nat, left: nat, fragNum: nat := 0, |e|, 1;
    var firstPayload := first;
    while fragNum <= fragTotal
      invariant 1 <= fragNum <= fragTotal + 1 && offset + left == |e| && ok
      invariant firstPayload == if fragNum == 1 then first else 0
      invariant |out| == fragNum - 1 && Sending(s, k, initiator, h, first, e, maxLen, chunks, r, offset, out)
    {
      var len := if left < maxLen then left else maxLen;
      var msg := SendNext(s, k, initiator, h, firstPayload, fragNum, fragTotal, e, offset, len, r, first, maxLen, chunks, out);
      if msg.None? {
        return false, out;
      }
      out, offset, left, fragNum := out + [msg.value], offset + len, left - len, fragNum + 1;
      firstPayload := 0;
    }
  }

  /** One round of the loop. */
  method SendNext(s: Suite, k: Keys, initiator: bool, h: Header, first: Byte, num: Word16, total: Word16, e: seq<Byte>, offset: nat, len: nat,
                  r: Random, ghost first0: Byte, ghost m: nat, ghost chunks: seq<seq<Byte>>, ghost out: seq<seq<Byte>>)
    returns (msg: Option<seq<Byte>>)
    requires Lawful(s) && Suits(r, s) && WellFormed(h) && |e| <= MSGBUF_MAX && m > 0
    requires 0 < num <= total == |chunks| && |out| == num - 1 && first == if num == 1 then first0 else 0
    requires Sending(s, k, initiator, h, first0, e, m, chunks, r, offset, out) && len == if |e| - offset < m then |e| - offset else m
    ensures msg.None? ==> MessageLength(s, Part(num, total), |chunks[num - 1]|) > MSGBUF_MAX
    ensures msg.Some? ==> Sending(s, k, initiator, h, first0, e, m, chunks, r, offset + len, out + [msg.value])
  {
    PieceHere(e, m, offset, chunks, num - 1);
    msg := SendFragment(s, k, initiator, h, first, num, total, e[offset..offset + len], r, first0, chunks);
    if msg.Some? {
      SendStep(s, k, initiator, h, first0, e, m, chunks, r, offset, len, out, msg.value);
    }
  }

  /** `out` has been sent, and the payload from `offset` on has not. */
  ghost predicate Sending(s: Suite, k: Keys, initiator: bool, h: Header, first: Byte, e: seq<Byte>, m: nat, chunks: seq<seq<Byte>>, r: Random,
                          offset: nat, out: seq<seq<Byte>>)
    requires m > 0 && 0 < s.blocklen <= 256 && WellFormed(h) && Suits(r, s) && |chunks| < 0x1_0000
  {
    && |out| <= |chunks| && AreFragments(s, k, initiator, h, first, chunks, r, out)
    && (|out| < |chunks| ==> Ahead(e, m, offset, chunks, |out|))
  }

  lemma {:induction false} SendStep(s: Suite, k: Keys, initiator: bool, h: Header, first: Byte, e: seq<Byte>, m: nat, chunks: seq<seq<Byte>>, r: Random,
                                    offset: nat, len: nat, out: seq<seq<Byte>>, msg: seq<Byte>)
    requires m > 0 && 0 < s.blocklen <= 256 && WellFormed(h) && Suits(r, s) && |out| < |chunks| < 0x1_0000
    requires Sending(s, k, initiator, h, first, e, m, chunks, r, offset, out)
    requires IsFragment(s, k, initiator, h, first, chunks, r, |out|, msg) && len == if |e| - offset < m then |e| - offset else m
    ensures Sending(s, k, initiator, h, first, e, m, chunks, r, offset + len, out + [msg])
  {
    ChunkStep(e, m, offset, chunks, |out|);
    NextFragment(s, k, initiator, h, first, chunks, r, out, msg);
  }

  /** Only the one fragment of a wrapped size can fail. */
  lemma NotSent(s: Suite, ipv4: bool, e: seq<Byte>, num: Word16)
    requires 0 < s.blocklen && Sizes(s, ipv4) && |e| <= MSGBUF_MAX
    requires var chunks := Chunks(e, MaxPiece(s, ipv4));
      1 <= num <= |chunks| < 0x1_0000 && MessageLength(s, Part(num, |chunks|), |chunks[num - 1]|) > MSGBUF_MAX
    ensures num == 1 && !SmallOverhead(s, ipv4) && MessageLength(s, Part(1, 1), |e|) > MSGBUF_MAX
  {
    ChunkSize(e, MaxPiece(s, ipv4), num - 1);
    if SmallOverhead(s, ipv4) {
      PieceFits(s, ipv4, |Chunks(e, MaxPiece(s, ipv4))[num - 1]|);
    }
  }

  lemma {:induction false} AllSent(s: Suite, k: Keys, initiator: bool, h: Header, first: Byte, e: seq<Byte>, ipv4: bool, r: Random, out: seq<seq<Byte>>)
    requires 0 < s.blocklen <= 256 && Sizes(s, ipv4) && WellFormed(h) && Suits(r, s) && |e| <= MSGBUF_MAX
    requires var chunks := Chunks(e, MaxPiece(s, ipv4)); |out| == |chunks| < 0x1_0000 && AreFragments(s, k, initiator, h, first, chunks, r, out)
    ensures SmallOverhead(s, ipv4) || MessageLength(s, Part(1, 1), |e|) <= MSGBUF_MAX
  {
    if !SmallOverhead(s, ipv4) {
      assert Chunks(e, MaxPiece(s, ipv4)) == [e];
      assert IsFragment(s, k, initiator, h, first, [e], r, 0, out[0]);
    }
  }

  /** The payload from `offset` on is cut into the pieces from `i` on. */
  ghost predicate Ahead(e: seq<Byte>, m: nat, offset: nat, chunks: seq<seq<Byte>>, i: nat)
    requires m > 0
  {
    offset <= |e| && i < |chunks| && Chunks(e[offset..], m) == chunks[i..]
  }

  /** What the loop reads, and where it goes next. */
  lemma {:induction false} ChunkStep(e: seq<Byte>, m: nat, offset: nat, chunks: seq<seq<Byte>>, i: nat)
    requires m > 0 && Ahead(e, m, offset, chunks, i)
    ensures var len := if |e| - offset < m then |e| - offset else m;
      e[offset..offset + len] == chunks[i] && (i + 1 < |chunks| ==> Ahead(e, m, offset + len, chunks, i + 1))
  {
    var rest := chunks[i..];
    assert rest[0] == chunks[i] && rest[1..] == chunks[i + 1..];
    if |e| - offset < m {
      assert e[offset..offset + (|e| - offset)] == e[offset..];
    } else {
      assert e[offset..][m..] == e[offset + m..] && e[offset..][..m] == e[offset..offset + m];
    }
  }

  lemma {:induction false} PieceHere(e: seq<Byte>, m: nat, offset: nat, chunks: seq<seq<Byte>>, i: nat)
    requires m > 0 && Ahead(e, m, offset, chunks, i)
    ensures offset <= |e| && e[offset..offset + if |e| - offset < m then |e| - offset else m] == chunks[i]
  {
    ChunkStep(e, m, offset, chunks, i);
  }

  /** One fragment. */
  method SendFragment(s: Suite, k: Keys, initiator: bool, h: Header, first: Byte, num: Word16, total: Word16,
                      e: seq<Byte>, r: Random, ghost first0: Byte, ghost chunks: seq<seq<Byte>>) returns (msg: Option<seq<Byte>>)
    requires Lawful(s) && Suits(r, s) && WellFormed(h) && |e| <= MSGBUF_MAX
    requires 0 < num <= total == |chunks| && chunks[num - 1] == e && first == if num == 1 then first0 else 0
    ensures msg.Some? <==> MessageLength(s, Part(num, total), |e|) <= MSGBUF_MAX
    ensures msg.Some? ==> IsFragment(s, k, initiator, h, first0, chunks, r, num - 1, msg.value)
  {
    msg := SendEncrypt(s, k, initiator, h, first, Part(num, total), e, r.iv(num - 1), r.padding(num - 1, |e|));
  }

  lemma {:induction false} ChunksAtMost(e: seq<Byte>, m: nat)
    requires m > 0
    ensures |Chunks(e, m)| <= |e| + 1
    decreases |e|
  {
    if |e| >= m {
      ChunksAtMost(e[m..], m);
    }
  }

  // ----- the other side -----

  /** What ikev2_pld_ef or ikev2_pld_e finds in a datagram. */
  function Arrival(s: Suite, k: Keys, initiator: bool, msg: seq<Byte>): Option<Reception>
    requires s.blocklen > 0
  {
    match Locate(msg)
    case Some(Located(first, Part(num, total), data)) => Some(Reception(first, num, total, Decrypt(s, k, initiator, msg, data)))
    case Some(Located(_, Whole, _)) => Some(Sk)
    case None => None
  }

  lemma DatagramArrives(s: Suite, k: Keys, initiator: bool, h: Header, first: Byte, num: Word16, total: Word16,
                        e: seq<Byte>, iv: seq<Byte>, padding: seq<Byte>)
    requires Lawful(s) && WellFormed(h) && MessageLength(s, Part(num, total), |e|) <= MSGBUF_MAX
    requires |iv| == s.ivlen && |padding| == Roundup(|e| + 1, s.blocklen) - (|e| + 1)
    ensures Arrival(s, k, !initiator, Datagram(s, k, initiator, h, first, Part(num, total), e, iv, padding))
         == Some(Reception(first, num, total, Some(e)))
  {
    OpenInverts(s, k, initiator, h, first, Part(num, total), e, iv, padding);
  }

  lemma PieceArrives(s: Suite, k: Keys, initiator: bool, h: Header, first: Byte, chunks: seq<seq<Byte>>, i: nat,
                     next: Byte, num: Word16, e: seq<Byte>, iv: seq<Byte>, padding: seq<Byte>)
    requires Lawful(s) && WellFormed(h) && i < |chunks| < 0x1_0000 && MessageLength(s, Part(num, |chunks|), |e|) <= MSGBUF_MAX
    requires next == (if i == 0 then first else 0) && num == i + 1 && e == chunks[i]
    requires |iv| == s.ivlen && |padding| == Roundup(|e| + 1, s.blocklen) - (|e| + 1)
    ensures Arrival(s, k, !initiator, Datagram(s, k, initiator, h, next, Part(num, |chunks|), e, iv, padding))
         == Some(Received(chunks, first, Own(i)))
  {
    DatagramArrives(s, k, initiator, h, next, num, |chunks|, e, iv, padding);
  }

  /** Every datagram the sender makes arrives, with the opposite role, as the fragment
      it is. */
  lemma FragmentArrives(s: Suite, k: Keys, initiator: bool, h: Header, first: Byte, chunks: seq<seq<Byte>>, r: Random, i: nat, msg: seq<Byte>)
    requires Lawful(s) && Suits(r, s) && WellFormed(h) && i < |chunks| < 0x1_0000
    requires IsFragment(s, k, initiator, h, first, chunks, r, i, msg)
    ensures Arrival(s, k, !initiator, msg) == Some(Received(chunks, first, Own(i)))
  {
    PieceArrives(s, k, initiator, h, first, chunks, i, if i == 0 then first else 0, i + 1, chunks[i], r.iv(i), r.padding(i, |chunks[i]|));
  }

  ghost function Owns(order: seq<nat>): seq<Delivery> {
    seq(|order|, j requires 0 <= j < |order| => Own(order[j]))
  }

  lemma OwnsNumbers(order: seq<nat>)
    ensures Numbers(Owns(order)) == set i | i in order
  {
    forall i | i in order
      ensures i in Numbers(Owns(order))
    {
      var j :| 0 <= j < |order| && order[j] == i;
      assert Owns(order)[j] == Own(i);
    }
  }

  /** What arrives when the fragments `arrive` are delivered in the given order. */
  ghost function InOrder(arrive: seq<Reception>, order: seq<nat>): seq<Reception>
    requires forall i :: i in order ==> i < |arrive|
  {
    seq(|order|, j requires 0 <= j < |order| => assert order[j] in order; arrive[order[j]])
  }

  /** The receiver, once the fragments are known to arrive as what they are. */
  lemma InAnyOrder(e: seq<Byte>, m: nat, first: Byte, arrive: seq<Reception>, order: seq<nat>, last: nat)
    requires m > 0 && |arrive| == |Chunks(e, m)| < 0x1_0000
    requires forall i :: 0 <= i < |arrive| ==> arrive[i] == Received(Chunks(e, m), first, Own(i))
    requires last < |arrive| && (forall i :: i in order ==> i < |arrive|) && (set i | i in order) != All(|arrive|)
    ensures var out := Accept(RunStore(InOrder(arrive, order)), arrive[last]).1;
      && (out.HandUp? <==> (set i | i in order + [last]) == All(|arrive|) && Takeable(e, m))
      && (out.HandUp? ==> out == HandUp(e, first))
  {
    OwnsNumbers(order);
    OwnsNumbers(order + [last]);
    OwnsNext(order, last, |arrive|);
    OwnsSince(order);
    OrderReceptions(Chunks(e, m), first, arrive, order);
    ExactlyOnce(e, m, first, Owns(order), Own(last));
  }

  lemma {:induction false} OwnsSince(order: seq<nat>)
    ensures SinceSk(Owns(order)) == Owns(order)
  {
    if order != [] {
      var n := |order| - 1;
      OwnsSince(order[..n]);
      assert Owns(order)[..n] == Owns(order[..n]) && Owns(order) == Owns(order[..n]) + [Own(order[n])];
    }
  }

  lemma OwnsNext(order: seq<nat>, last: nat, n: nat)
    requires last < n && forall i :: i in order ==> i < n
    ensures Owns(order + [last]) == Owns(order) + [Own(last)] && AllDeliverable(n, Owns(order))
  {
    forall d | d in Owns(order)
      ensures Deliverable(n, d)
    {
      var j :| 0 <= j < |order| && Own(order[j]) == d;
      assert order[j] in order;
    }
  }

  lemma OrderReceptions(chunks: seq<seq<Byte>>, first: Byte, arrive: seq<Reception>, order: seq<nat>)
    requires |arrive| == |chunks| < 0x1_0000 && AllDeliverable(|chunks|, Owns(order)) && forall i :: i in order ==> i < |arrive|
    requires forall i :: 0 <= i < |arrive| ==> arrive[i] == Received(chunks, first, Own(i))
    ensures InOrder(arrive, order) == Receptions(chunks, first, Owns(order))
  {
    assert forall j :: 0 <= j < |order| ==> order[j] in order;
  }

  /** From the payload of one side to that of the other: the datagrams of the sender
      arrive as fragments; in any order and any number of times they hand up nothing while
      one is missing, and the last missing one hands up the payload with the type of its
      first payload, if and only if the payload is not empty, fits a buffer and has at most
      111 fragments. */
  lemma EndToEnd(s: Suite, k: Keys, initiator: bool, h: Header, first: Byte, e: seq<Byte>, m: nat, r: Random, out: seq<seq<Byte>>,
                 order: seq<nat>, last: nat) returns (arrive: seq<Reception>)
    requires Lawful(s) && Suits(r, s) && WellFormed(h)
    requires m > 0 && |out| == |Chunks(e, m)| < 0x1_0000
    requires AreFragments(s, k, initiator, h, first, Chunks(e, m), r, out)
    requires last < |out| && (forall i :: i in order ==> i < |out|) && (set i | i in order) != All(|out|)
    ensures |arrive| == |out| && forall i :: 0 <= i < |out| ==> Arrival(s, k, !initiator, out[i]) == Some(arrive[i])
    ensures var outcome := Accept(RunStore(InOrder(arrive, order)), arrive[last]).1;
      && (outcome.HandUp? <==> (set i | i in order + [last]) == All(|out|) && Takeable(e, m))
      && (outcome.HandUp? ==> outcome == HandUp(e, first))
  {
    var chunks := Chunks(e, m);
    arrive := seq(|out|, i requires 0 <= i < |out| => Received(chunks, first, Own(i)));
    forall i | 0 <= i < |out|
      ensures Arrival(s, k, !initiator, out[i]) == Some(arrive[i])
    {
      FragmentArrives(s, k, initiator, h, first, chunks, r, i, out[i]);
    }
    InAnyOrder(e, m, first, arrive, order, last);
  }
}
