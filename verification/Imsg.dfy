/** Messages between processes (compat/imsg.c): a header and data, put in the queue
    of a msgbuf and taken from it. */
module Imsg {
  import opened Bytes
  import opened MsgStream
  import opened ImsgBuffer
  import opened Options

  /** The size of struct imsg_hdr. */
  const HEADER: nat := 16

  /** IMSG_FD_MARK, the top bit of the length field. */
  const FD_MARK: nat := 0x8000_0000

  datatype Message = Message(kind: Word32, peerid: Word32, pid: Word32, data: seq<Byte>)

  function Header(kind: Word32, len: Word32, peerid: Word32, pid: Word32): (s: seq<Byte>)
    ensures |s| == HEADER
  {
    PutHost(kind) + PutHost(len) + PutHost(peerid) + PutHost(pid)
  }

  /** The bytes of a message without a descriptor.  The length is stored in 32 bits. */
  function Frame(m: Message): (s: seq<Byte>)
    ensures |s| == HEADER + |m.data|
  {
    Header(m.kind, (HEADER + |m.data|) % 0x1_0000_0000, m.peerid, m.pid) + m.data
  }

  /** The message in a received buffer. */
  function Decode(s: seq<Byte>): Message
    requires |s| >= HEADER
  {
    Message(GetHost(s[..4]), GetHost(s[8..12]), GetHost(s[12..16]), s[HEADER..])
  }

  /** imsg_parse_hdr: the size of the buffer to read, or None for a length that is
      below the header or above the limit.  The descriptor mark is not counted. */
  function ParseHeader(h: seq<Byte>, maxsize: nat): Option<nat> {
    if |h| != HEADER then None
    else
      var len := GetHost(h[4..8]) % FD_MARK;
      if len < HEADER || len > maxsize then None else Some(len)
  }

  /** How the reader of an imsgbuf finds frames. */
  function ImsgFraming(maxsize: nat): (fr: Framing)
    ensures Proper(fr)
  {
    Framing(HEADER, h => ParseHeader(h, maxsize))
  }

  ghost predicate Fits(m: Message, maxsize: nat) {
    HEADER + |m.data| <= maxsize
  }

  /** A message that fits the reader's limit is read as one frame, and decoded as
      the same message; one that does not fit is refused. */
  lemma FrameDecodes(m: Message, maxsize: nat)
    requires HEADER + |m.data| < FD_MARK
    ensures Decode(Frame(m)) == m
    ensures IsFrame(ImsgFraming(maxsize), Frame(m)) <==> Fits(m, maxsize)
    ensures !Fits(m, maxsize) ==> ParseHeader(Frame(m)[..HEADER], maxsize).None?
  {
    var len: Word32 := HEADER + |m.data|;
    HostBack(m.kind);
    HostBack(len);
    HostBack(m.peerid);
    HostBack(m.pid);
    FrameIs(m, len);
    DecodeFields(PutHost(m.kind), PutHost(len), PutHost(m.peerid), PutHost(m.pid), m, maxsize);
  }

  /** The fields of struct imsg_hdr at their places. */
  lemma FrameFields(m: Message)
    requires HEADER + |m.data| < FD_MARK
    ensures var s := Frame(m);
      && GetHost(s[..4]) == m.kind && GetHost(s[4..8]) as int == |s| && GetHost(s[8..12]) == m.peerid && GetHost(s[12..16]) == m.pid
      && s[16..] == m.data
  {
    var len: Word32 := HEADER + |m.data|;
    HostBack(m.kind);
    HostBack(len);
    HostBack(m.peerid);
    HostBack(m.pid);
    FrameIs(m, len);
    PlacesOf(PutHost(m.kind), PutHost(len), PutHost(m.peerid), PutHost(m.pid), m.data);
  }

  lemma PlacesOf(a: seq<Byte>, b: seq<Byte>, c: seq<Byte>, d: seq<Byte>, data: seq<Byte>)
    requires |a| == |b| == |c| == |d| == 4
    ensures var s := (a + b + c + d) + data; s[..4] == a && s[4..8] == b && s[8..12] == c && s[12..16] == d && s[16..] == data
  {}

  lemma HostBack(w: Word32)
    ensures GetHost(PutHost(w)) == w
  {
    RoundTripHost(w, []);
    assert PutHost(w) + [] == PutHost(w);
  }

  lemma FrameIs(m: Message, len: Word32)
    requires len == HEADER + |m.data|
    ensures Frame(m) == (PutHost(m.kind) + PutHost(len) + PutHost(m.peerid) + PutHost(m.pid)) + m.data
  {}

  /** What is read from the four fields of a header. */
  lemma DecodeFields(a: seq<Byte>, b: seq<Byte>, c: seq<Byte>, d: seq<Byte>, m: Message, maxsize: nat)
    requires |a| == |b| == |c| == |d| == 4 && GetHost(b) == HEADER + |m.data| < FD_MARK
    requires GetHost(a) == m.kind && GetHost(c) == m.peerid && GetHost(d) == m.pid
    ensures var s := (a + b + c + d) + m.data;
      Decode(s) == m && ParseHeader(s[..HEADER], maxsize) == if Fits(m, maxsize) then Some(|s|) else None
  {
    var s := (a + b + c + d) + m.data;
    assert s[..4] == a && s[..HEADER][4..8] == b && s[8..12] == c && s[12..16] == d && s[HEADER..] == m.data;
  }

  lemma PatchFields(a: seq<Byte>, b: seq<Byte>, c: seq<Byte>, d: seq<Byte>, data: seq<Byte>, l: seq<Byte>)
    requires |a| == |b| == |c| == |d| == 4
    ensures var s := (a + b + c + d) + data; s[..4] + l + s[8..] == (a + l + c + d) + data
  {
    var s := (a + b + c + d) + data;
    assert s[..4] == a && s[8..] == c + d + data;
    assert a + l + (c + d + data) == (a + l + c + d) + data;
  }

  /** The messages in a sequence of frames. */
  ghost predicate Carries(frames: seq<seq<Byte>>, ms: seq<Message>) {
    |frames| == |ms| && forall i | 0 <= i < |ms| :: frames[i] == Frame(ms[i])
  }

  /** In every run of a sender and a receiver whose limit is not below what was sent,
      imsg_get returns the messages composed, in order, each once. */
  lemma ImsgDelivery(recvMax: nat, steps: seq<Step>, states: seq<State>, ms: seq<Message>)
    requires recvMax < FD_MARK && IsRun(ImsgFraming(recvMax), steps, states)
    requires Carries(states[|steps|].composed, ms) && forall i | 0 <= i < |ms| :: Fits(ms[i], recvMax)
    ensures var s := states[|steps|];
      && |s.got| <= |ms|
      && (forall i | 0 <= i < |s.got| :: |s.got[i]| >= HEADER && Decode(s.got[i]) == ms[i])
      && |s.reader.rest| < HEADER
      && (s.wire == [] && Flat(s.queue) == [] && s.reader.frames == [] ==> |s.got| == |ms|)
  {
    var s := states[|steps|];
    Delivery(ImsgFraming(recvMax), steps, states, MsgStream.Get);
    forall i | 0 <= i < |s.got| ensures |s.got[i]| >= HEADER && Decode(s.got[i]) == ms[i] {
      assert s.got[i] == s.composed[i] == Frame(ms[i]);
      FrameDecodes(ms[i], recvMax);
    }
  }

  /** imsg_create, imsg_add and imsg_close: a message in a buffer of its own.  The
      length in the header is first `garbage`, and is set at the end. */
  method Compose(w: WriteQueue, maxsize: nat, self: Word32, garbage: Word32,
                 kind: Word32, peerid: Word32, pid: Word32, data: seq<Byte>) returns (rv: int)
    requires w.Valid() && HEADER <= maxsize < FD_MARK && |data| <= SIZE_MAX
    modifies w
    ensures w.Valid()
    ensures rv == if HEADER + |data| <= maxsize then 1 else -1
    ensures rv == -1 ==> w.queue == old(w.queue)
    ensures rv == 1 ==> w.queue == old(w.queue) + [Frame(Message(kind, peerid, if pid == 0 then self else pid, data))]
  {
    var datalen := (|data| + HEADER) % (SIZE_MAX + 1);
    if datalen > maxsize {
      return -1;
    }
    var hdrpid := if pid == 0 then self else pid;
    var wbuf := new Ibuf(datalen, maxsize);
    var ok := wbuf.Add(Header(kind, garbage, peerid, hdrpid));
    if |data| != 0 {
      ok := wbuf.Add(data);
      if !ok {
        return -1;
      }
    }
    assert wbuf.Contents() == Header(kind, garbage, peerid, hdrpid) + data;
    Close(w, wbuf, Message(kind, peerid, hdrpid, data), garbage);
    rv := 1;
  }

  /** imsg_close: the length is set, and the buffer is queued. */
  method Close(w: WriteQueue, msg: Ibuf, ghost m: Message, ghost garbage: Word32)
    requires w.Valid() && msg.Valid() && msg !in w.bufs && (forall b | b in w.bufs :: b.buf != msg.buf)
    requires HEADER + |m.data| < FD_MARK && msg.Contents() == Header(m.kind, garbage, m.peerid, m.pid) + m.data
    modifies w, msg.buf
    ensures w.Valid() && w.queue == old(w.queue) + [Frame(m)]
  {
    Patched(m, garbage);
    var len := msg.Size();
    Patch(msg, PutHost(len), Header(m.kind, garbage, m.peerid, m.pid) + m.data, Frame(m));
    w.Enqueue(msg);
  }

  /** ibuf_set at the length field. */
  method Patch(msg: Ibuf, l: seq<Byte>, ghost s: seq<Byte>, ghost s': seq<Byte>)
    requires msg.Valid() && msg.Contents() == s && |s| >= HEADER && |l| == 4 && s[..4] + l + s[8..] == s'
    modifies msg.buf
    ensures msg.Valid() && msg.Contents() == s'
  {
    var _ := msg.Set(4, l);
  }

  lemma Patched(m: Message, garbage: Word32)
    requires HEADER + |m.data| < FD_MARK
    ensures var s := Header(m.kind, garbage, m.peerid, m.pid) + m.data;
      s[..4] + PutHost(HEADER + |m.data|) + s[8..] == Frame(m)
  {
    PatchFields(PutHost(m.kind), PutHost(garbage), PutHost(m.peerid), PutHost(m.pid), m.data, PutHost(HEADER + |m.data|));
  }

  /** imsg_compose_ibuf: the header in a buffer of its own, then the buffer given. */
  method ComposeBuffer(w: WriteQueue, maxsize: nat, self: Word32, kind: Word32, peerid: Word32, pid: Word32, buf: Ibuf)
    returns (rv: int)
    requires w.Valid() && HEADER <= maxsize < FD_MARK && buf.Valid() && buf !in w.bufs
    modifies w
    ensures w.Valid()
    ensures rv == if HEADER + |buf.Contents()| <= maxsize then 1 else -1
    ensures rv == -1 ==> w.queue == old(w.queue)
    ensures rv == 1 ==>
      var m := Message(kind, peerid, if pid == 0 then self else pid, buf.Contents());
      w.queue == old(w.queue) + [Frame(m)[..HEADER], m.data] && Flat([Frame(m)[..HEADER], m.data]) == Frame(m)
  {
    if buf.Size() + HEADER > maxsize {
      return -1;
    }
    var len := buf.Size() + HEADER;
    var hdrbuf := new Ibuf(HEADER, HEADER);
    var _ := hdrbuf.Add(Header(kind, len, peerid, if pid == 0 then self else pid));
    ghost var m := Message(kind, peerid, if pid == 0 then self else pid, buf.Contents());
    SplitFrame(m);
    w.Enqueue(hdrbuf);
    w.Enqueue(buf);
    rv := 1;
  }

  lemma SplitFrame(m: Message)
    requires HEADER + |m.data| < FD_MARK
    ensures Frame(m)[..HEADER] == Header(m.kind, HEADER + |m.data|, m.peerid, m.pid)
    ensures Flat([Frame(m)[..HEADER], m.data]) == Frame(m)
  {
    assert [Frame(m)[..HEADER], m.data][1..] == [m.data];
    FlatOne(m.data);
  }

  lemma HeaderFields(s: seq<Byte>, h: seq<Byte>)
    requires |s| >= HEADER && h == s[..HEADER]
    ensures h[..4] == s[..4] && h[8..12] == s[8..12] && h[12..16] == s[12..16]
  {}

  /** imsg_get: zero when there is no message, else its length.  On the reader it is the
      step `Get` of a run. */
  method GetMessage(r: ReadBuffer) returns (rv: int, m: Option<Message>)
    requires r.Valid() && r.fr.hdrsize == HEADER && AllFrames(r.fr, r.frames)
    modifies r, r.rbufs
    ensures old(r.frames) != [] ==> |old(r.frames)[0]| >= HEADER
    ensures rv == (if old(r.frames) == [] then 0 else |old(r.frames)[0]|)
    ensures m == (if old(r.frames) == [] then None else Some(Decode(old(r.frames)[0])))
    ensures r.Valid() && AllFrames(r.fr, r.frames)
    ensures r.At(0) == if old(r.frames) == [] then old(r.At(0)) else old(r.At(0)).(frames := old(r.frames)[1..])
  {
    FirstFetched(r.fr, r.frames);
    var buf := r.Get();
    if buf == null {
      return 0, None;
    }
    var msg;
    rv, msg := TakeFetched(r, buf);
    m := Some(msg);
  }

  /** A buffer that was fetched is no longer the reader's. */
  method TakeFetched(ghost r: ReadBuffer, buf: Ibuf) returns (rv: nat, m: Message)
    requires r.Valid() && buf !in r.rbufs && buf != r.rpmsg && buf.Valid() && |buf.Contents()| >= HEADER
    modifies buf`rpos
    ensures r.Valid() && r.At(0) == old(r.At(0))
    ensures rv == |old(buf.Contents())| && m == Decode(old(buf.Contents()))
  {
    rv, m := TakeMessage(buf);
  }

  lemma FirstFetched(fr: Framing, frames: seq<seq<Byte>>)
    requires fr.hdrsize == HEADER && AllFrames(fr, frames)
    ensures frames != [] ==> |frames[0]| >= HEADER && AllFrames(fr, frames[1..])
  {
    assert frames != [] ==> frames[0] in frames;
  }

  /** The header of a message is read, and the rest is its data. */
  method TakeMessage(buf: Ibuf) returns (rv: nat, m: Message)
    requires buf.Valid() && |buf.Contents()| >= HEADER
    modifies buf`rpos
    ensures buf.Valid() && rv == |old(buf.Contents())| && m == Decode(old(buf.Contents()))
  {
    ghost var s := buf.Contents();
    var hdr := buf.Get(HEADER);
    var h := hdr.value;
    var data := buf.buf[buf.rpos..buf.wpos];
    HeaderFields(s, h);
    m := Message(GetHost(h[..4]), GetHost(h[8..12]), GetHost(h[12..16]), data);
    rv := buf.Size() + HEADER;
  }
}
