/** The byte stream of a msgbuf (compat/imsg-buffer.c), as values: the draining of
    the write queue, and the reading of frames whose size is in a header. */
module MsgStream {
  import opened Bytes
  import opened Options

  /** IBUF_READ_SIZE, and the largest size_t. */
  const READ_SIZE: nat := 65535
  const SIZE_MAX: nat := 0xffff_ffff_ffff_ffff

  function Min(a: nat, b: nat): nat { if a <= b then a else b }

  // ----- msgbuf_drain -----

  /** The queued buffers after `n` bytes of them were written. */
  function Drain(queue: seq<seq<Byte>>, n: nat): seq<seq<Byte>> {
    if queue == [] || n == 0 then queue
    else if n >= |queue[0]| then Drain(queue[1..], n - |queue[0]|)
    else [queue[0][n..]] + queue[1..]
  }

  lemma {:induction false} DrainDrops(queue: seq<seq<Byte>>, n: nat)
    requires n <= |Flat(queue)|
    ensures Flat(Drain(queue, n)) == Flat(queue)[n..]
  {
    if queue != [] && n > 0 {
      if n >= |queue[0]| {
        DrainDrops(queue[1..], n - |queue[0]|);
      } else {
        assert Drain(queue, n)[1..] == queue[1..];
      }
    }
  }

  /** Buffer `i` is reached with bytes left, and covered by them. */
  predicate Covered(queue: seq<seq<Byte>>, n: nat, i: nat) {
    i < |queue| && |Flat(queue[..i])| < n && |Flat(queue[..i + 1])| <= n
  }

  lemma CoveredNext(queue: seq<seq<Byte>>, n: nat, i: nat)
    requires queue != []
    ensures Covered(queue, n, i) <==> 0 < n && |queue[0]| <= n && (i == 0 || Covered(queue[1..], n - |queue[0]|, i - 1))
  {
    if i < |queue| {
      FlatStart(queue, i);
      FlatStart(queue, i + 1);
    }
  }

  lemma FlatStart(queue: seq<seq<Byte>>, i: nat)
    requires queue != [] && i <= |queue|
    ensures |Flat(queue[..i])| == if i == 0 then 0 else |queue[0]| + |Flat(queue[1..][..i - 1])|
  {
    if i > 0 {
      assert queue[..i][1..] == queue[1..][..i - 1];
    }
  }

  /** Exactly the covered buffers go.  The next one loses the bytes that are left, and the
      others stay as they are. */
  lemma {:induction false} DrainGoes(queue: seq<seq<Byte>>, n: nat) returns (k: nat)
    ensures k <= |queue| && forall i: nat :: Covered(queue, n, i) <==> i < k
    ensures k < |queue| ==> |Flat(queue[..k])| <= n <= |Flat(queue[..k])| + |queue[k]|
    ensures Drain(queue, n) == if k == |queue| then [] else [queue[k][n - |Flat(queue[..k])|..]] + queue[k + 1..]
  {
    k := 0;
    if queue != [] {
      forall i: nat
        ensures Covered(queue, n, i) <==> 0 < n && |queue[0]| <= n && (i == 0 || Covered(queue[1..], n - |queue[0]|, i - 1))
      {
        CoveredNext(queue, n, i);
      }
      if 0 < n && |queue[0]| <= n {
        var j := DrainGoes(queue[1..], n - |queue[0]|);
        k := j + 1;
        FlatStart(queue, k);
        if k < |queue| {
          assert queue[1..][j] == queue[k] && queue[1..][j + 1..] == queue[k + 1..];
        }
      } else {
        assert queue[..0] == [];
        assert n == 0 ==> queue == [queue[0]] + queue[1..];
      }
    }
  }

  /** A queue that is written in full is empty, but for empty buffers at its end. */
  lemma {:induction false} DrainedEmpty(queue: seq<seq<Byte>>)
    ensures Drain(queue, |Flat(queue)|) == [] <==> queue == [] || queue[|queue| - 1] != []
  {
    if queue != [] {
      if |queue| > 1 {
        DrainedEmpty(queue[1..]);
      } else {
        assert queue == [queue[0]] && queue[1..] == [];
      }
    }
  }

  // ----- frames -----

  /** The header size and readhdr of a msgbuf: from a header, the size of the frame
      it starts, or None for a header that is refused. */
  datatype Framing = Framing(hdrsize: nat, readhdr: seq<Byte> -> Option<nat>)

  /** msgbuf_new_reader checks the size; a frame includes its header. */
  ghost predicate Proper(fr: Framing) {
    && 0 < fr.hdrsize <= READ_SIZE / 2
    && forall h: seq<Byte> :: fr.readhdr(h).Some? ==> fr.hdrsize <= fr.readhdr(h).value <= SIZE_MAX
  }

  predicate IsFrame(fr: Framing, s: seq<Byte>) {
    |s| >= fr.hdrsize && fr.readhdr(s[..fr.hdrsize]) == Some(|s|)
  }

  ghost predicate AllFrames(fr: Framing, ss: seq<seq<Byte>>) {
    forall s | s in ss :: IsFrame(fr, s)
  }

  // ----- ibuf_read_process -----

  /** The frames received, the frame being filled, of which `size` bytes are
      expected (zero when there is none), and the bytes not yet looked at. */
  datatype Reader = Reader(frames: seq<seq<Byte>>, partial: seq<Byte>, size: nat, rest: seq<Byte>)

  ghost predicate Sound(fr: Framing, r: Reader) {
    && AllFrames(fr, r.frames)
    && (r.size == 0 ==> r.partial == [])
    && (r.size != 0 ==> fr.hdrsize <= |r.partial| < r.size && fr.readhdr(r.partial[..fr.hdrsize]) == Some(r.size))
  }

  /** Between reads the buffer holds less than a header, or nothing. */
  ghost predicate Settled(fr: Framing, r: Reader) {
    Sound(fr, r) && if r.size == 0 then |r.rest| < fr.hdrsize else r.rest == []
  }

  ghost function Total(r: Reader): seq<Byte> {
    Flat(r.frames) + (r.partial + r.rest)
  }

  /** Moves what there is into the open frame, and closes it when full. */
  function Fill(r: Reader): Reader
    requires |r.partial| <= r.size
  {
    var n := Min(r.size - |r.partial|, |r.rest|);
    var partial, rest := r.partial + r.rest[..n], r.rest[n..];
    if |partial| == r.size then Reader(r.frames + [partial], [], 0, rest)
    else Reader(r.frames, partial, r.size, rest)
  }

  /** One pass of the loop: None is a header that is refused. */
  function Pass(fr: Framing, r: Reader): Option<Reader>
    requires |r.partial| <= r.size
  {
    if r.size != 0 then Some(Fill(r))
    else if |r.rest| < fr.hdrsize then Some(r)
    else
      match fr.readhdr(r.rest[..fr.hdrsize])
      case None => None
      case Some(size) => Some(Fill(r.(size := size)))
  }

  predicate Idle(fr: Framing, r: Reader) {
    r.size == 0 && |r.rest| < fr.hdrsize
  }

  lemma FillKeeps(r: Reader)
    requires |r.partial| < r.size
    ensures Total(Fill(r)) == Total(r)
  {
    var n := Min(r.size - |r.partial|, |r.rest|);
    var partial, rest := r.partial + r.rest[..n], r.rest[n..];
    assert r.rest == r.rest[..n] + rest;
    Assoc(r.partial, r.rest[..n], rest);
    if |partial| == r.size {
      FlatAppend(r.frames, [partial]);
      FlatOne(partial);
      assert [] + rest == rest;
      Assoc(Flat(r.frames), partial, rest);
    }
  }

  lemma FillSound(fr: Framing, r: Reader)
    requires Proper(fr) && |r.partial| < r.size && AllFrames(fr, r.frames) && r.size >= fr.hdrsize
    requires |r.partial + r.rest| >= fr.hdrsize && fr.readhdr((r.partial + r.rest)[..fr.hdrsize]) == Some(r.size)
    ensures Sound(fr, Fill(r))
    ensures Fill(r).size == 0 || Fill(r).rest == []
    ensures |Fill(r).rest| < |r.rest| || r.rest == []
  {
    var n := Min(r.size - |r.partial|, |r.rest|);
    assert (r.partial + r.rest)[..fr.hdrsize] == (r.partial + r.rest[..n])[..fr.hdrsize];
  }

  lemma PassSound(fr: Framing, r: Reader)
    requires Proper(fr) && Sound(fr, r) && !Idle(fr, r) && Pass(fr, r).Some?
    ensures var r' := Pass(fr, r).value;
      && Sound(fr, r') && Total(r') == Total(r)
      && (r'.size == 0 || r'.rest == []) && (r.rest == [] || |r'.rest| < |r.rest|)
  {
    var o := if r.size != 0 then r else r.(size := fr.readhdr(r.rest[..fr.hdrsize]).value);
    assert r.size != 0 ==> (r.partial + r.rest)[..fr.hdrsize] == r.partial[..fr.hdrsize];
    assert r.size == 0 ==> r.partial + r.rest == r.rest;
    FillSound(fr, o);
    FillKeeps(o);
  }

  /** The whole loop of ibuf_read_process. */
  ghost function Process(fr: Framing, r: Reader): Option<Reader>
    requires Proper(fr) && Sound(fr, r)
    decreases |r.rest|
  {
    if Idle(fr, r) then Some(r)
    else
      var p := Pass(fr, r);
      if p.None? || p.value.rest == [] then p
      else
        PassSound(fr, r);
        Process(fr, p.value)
  }

  /** It loses nothing, and leaves less than a header unread. */
  lemma {:induction false} ProcessSettles(fr: Framing, r: Reader)
    requires Proper(fr) && Sound(fr, r) && Process(fr, r).Some?
    ensures Settled(fr, Process(fr, r).value) && Total(Process(fr, r).value) == Total(r)
    decreases |r.rest|
  {
    if !Idle(fr, r) {
      PassSound(fr, r);
      var r1 := Pass(fr, r).value;
      if r1.rest != [] {
        ProcessSettles(fr, r1);
      }
    }
  }

  // ----- the frames in a stream are determined by its bytes -----

  /** What may follow the frames of a stream: nothing, or a header that is refused. */
  predicate Stops(fr: Framing, bad: seq<Byte>) {
    bad == [] || (|bad| >= fr.hdrsize && fr.readhdr(bad[..fr.hdrsize]).None?)
  }

  lemma FirstFrame(fr: Framing, s: seq<Byte>, tail: seq<Byte>, sent: seq<seq<Byte>>, bad: seq<Byte>)
    requires AllFrames(fr, sent) && Stops(fr, bad) && |s| >= fr.hdrsize > 0 && Flat(sent) + bad == s + tail
    ensures sent == [] ==> bad != []
    ensures fr.readhdr(s[..fr.hdrsize]) == if sent == [] then None else Some(|sent[0]|)
  {
    assert (s + tail)[..fr.hdrsize] == s[..fr.hdrsize];
    if sent != [] {
      var f := sent[0];
      assert f in sent && Flat(sent) + bad == f + (Flat(sent[1..]) + bad);
      assert (f + (Flat(sent[1..]) + bad))[..fr.hdrsize] == f[..fr.hdrsize];
    } else {
      assert Flat(sent) + bad == bad;
    }
  }

  /** Frames at the start of a stream are those that were sent first. */
  lemma {:induction false} FramesPrefix(fr: Framing, done: seq<seq<Byte>>, tail: seq<Byte>, sent: seq<seq<Byte>>, bad: seq<Byte>)
    requires fr.hdrsize > 0 && AllFrames(fr, sent) && AllFrames(fr, done) && Stops(fr, bad) && Flat(sent) + bad == Flat(done) + tail
    ensures done <= sent && Flat(sent[|done|..]) + bad == tail
  {
    if done != [] {
      var f, rest := done[0], Flat(done[1..]) + tail;
      assert f in done && Flat(sent) + bad == f + rest;
      FirstFrame(fr, f, rest, sent, bad);
      assert sent[0] in sent && Flat(sent) + bad == sent[0] + (Flat(sent[1..]) + bad);
      assert f == (Flat(sent) + bad)[..|f|] == sent[0];
      FramesPrefix(fr, done[1..], tail, sent[1..], bad);
      assert done == [f] + done[1..] && sent == [f] + sent[1..];
      assert sent[|done|..] == sent[1..][|done[1..]|..];
    } else {
      assert sent[0..] == sent;
    }
  }

  /** The stream of a reader without the frames it has received. */
  lemma Ahead(fr: Framing, r: Reader, sent: seq<seq<Byte>>, bad: seq<Byte>, future: seq<Byte>)
    requires Proper(fr) && Sound(fr, r) && AllFrames(fr, sent) && Stops(fr, bad) && Flat(sent) + bad == Total(r) + future
    ensures r.frames <= sent && |Flat(sent)| == |Flat(r.frames)| + |Flat(sent[|r.frames|..])|
    ensures Flat(sent[|r.frames|..]) + bad == (r.partial + r.rest) + future
  {
    Assoc(Flat(r.frames), r.partial + r.rest, future);
    FramesPrefix(fr, r.frames, (r.partial + r.rest) + future, sent, bad);
    FlatAppend(r.frames, sent[|r.frames|..]);
    assert sent == r.frames + sent[|r.frames|..];
  }

  /** A pass fails exactly when a refused header is next and has arrived. */
  lemma {:induction false} PassFails(fr: Framing, r: Reader, sent: seq<seq<Byte>>, bad: seq<Byte>, future: seq<Byte>)
    requires Proper(fr) && Sound(fr, r) && AllFrames(fr, sent) && Stops(fr, bad) && Flat(sent) + bad == Total(r) + future
    ensures Pass(fr, r).None? ==> bad != [] && |Total(r)| >= |Flat(sent)| + fr.hdrsize
    ensures Idle(fr, r) || (r.size != 0 && r.rest == []) ==> |Total(r)| < |Flat(sent)| + fr.hdrsize
  {
    Ahead(fr, r, sent, bad, future);
    var next, s := sent[|r.frames|..], r.partial + r.rest;
    assert AllFrames(fr, next);
    if r.size != 0 {
      FirstFrame(fr, s, future, next, bad);
      assert s[..fr.hdrsize] == r.partial[..fr.hdrsize];
    } else {
      assert s == r.rest;
      if |s| >= fr.hdrsize {
        FirstFrame(fr, s, future, next, bad);
      }
    }
  }

  /** Reading fails exactly when the whole of a refused header has arrived, wherever
      the bytes were cut between reads. */
  lemma {:induction false} RefusedFails(fr: Framing, r: Reader, sent: seq<seq<Byte>>, bad: seq<Byte>, future: seq<Byte>)
    requires Proper(fr) && Sound(fr, r) && AllFrames(fr, sent) && Stops(fr, bad) && Flat(sent) + bad == Total(r) + future
    ensures Process(fr, r).None? <==> bad != [] && |Total(r)| >= |Flat(sent)| + fr.hdrsize
    decreases |r.rest|
  {
    PassFails(fr, r, sent, bad, future);
    if !Idle(fr, r) && Pass(fr, r).Some? {
      PassSound(fr, r);
      var r1 := Pass(fr, r).value;
      if r1.rest != [] {
        RefusedFails(fr, r1, sent, bad, future);
      } else {
        PassFails(fr, r1, sent, bad, future);
      }
    }
  }

  /** Reading bytes that were sent as frames never fails. */
  lemma ProcessNeverFails(fr: Framing, r: Reader, sent: seq<seq<Byte>>, future: seq<Byte>)
    requires Proper(fr) && Sound(fr, r) && AllFrames(fr, sent) && Flat(sent) == Total(r) + future
    ensures Process(fr, r).Some?
  {
    assert Flat(sent) + [] == Flat(sent);
    RefusedFails(fr, r, sent, [], future);
  }

  // ----- a sender and a receiver, step by step -----

  /** `composed` and `got` are histories: the frames put in the queue and the
      frames fetched. */
  datatype State = State(composed: seq<seq<Byte>>, queue: seq<seq<Byte>>, wire: seq<Byte>, reader: Reader, got: seq<seq<Byte>>)

  /** One or more buffers that make a frame are queued; at most `n` bytes are
      written or read (the kernel takes or gives fewer, or none); a received frame
      is fetched. */
  datatype Step = Compose(bufs: seq<seq<Byte>>) | Write(n: nat) | Read(n: nat) | Get

  /** The sender puts nothing in the queue but frames the receiver can read. */
  ghost predicate Sendable(fr: Framing, step: Step) {
    step.Compose? ==> IsFrame(fr, Flat(step.bufs))
  }

  const Start := State([], [], [], Reader([], [], 0, []), [])

  /** None is a read that fails. */
  ghost function Next(fr: Framing, s: State, step: Step): Option<State>
    requires Proper(fr) && Settled(fr, s.reader)
  {
    match step
    case Compose(bufs) =>
      Some(s.(composed := s.composed + [Flat(bufs)], queue := s.queue + bufs))
    case Write(n) =>
      var k := Min(n, |Flat(s.queue)|);
      Some(s.(wire := s.wire + Flat(s.queue)[..k], queue := Drain(s.queue, k)))
    case Read(n) =>
      var k := Min(Min(n, |s.wire|), READ_SIZE - |s.reader.rest|);
      if k == 0 then Some(s)
      else
        var r := Process(fr, s.reader.(rest := s.reader.rest + s.wire[..k]));
        if r.None? then None else Some(s.(wire := s.wire[k..], reader := r.value))
    case Get =>
      if s.reader.frames == [] then Some(s)
      else Some(s.(reader := s.reader.(frames := s.reader.frames[1..]), got := s.got + [s.reader.frames[0]]))
  }

  /** What was composed is got or `pending`, and the pending frames are received,
      half received, unread, in flight or queued, in this order. */
  ghost predicate Inv(fr: Framing, s: State, pending: seq<seq<Byte>>) {
    && s.composed == s.got + pending && AllFrames(fr, pending) && Settled(fr, s.reader)
    && Flat(pending) == Total(s.reader) + (s.wire + Flat(s.queue))
  }

  lemma ComposeKeeps(fr: Framing, s: State, pending: seq<seq<Byte>>, bufs: seq<seq<Byte>>)
    requires Inv(fr, s, pending) && IsFrame(fr, Flat(bufs))
    ensures Inv(fr, s.(composed := s.composed + [Flat(bufs)], queue := s.queue + bufs), pending + [Flat(bufs)])
  {
    FlatAppend(pending, [Flat(bufs)]);
    FlatOne(Flat(bufs));
    FlatAppend(s.queue, bufs);
    Regroup(Total(s.reader), s.wire, Flat(s.queue), Flat(bufs));
  }

  lemma Regroup(a: seq<Byte>, b: seq<Byte>, c: seq<Byte>, d: seq<Byte>)
    ensures a + (b + c) + d == a + (b + (c + d))
  {}

  lemma WriteKeeps(fr: Framing, s: State, pending: seq<seq<Byte>>, k: nat)
    requires Inv(fr, s, pending) && k <= |Flat(s.queue)|
    ensures Inv(fr, s.(wire := s.wire + Flat(s.queue)[..k], queue := Drain(s.queue, k)), pending)
  {
    DrainDrops(s.queue, k);
    var q := Flat(s.queue);
    assert s.wire + q == s.wire + q[..k] + q[k..];
  }

  lemma TakenOver(a: seq<Byte>, b: seq<Byte>, c: seq<Byte>, d: seq<Byte>, e: seq<Byte>, f: seq<Byte>)
    ensures (a + (b + c)) + ((d + e) + f) == (a + (b + (c + d))) + (e + f)
  {
    Assoc(b, c, d);
    Assoc(d, e, f);
    Assoc(a, b + c, d);
    Assoc(a + (b + c), d, e + f);
  }

  lemma ReadKeeps(fr: Framing, s: State, pending: seq<seq<Byte>>, k: nat)
    requires Proper(fr) && Inv(fr, s, pending) && 0 < k <= |s.wire|
    ensures var r := Process(fr, s.reader.(rest := s.reader.rest + s.wire[..k]));
      r.Some? && Inv(fr, s.(wire := s.wire[k..], reader := r.value), pending)
  {
    var o, future := s.reader.(rest := s.reader.rest + s.wire[..k]), s.wire[k..] + Flat(s.queue);
    assert s.wire == s.wire[..k] + s.wire[k..];
    TakenOver(Flat(o.frames), o.partial, s.reader.rest, s.wire[..k], s.wire[k..], Flat(s.queue));
    ProcessNeverFails(fr, o, pending, future);
    ProcessSettles(fr, o);
  }

  lemma GetKeeps(fr: Framing, s: State, pending: seq<seq<Byte>>)
    requires Proper(fr) && Inv(fr, s, pending) && s.reader.frames != []
    ensures pending != []
    ensures Inv(fr, s.(reader := s.reader.(frames := s.reader.frames[1..]), got := s.got + [s.reader.frames[0]]), pending[1..])
  {
    Arrived(fr, s, pending);
    var frames, k := s.reader.frames, |s.reader.frames|;
    assert s.got + pending == s.got + [pending[0]] + pending[1..];
    assert pending[1..] == frames[1..] + pending[k..];
    FlatAppend(frames[1..], pending[k..]);
    Regroup(Flat(frames[1..]), s.reader.partial, s.reader.rest, s.wire + Flat(s.queue));
    Assoc(Flat(frames[1..]), s.reader.partial + s.reader.rest, s.wire + Flat(s.queue));
  }

  /** What has arrived is the frames composed next. */
  lemma Arrived(fr: Framing, s: State, pending: seq<seq<Byte>>)
    requires Proper(fr) && Inv(fr, s, pending)
    ensures s.reader.frames <= pending
    ensures Flat(pending[|s.reader.frames|..]) == s.reader.partial + s.reader.rest + (s.wire + Flat(s.queue))
  {
    var tail := s.reader.partial + s.reader.rest + (s.wire + Flat(s.queue));
    assert Flat(pending) == Flat(s.reader.frames) + tail;
    assert Flat(pending) + [] == Flat(pending);
    FramesPrefix(fr, s.reader.frames, tail, pending, []);
  }

  /** Every step keeps the invariant, and no read fails. */
  lemma StepKeeps(fr: Framing, s: State, pending: seq<seq<Byte>>, step: Step) returns (pending': seq<seq<Byte>>)
    requires Proper(fr) && Inv(fr, s, pending) && Sendable(fr, step)
    ensures Next(fr, s, step).Some? && Inv(fr, Next(fr, s, step).value, pending')
  {
    pending' := pending;
    match step
    case Compose(bufs) =>
      ComposeKeeps(fr, s, pending, bufs);
      pending' := pending + [Flat(bufs)];
    case Write(n) =>
      WriteKeeps(fr, s, pending, Min(n, |Flat(s.queue)|));
    case Read(n) =>
      var k := Min(Min(n, |s.wire|), READ_SIZE - |s.reader.rest|);
      if k > 0 {
        ReadKeeps(fr, s, pending, k);
      }
    case Get =>
      if s.reader.frames != [] {
        GetKeeps(fr, s, pending);
        pending' := pending[1..];
      }
  }

  /** A run: some steps, and the states they lead through. */
  ghost predicate IsRun(fr: Framing, steps: seq<Step>, states: seq<State>)
    requires Proper(fr)
  {
    && |states| == |steps| + 1 && states[0] == Start
    && forall i | 0 <= i < |steps| ::
         && Sendable(fr, steps[i]) && Settled(fr, states[i].reader)
         && Next(fr, states[i], steps[i]) == Some(states[i + 1])
  }

  lemma {:induction false} RunKeeps(fr: Framing, steps: seq<Step>, states: seq<State>, i: nat) returns (pending: seq<seq<Byte>>)
    requires Proper(fr) && IsRun(fr, steps, states) && i < |states|
    ensures Inv(fr, states[i], pending)
  {
    if i == 0 {
      pending := [];
    } else {
      pending := RunKeeps(fr, steps, states, i - 1);
      pending := StepKeeps(fr, states[i - 1], pending, steps[i - 1]);
    }
  }

  /** In every run the frames fetched and then those received are the frames
      composed, in order, each once; less than a header is unread; whatever the
      next step is, it does not fail; and when nothing is queued or in flight,
      nothing is missing. */
  lemma Delivery(fr: Framing, steps: seq<Step>, states: seq<State>, step: Step)
    requires Proper(fr) && IsRun(fr, steps, states) && Sendable(fr, step)
    ensures var s := states[|steps|];
      && s.got + s.reader.frames <= s.composed
      && Settled(fr, s.reader) && |s.reader.rest| < fr.hdrsize
      && Next(fr, s, step).Some?
      && (s.wire == [] && Flat(s.queue) == [] ==> s.got + s.reader.frames == s.composed)
  {
    var s := states[|steps|];
    var pending := RunKeeps(fr, steps, states, |steps|);
    var _ := StepKeeps(fr, s, pending, step);
    Arrived(fr, s, pending);
    if s.wire == [] && Flat(s.queue) == [] {
      NothingMissing(fr, s, pending);
    }
  }

  lemma NothingMissing(fr: Framing, s: State, pending: seq<seq<Byte>>)
    requires Proper(fr) && Inv(fr, s, pending) && s.wire == [] && Flat(s.queue) == []
    ensures pending == s.reader.frames
  {
    Arrived(fr, s, pending);
    var left, tail := pending[|s.reader.frames|..], s.reader.partial + s.reader.rest;
    assert tail == Flat(left);
    if left != [] {
      assert left[0] in pending && Flat(left) == left[0] + Flat(left[1..]);
      assert s.reader.size != 0 ==> tail == s.reader.partial;
      FirstFrame(fr, tail, [], left, []);
    }
  }
}
