/** Request message IDs and cached responses of one IKE SA (ikev2_recv in
    iked/ikev2.c, the response queue in iked/ikev2_msg.c; sections 2.1 and 2.2 of
    RFC 7296). */
module MessageWindow {
  import opened Bytes
  import opened Options

  /** The datagrams of one response, kept for retransmission. */
  datatype Cached = Cached(msgid: Word32, exchange: Byte, frags: seq<seq<Byte>>)

  /** sa_msgid, sa_msgid_set, sa_msgid_current and sa_responses. */
  datatype Window = Window(msgid: Word32, msgidSet: bool, msgidCurrent: Word32, responses: seq<Cached>)

  const Start := Window(0, false, 0, [])

  predicate Matches(c: Cached, msgid: Word32, exchange: Byte) {
    c.msgid == msgid && c.exchange == exchange
  }

  /** The index ikev2_msg_lookup stops at. */
  function Lookup(rs: seq<Cached>, msgid: Word32, exchange: Byte): (i: Option<nat>)
    ensures i.Some? ==> i.value < |rs| && Matches(rs[i.value], msgid, exchange)
    ensures i.Some? ==> forall j | 0 <= j < i.value :: !Matches(rs[j], msgid, exchange)
    ensures i.None? ==> forall j | 0 <= j < |rs| :: !Matches(rs[j], msgid, exchange)
  {
    if rs == [] then None
    else if Matches(rs[0], msgid, exchange) then Some(0)
    else
      var i := Lookup(rs[1..], msgid, exchange);
      if i.None? then None else Some(i.value + 1)
  }

  /** ikev2_msg_enqueue: one more datagram of a response. */
  function Enqueue(rs: seq<Cached>, msgid: Word32, exchange: Byte, data: seq<Byte>): seq<Cached> {
    match Lookup(rs, msgid, exchange)
    case None => rs + [Cached(msgid, exchange, [data])]
    case Some(i) => rs[i := rs[i].(frags := rs[i].frags + [data])]
  }

  /** ikev2_msg_prevail: responses to earlier requests are dropped. */
  function Prevail(rs: seq<Cached>, msgid: Word32): seq<Cached> {
    if rs == [] then []
    else if rs[0].msgid < msgid then Prevail(rs[1..], msgid)
    else [rs[0]] + Prevail(rs[1..], msgid)
  }

  // ----- the events of an SA -----

  /** A request; `first` is false for a fragment other than the first; `replies` are
      the datagrams sent while it is handled, and `valid` is whether it is accepted. */
  datatype Event =
    | Request(msgid: Word32, exchange: Byte, first: bool, valid: bool, replies: seq<seq<Byte>>)
    | Reply(exchange: Byte, data: seq<Byte>)
    | Timeout(index: nat)

  datatype Outcome = Dropped | Resent(frags: seq<seq<Byte>>) | Ignored | Busy | Handled | Done

  function EnqueueAll(rs: seq<Cached>, msgid: Word32, exchange: Byte, replies: seq<seq<Byte>>): seq<Cached>
    decreases replies
  {
    if replies == [] then rs
    else EnqueueAll(Enqueue(rs, msgid, exchange, replies[0]), msgid, exchange, replies[1..])
  }

  function Handle(w: Window, e: Event): Window
    requires e.Request?
  {
    var rs := EnqueueAll(w.responses, e.msgid, e.exchange, e.replies);
    if e.valid then Window(e.msgid, true, e.msgid, Prevail(rs, e.msgid))
    else w.(msgidCurrent := e.msgid, responses := rs)
  }

  function Step(w: Window, e: Event): (Window, Outcome) {
    match e
    case Request(msgid, exchange, first, _, _) =>
      if msgid < w.msgid then (w, Dropped)
      else
        (match Lookup(w.responses, msgid, exchange)
         case Some(i) => (w, if first then Resent(w.responses[i].frags) else Ignored)
         case None =>
           if w.msgidSet && msgid == w.msgid then (w, Busy)
           else (Handle(w, e), Handled))
    case Reply(exchange, data) =>
      (w.(responses := Enqueue(w.responses, w.msgidCurrent, exchange, data)), Done)
    case Timeout(i) =>
      (if i < |w.responses| then w.(responses := w.responses[..i] + w.responses[i + 1..]) else w, Done)
  }

  /** A response that times out is forgotten, and no other. */
  lemma TimeoutForgets(w: Window, i: nat, c: Cached)
    requires Caches(w.responses, w.msgid) && i < |w.responses|
    ensures var (w', _) := Step(w, Timeout(i));
      && Lookup(w'.responses, w.responses[i].msgid, w.responses[i].exchange) == None
      && (c in w'.responses <==> c in w.responses && c != w.responses[i])
      && w'.msgid == w.msgid && w'.msgidSet == w.msgidSet && w'.msgidCurrent == w.msgidCurrent
  {
    var rs := w.responses;
    assert rs == rs[..i] + [rs[i]] + rs[i + 1..];
  }

  predicate Accepts(w: Window, e: Event) {
    e.Request? && e.valid && Step(w, e).1 == Handled
  }

  // ----- what every event keeps -----

  /** Every cached response answers a request not below the window, and no two the
      same. */
  ghost predicate Caches(rs: seq<Cached>, low: Word32) {
    && (forall i | 0 <= i < |rs| :: low <= rs[i].msgid && rs[i].frags != [])
    && (forall i, j | 0 <= i < j < |rs| :: !Matches(rs[j], rs[i].msgid, rs[i].exchange))
  }

  ghost predicate Inv(w: Window) {
    w.msgid <= w.msgidCurrent && Caches(w.responses, w.msgid)
  }

  lemma {:induction false} EnqueueAllCaches(rs: seq<Cached>, msgid: Word32, exchange: Byte, replies: seq<seq<Byte>>, low: Word32)
    requires Caches(rs, low) && low <= msgid
    ensures Caches(EnqueueAll(rs, msgid, exchange, replies), low)
    decreases replies
  {
    if replies != [] {
      EnqueueAllCaches(Enqueue(rs, msgid, exchange, replies[0]), msgid, exchange, replies[1..], low);
    }
  }

  lemma {:induction false} PrevailCaches(rs: seq<Cached>, msgid: Word32, low: Word32)
    requires Caches(rs, low)
    ensures Caches(Prevail(rs, msgid), msgid)
    ensures forall c | c in Prevail(rs, msgid) :: c in rs
    ensures forall c | c in rs && c.msgid >= msgid :: c in Prevail(rs, msgid)
  {
    if rs != [] {
      PrevailCaches(rs[1..], msgid, low);
    }
  }

  lemma {:induction false} HandleKeeps(w: Window, e: Event)
    requires Inv(w) && e.Request? && w.msgid <= e.msgid
    ensures Inv(Handle(w, e))
  {
    EnqueueAllCaches(w.responses, e.msgid, e.exchange, e.replies, w.msgid);
    PrevailCaches(EnqueueAll(w.responses, e.msgid, e.exchange, e.replies), e.msgid, w.msgid);
  }

  lemma {:induction false} StepKeeps(w: Window, e: Event)
    requires Inv(w)
    ensures Inv(Step(w, e).0)
    ensures Accepts(w, e) ==> (w.msgidSet ==> w.msgid < e.msgid) && Step(w, e).0.msgid == e.msgid && Step(w, e).0.msgidSet
    ensures !Accepts(w, e) ==> Step(w, e).0.msgid == w.msgid && Step(w, e).0.msgidSet == w.msgidSet
  {
    if e.Request? && Step(w, e).1 == Handled {
      HandleKeeps(w, e);
    } else if e.Reply? {
      var rs := [e.data];
      EnqueueAllCaches(w.responses, w.msgidCurrent, e.exchange, rs, w.msgid);
      assert EnqueueAll(w.responses, w.msgidCurrent, e.exchange, rs) == Enqueue(w.responses, w.msgidCurrent, e.exchange, e.data);
    }
  }

  // ----- runs -----

  function Run(w: Window, es: seq<Event>): Window
    decreases es
  {
    if es == [] then w else Run(Step(w, es[0]).0, es[1..])
  }

  /** The IDs of the requests accepted as valid, in turn. */
  function Accepted(w: Window, es: seq<Event>): seq<Word32>
    decreases es
  {
    if es == [] then []
    else (if Accepts(w, es[0]) then [es[0].msgid] else []) + Accepted(Step(w, es[0]).0, es[1..])
  }

  ghost predicate Increasing(s: seq<Word32>) {
    forall i, j | 0 <= i < j < |s| :: s[i] < s[j]
  }

  /** In every run the accepted IDs increase, so no request is handled twice; the
      window never passes the current ID; and no response below the window is kept. */
  lemma {:induction false} RunIncreases(w: Window, es: seq<Event>)
    requires Inv(w)
    ensures Inv(Run(w, es)) && Increasing(Accepted(w, es))
    ensures w.msgidSet ==> forall id | id in Accepted(w, es) :: w.msgid < id
    decreases |es|
  {
    if es != [] {
      StepKeeps(w, es[0]);
      var w', rest := Step(w, es[0]).0, Accepted(Step(w, es[0]).0, es[1..]);
      RunIncreases(w', es[1..]);
      assert forall j | 0 <= j < |rest| :: rest[j] in rest;
    }
  }

  lemma EveryRun(es: seq<Event>)
    ensures Increasing(Accepted(Start, es))
    ensures var w := Run(Start, es);
      w.msgid <= w.msgidCurrent && forall c | c in w.responses :: w.msgid <= c.msgid
  {
    RunIncreases(Start, es);
  }

  /** A request that was answered is not handled again: while its response is kept,
      a duplicate changes nothing and sends the same datagrams. */
  lemma DuplicateResends(w: Window, e: Event, c: Cached)
    requires Inv(w) && e.Request? && c in w.responses && Matches(c, e.msgid, e.exchange)
    ensures Step(w, e) == (w, if e.first then Resent(c.frags) else Ignored)
  {
    var i :| 0 <= i < |w.responses| && w.responses[i] == c;
    var j := Lookup(w.responses, e.msgid, e.exchange);
    assert j.Some? && Matches(w.responses[j.value], w.responses[i].msgid, w.responses[i].exchange);
  }

  /** The response is kept until it times out or a later request is accepted; further
      datagrams are only added to it. */
  lemma ResponseKept(w: Window, e: Event, c: Cached)
    requires Inv(w) && c in w.responses
    requires !(e.Timeout? && e.index < |w.responses| && w.responses[e.index] == c)
    requires Accepts(w, e) ==> e.msgid <= c.msgid
    ensures exists c' :: c' in Step(w, e).0.responses && Matches(c', c.msgid, c.exchange) && c.frags <= c'.frags
  {
    match e
    case Request(msgid, exchange, _, _, replies) =>
      if Step(w, e).1 == Handled {
        var c' := EnqueueAllKeeps(w.responses, msgid, exchange, replies, c);
        var rs := EnqueueAll(w.responses, msgid, exchange, replies);
        EnqueueAllCaches(w.responses, msgid, exchange, replies, w.msgid);
        PrevailCaches(rs, msgid, w.msgid);
      }
    case Reply(exchange, data) =>
      var c' := EnqueueAllKeeps(w.responses, w.msgidCurrent, exchange, [data], c);
      assert EnqueueAll(w.responses, w.msgidCurrent, exchange, [data]) == Enqueue(w.responses, w.msgidCurrent, exchange, data);
    case Timeout(i) =>
      assert c in Step(w, e).0.responses;
  }

  lemma {:induction false} EnqueueAllKeeps(rs: seq<Cached>, msgid: Word32, exchange: Byte, replies: seq<seq<Byte>>, c: Cached) returns (c': Cached)
    requires c in rs
    ensures c' in EnqueueAll(rs, msgid, exchange, replies) && Matches(c', c.msgid, c.exchange) && c.frags <= c'.frags
    decreases replies
  {
    c' := c;
    if replies != [] {
      var rs' := Enqueue(rs, msgid, exchange, replies[0]);
      var i :| 0 <= i < |rs| && rs[i] == c;
      c' := EnqueueAllKeeps(rs', msgid, exchange, replies[1..], rs'[i]);
    }
  }

  // ----- every answer is kept -----

  /** A request is handled exactly when it is not below the window, has no response, and
      is not the accepted one that is still worked on; if it is valid, the window moves
      to it. */
  lemma HandledWhen(w: Window, e: Event)
    requires e.Request?
    ensures Step(w, e).1 == Handled <==>
      w.msgid <= e.msgid && !(w.msgidSet && w.msgid == e.msgid) && forall c | c in w.responses :: !Matches(c, e.msgid, e.exchange)
    ensures Step(w, e).1 == Handled ==> Step(w, e).0.msgidCurrent == e.msgid
    ensures Step(w, e).1 == Handled && e.valid ==> Step(w, e).0.msgidSet && Step(w, e).0.msgid == e.msgid
  {
    var i := Lookup(w.responses, e.msgid, e.exchange);
    assert i.Some? ==> w.responses[i.value] in w.responses;
  }

  lemma {:induction false} EnqueueMore(rs: seq<Cached>, c: Cached, replies: seq<seq<Byte>>)
    requires Lookup(rs, c.msgid, c.exchange).None?
    ensures EnqueueAll(rs + [c], c.msgid, c.exchange, replies) == rs + [c.(frags := c.frags + replies)]
    decreases replies
  {
    if replies == [] {
      assert c.frags + replies == c.frags;
    } else {
      var c' := c.(frags := c.frags + [replies[0]]);
      LookupLast(rs, c);
      assert Enqueue(rs + [c], c.msgid, c.exchange, replies[0]) == rs + [c'];
      assert c'.frags + replies[1..] == c.frags + replies;
      EnqueueMore(rs, c', replies[1..]);
    }
  }

  lemma LookupLast(rs: seq<Cached>, c: Cached)
    requires Lookup(rs, c.msgid, c.exchange).None?
    ensures Lookup(rs + [c], c.msgid, c.exchange) == Some(|rs|)
  {
    var i := Lookup(rs + [c], c.msgid, c.exchange);
    assert (rs + [c])[|rs|] == c;
    assert forall j | 0 <= j < |rs| :: (rs + [c])[j] == rs[j];
  }

  lemma EnqueueAllNew(rs: seq<Cached>, msgid: Word32, exchange: Byte, replies: seq<seq<Byte>>)
    requires Lookup(rs, msgid, exchange).None? && replies != []
    ensures EnqueueAll(rs, msgid, exchange, replies) == rs + [Cached(msgid, exchange, replies)]
  {
    assert [replies[0]] + replies[1..] == replies;
    EnqueueMore(rs, Cached(msgid, exchange, [replies[0]]), replies[1..]);
  }

  /** A request that is handled and answered has a response: one entry, with exactly the
      datagrams sent, so that the same request again sends them again and changes
      nothing. */
  lemma Answered(w: Window, e: Event)
    requires Inv(w) && e.Request? && Step(w, e).1 == Handled && e.replies != []
    ensures var w' := Step(w, e).0;
      && Inv(w') && Cached(e.msgid, e.exchange, e.replies) in w'.responses
      && (forall c | c in w'.responses && Matches(c, e.msgid, e.exchange) :: c.frags == e.replies)
      && Step(w', e.(first := true)) == (w', Resent(e.replies))
  {
    var w', c := Step(w, e).0, Cached(e.msgid, e.exchange, e.replies);
    StepKeeps(w, e);
    EnqueueAllNew(w.responses, e.msgid, e.exchange, e.replies);
    var rs := w.responses + [c];
    assert c in rs;
    EnqueueAllCaches(w.responses, e.msgid, e.exchange, e.replies, w.msgid);
    PrevailCaches(rs, e.msgid, w.msgid);
    assert forall d | d in rs && Matches(d, e.msgid, e.exchange) :: d == c;
    DuplicateResends(w', e.(first := true), c);
  }

  /** A datagram sent later is the last one of the response to the current request. */
  lemma ReplyKept(w: Window, exchange: Byte, data: seq<Byte>) returns (c: Cached)
    ensures c in Step(w, Reply(exchange, data)).0.responses && Matches(c, w.msgidCurrent, exchange)
    ensures c.frags != [] && c.frags[|c.frags| - 1] == data
    ensures match Lookup(w.responses, w.msgidCurrent, exchange) case None => c.frags == [data] case Some(i) => c.frags == w.responses[i].frags + [data]
  {
    var i, rs := Lookup(w.responses, w.msgidCurrent, exchange), Step(w, Reply(exchange, data)).0.responses;
    c := rs[if i.None? then |w.responses| else i.value];
  }

  /** No response times out, and no request after `id` is accepted. */
  ghost predicate Quiet(w: Window, es: seq<Event>, id: Word32)
    decreases es
  {
    es != [] ==> !es[0].Timeout? && (Accepts(w, es[0]) ==> es[0].msgid <= id) && Quiet(Step(w, es[0]).0, es[1..], id)
  }

  lemma {:induction false} QuietKeeps(w: Window, es: seq<Event>, c: Cached) returns (c': Cached)
    requires Inv(w) && c in w.responses && Quiet(w, es, c.msgid)
    ensures Inv(Run(w, es)) && c' in Run(w, es).responses && Matches(c', c.msgid, c.exchange) && c.frags <= c'.frags
    decreases es
  {
    c' := c;
    if es != [] {
      StepKeeps(w, es[0]);
      ResponseKept(w, es[0], c);
      var d :| d in Step(w, es[0]).0.responses && Matches(d, c.msgid, c.exchange) && c.frags <= d.frags;
      c' := QuietKeeps(Step(w, es[0]).0, es[1..], d);
    }
  }

  /** Over every run after it: an answered request that comes again is answered again,
      with the same datagrams first, until its response times out or a later request is
      accepted. */
  lemma StaysAnswered(w: Window, e: Event, es: seq<Event>)
    requires Inv(w) && e.Request? && Step(w, e).1 == Handled && e.replies != [] && Quiet(Step(w, e).0, es, e.msgid)
    ensures var (w', out) := Step(Run(Step(w, e).0, es), e.(first := true));
      w' == Run(Step(w, e).0, es) && out.Resent? && e.replies <= out.frags
  {
    Answered(w, e);
    var c := QuietKeeps(Step(w, e).0, es, Cached(e.msgid, e.exchange, e.replies));
    DuplicateResends(Run(Step(w, e).0, es), e.(first := true), c);
  }

  // ----- under which ID a late reply is kept -----

  /** Whether a request was handled without being accepted since the last one that was
      accepted. */
  predicate Stray(w: Window, es: seq<Event>) {
    es != [] &&
    var before, e := Run(w, es[..|es| - 1]), es[|es| - 1];
    !Accepts(before, e) && (Step(before, e).1 == Handled || Stray(w, es[..|es| - 1]))
  }

  lemma {:induction false} RunLast(w: Window, es: seq<Event>)
    requires es != []
    ensures var before, e := es[..|es| - 1], es[|es| - 1];
      && Run(w, es) == Step(Run(w, before), e).0
      && Accepted(w, es) == Accepted(w, before) + if Accepts(Run(w, before), e) then [e.msgid] else []
    decreases es
  {
    if |es| > 1 {
      RunLast(Step(w, es[0]).0, es[1..]);
      assert es[1..][..|es| - 2] == es[..|es| - 1][1..];
    }
  }

  lemma CurrentStep(w: Window, e: Event)
    ensures var (w', out) := Step(w, e);
      if out != Handled then w'.msgid == w.msgid && w'.msgidSet == w.msgidSet && w'.msgidCurrent == w.msgidCurrent && !Accepts(w, e)
      else if Accepts(w, e) then w'.msgid == w'.msgidCurrent == e.msgid && w'.msgidSet
      else w'.msgid == w.msgid && w'.msgidSet == w.msgidSet && (w.msgidSet ==> w'.msgidCurrent != w.msgid)
  {}

  /** The current ID is that of the window unless a request is astray. */
  lemma {:induction false} CurrentIs(es: seq<Event>)
    ensures var w, ids := Run(Start, es), Accepted(Start, es);
      && (w.msgidSet <==> ids != [])
      && (w.msgidSet ==> w.msgid == ids[|ids| - 1] && (w.msgidCurrent == w.msgid <==> !Stray(Start, es)))
  {
    if es != [] {
      var before, e := es[..|es| - 1], es[|es| - 1];
      CurrentIs(before);
      RunLast(Start, es);
      CurrentStep(Run(Start, before), e);
    }
  }

  /** Two IDs do not give the same queue. */
  lemma EnqueueTells(rs: seq<Cached>, a: Word32, b: Word32, exchange: Byte, data: seq<Byte>)
    requires a != b
    ensures Enqueue(rs, a, exchange, data) != Enqueue(rs, b, exchange, data)
  {
    var i, j := Lookup(rs, a, exchange), Lookup(rs, b, exchange);
    if i.Some? && j.Some? {
      assert Enqueue(rs, a, exchange, data)[i.value].frags == rs[i.value].frags + [data];
      assert Enqueue(rs, b, exchange, data)[i.value] == rs[i.value];
    } else if i.None? && j.None? {
      assert Enqueue(rs, a, exchange, data)[|rs|].msgid == a && Enqueue(rs, b, exchange, data)[|rs|].msgid == b;
    }
  }

  /** A reply sent later is kept for the last request that was accepted, if and only if
      no request was handled without being accepted since. */
  lemma LateReply(es: seq<Event>, exchange: Byte, data: seq<Byte>)
    requires Accepted(Start, es) != []
    ensures var w, ids := Run(Start, es), Accepted(Start, es);
      Step(w, Reply(exchange, data)).0.responses == Enqueue(w.responses, ids[|ids| - 1], exchange, data) <==> !Stray(Start, es)
  {
    CurrentIs(es);
    var w := Run(Start, es);
    if w.msgidCurrent != w.msgid {
      EnqueueTells(w.responses, w.msgidCurrent, w.msgid, exchange, data);
    }
  }

  /** Request 5 is accepted and not yet answered, request 9 is handled and not accepted;
      the reply goes under 9. */
  lemma StrayReply(x: Byte, data: seq<Byte>)
    ensures var es := [Request(5, x, true, true, []), Request(9, x, true, false, [])];
      && Accepted(Start, es) == [5] && Stray(Start, es)
      && Step(Run(Start, es), Reply(x, data)).0.responses == [Cached(9, x, [data])]
  {
    var five, nine := Request(5, x, true, true, []), Request(9, x, true, false, []);
    var es := [five, nine];
    assert es[..1] == [five] && es[1..] == [nine] && [five][1..] == [] && [nine][1..] == [];
    var w := Step(Start, five).0;
    assert w == Window(5, true, 5, []);
    assert Step(w, nine) == (Window(5, true, 9, []), Handled);
    assert Run(Start, [five]) == w;
    RunLast(Start, es);
    assert [] + [Cached(9, x, [data])] == [Cached(9, x, [data])];
  }

  // ----- the SA in place -----

  class IkeSa {
    var msgid: Word32
    var msgidSet: bool
    var msgidCurrent: Word32
    var responses: seq<Cached>

    constructor ()
      ensures View() == Start
    {
      msgid, msgidSet, msgidCurrent, responses := 0, false, 0, [];
    }

    ghost function View(): Window
      reads this
    {
      Window(msgid, msgidSet, msgidCurrent, responses)
    }

    /** ikev2_msg_lookup. */
    method MsgLookup(id: Word32, exchange: Byte) returns (r: Option<nat>)
      ensures r == Lookup(responses, id, exchange)
    {
      var i := 0;
      while i < |responses|
        invariant 0 <= i <= |responses|
        invariant forall j | 0 <= j < i :: !Matches(responses[j], id, exchange)
      {
        if responses[i].msgid == id && responses[i].exchange == exchange {
          return Some(i);
        }
        i := i + 1;
      }
      return None;
    }

    /** ikev2_msg_enqueue. */
    method MsgEnqueue(id: Word32, exchange: Byte, data: seq<Byte>)
      modifies this`responses
      ensures responses == Enqueue(old(responses), id, exchange, data)
    {
      var mr := MsgLookup(id, exchange);
      if mr.None? {
        responses := responses + [Cached(id, exchange, [])];
        mr := Some(|responses| - 1);
      }
      var c := responses[mr.value];
      responses := responses[mr.value := c.(frags := c.frags + [data])];
      assert [] + [data] == [data];
      assert |responses| > |old(responses)| ==> responses == old(responses) + [Cached(id, exchange, [data])];
    }

    /** ikev2_msg_prevail. */
    method MsgPrevail(id: Word32)
      modifies this`responses
      ensures responses == Prevail(old(responses), id)
    {
      ghost var was := responses;
      var i := 0;
      while i < |responses|
        invariant 0 <= i <= |responses|
        invariant responses[..i] + Prevail(responses[i..], id) == Prevail(was, id)
        decreases |responses| - i
      {
        assert responses[i..][0] == responses[i] && responses[i..][1..] == responses[i + 1..];
        if responses[i].msgid < id {
          ghost var rest := responses[i + 1..];
          responses := responses[..i] + responses[i + 1..];
          assert responses[i..] == rest;
        } else {
          i := i + 1;
        }
      }
    }

    /** The response to the current request, sent while it is handled or later. */
    method SendResponse(exchange: Byte, data: seq<Byte>)
      modifies this`responses
      ensures View() == Step(old(View()), Reply(exchange, data)).0
    {
      MsgEnqueue(msgidCurrent, exchange, data);
    }

    method SendAll(exchange: Byte, replies: seq<seq<Byte>>)
      modifies this`responses
      ensures responses == EnqueueAll(old(responses), msgidCurrent, exchange, replies)
    {
      var i := 0;
      while i < |replies|
        invariant 0 <= i <= |replies|
        invariant EnqueueAll(responses, msgidCurrent, exchange, replies[i..]) == EnqueueAll(old(responses), msgidCurrent, exchange, replies)
      {
        assert replies[i..][1..] == replies[i + 1..];
        SendResponse(exchange, replies[i]);
        i := i + 1;
      }
    }

    /** ikev2_recv for a request: the part that guards and follows its handling. */
    method Recv(e: Event) returns (out: Outcome)
      requires e.Request?
      modifies this
      ensures (View(), out) == Step(old(View()), e)
    {
      if e.msgid < msgid {
        return Dropped;
      }
      var mr := MsgLookup(e.msgid, e.exchange);
      if mr.Some? {
        if !e.first {
          return Ignored;
        }
        return Resent(responses[mr.value].frags);
      }
      if msgidSet && e.msgid == msgid {
        return Busy;
      }
      msgidCurrent := e.msgid;
      SendAll(e.exchange, e.replies);
      if e.valid {
        msgid := msgidCurrent;
        msgidSet := true;
        MsgPrevail(e.msgid);
      }
      return Handled;
    }
  }
}
