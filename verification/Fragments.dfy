/** Fragmentation and reassembly (ikev2_send_encrypted_fragments in iked/ikev2_msg.c,
    ikev2_pld_ef and ikev2_frags_reassemble in iked/ikev2_pld.c; sections 2.5 and 2.6
    of RFC 7383), as values. */
module Fragments {
  import opened Arith
  import opened Bytes
  import opened SecureMessage
  import opened Options

  /** IKED_FRAG_TOTAL_MAX. */
  const TOTAL_MAX: nat := 111

  // ----- the sender: how a payload is cut -----

  /** Pieces of `m` bytes, and a last one that is shorter and may be empty. */
  function Chunks(s: seq<Byte>, m: nat): (c: seq<seq<Byte>>)
    requires m > 0
    ensures c != []
    decreases |s|
  {
    if |s| < m then [s] else [s[..m]] + Chunks(s[m..], m)
  }

  lemma {:induction false} ChunksJoin(s: seq<Byte>, m: nat)
    requires m > 0
    ensures Flat(Chunks(s, m)) == s
    decreases |s|
  {
    if |s| < m {
      FlatOne(s);
    } else {
      ChunksJoin(s[m..], m);
      assert Chunks(s, m)[1..] == Chunks(s[m..], m);
      assert s[..m] + s[m..] == s;
    }
  }

  /** The number of fragments that the sender announces is the number of pieces. */
  lemma {:induction false} ChunksCount(s: seq<Byte>, m: nat)
    requires m > 0
    ensures |Chunks(s, m)| == |s| / m + 1
    decreases |s|
  {
    var q, r := |s| / m, |s| % m;
    if |s| < m {
      DivMod(m, 0, |s|);
    } else {
      ChunksCount(s[m..], m);
      assert |s| == m * q + r;
      assert |s| - m == m * (q - 1) + r;
      DivMod(m, q - 1, r);
    }
  }

  // ----- the receiver: ikev2_pld_ef -----

  /** What is parsed: a fragment, with its plaintext if it decrypts, or an SK payload, which
      is a message that was not fragmented, from the peer or an own one that is sent. */
  datatype Reception = Reception(first: Byte, num: Word16, total: Word16, plain: Option<seq<Byte>>) | Sk

  /** sa_fragments: the slots of frag_arr, none if there is no array, and
      frag_nextpayload. */
  datatype Store = Store(slots: seq<Option<seq<Byte>>>, next: Byte)

  /** `Passed` is an SK payload that is decrypted and parsed. */
  datatype Outcome = Dropped | Stored | HandUp(data: seq<Byte>, first: Byte) | Failed | Passed

  const EMPTY: Store := Store([], 0)

  predicate Complete(slots: seq<Option<seq<Byte>>>) {
    forall i :: 0 <= i < |slots| ==> slots[i].Some?
  }

  /** frag_count and frag_total_size, as they ought to be. */
  function Filled(slots: seq<Option<seq<Byte>>>): nat {
    if slots == [] then 0 else (if slots[0].Some? then 1 else 0) + Filled(slots[1..])
  }

  /** The plaintexts that have arrived, in the order of their numbers. */
  function Joined(slots: seq<Option<seq<Byte>>>): seq<Byte> {
    if slots == [] then [] else (if slots[0].Some? then slots[0].value else []) + Joined(slots[1..])
  }

  function NoSlots(n: nat): seq<Option<seq<Byte>>> { seq(n, _ => None) }

  /** What ikev2_frags_reassemble makes of all plaintexts joined: the address of no bytes
      in a buffer of no size is NULL, which it takes for a failure. */
  function Joining(data: seq<Byte>, next: Byte): Outcome {
    if 0 < |data| <= MSGBUF_MAX then HandUp(data, next) else Failed
  }

  /** ikev2_pld_ef after decryption, with ikev2_frags_reassemble; and the test at the
      start of ikev2_pld_e. */
  function Accept(st: Store, r: Reception): (Store, Outcome) {
    if r.Sk? then if st.slots != [] then (EMPTY, Dropped) else (st, Passed)
    else if r.total > TOTAL_MAX then (EMPTY, Dropped)
    else if r.num == 0 || r.total == 0 || r.num > r.total || r.plain.None? then (st, Dropped)
    else if st.slots != [] && r.total != |st.slots| then (EMPTY, Dropped)
    else if st.slots != [] && st.slots[r.num - 1].Some? then (st, Dropped)
    else
      var slots := (if st.slots == [] then NoSlots(r.total) else st.slots)[r.num - 1 := r.plain];
      var next := if r.num == 1 then r.first else st.next;
      if !Complete(slots) then (Store(slots, next), Stored)
      else (EMPTY, Joining(Joined(slots), next))
  }

  // ----- how filling a slot changes the count and the size -----

  lemma {:induction false} FillSlot(slots: seq<Option<seq<Byte>>>, i: nat, p: seq<Byte>)
    requires i < |slots| && slots[i].None?
    ensures Filled(slots[i := Some(p)]) == Filled(slots) + 1
    ensures |Joined(slots[i := Some(p)])| == |Joined(slots)| + |p|
  {
    var after := slots[i := Some(p)];
    if i == 0 {
      assert after[1..] == slots[1..];
    } else {
      assert after[1..] == slots[1..][i - 1 := Some(p)];
      FillSlot(slots[1..], i - 1, p);
    }
  }

  /** The count tells when all have arrived. */
  lemma {:induction false} FilledAll(slots: seq<Option<seq<Byte>>>)
    ensures Filled(slots) <= |slots|
    ensures Filled(slots) == |slots| <==> Complete(slots)
  {
    if slots != [] {
      FilledAll(slots[1..]);
      assert forall i :: 0 < i < |slots| ==> slots[i] == slots[1..][i - 1];
      if Complete(slots) {
        assert Complete(slots[1..]);
      }
    }
  }

  lemma {:induction false} NoneFilled(n: nat)
    ensures Filled(NoSlots(n)) == 0 && Joined(NoSlots(n)) == []
  {
    if n > 0 {
      assert NoSlots(n)[1..] == NoSlots(n - 1);
      NoneFilled(n - 1);
    }
  }

  lemma {:induction false} JoinedAll(slots: seq<Option<seq<Byte>>>, chunks: seq<seq<Byte>>)
    requires |slots| == |chunks| && forall i :: 0 <= i < |slots| ==> slots[i] == Some(chunks[i])
    ensures Joined(slots) == Flat(chunks)
  {
    if slots != [] {
      JoinedAll(slots[1..], chunks[1..]);
    }
  }

  lemma {:induction false} JoinedSplit(slots: seq<Option<seq<Byte>>>, i: nat)
    requires i <= |slots|
    ensures Joined(slots) == Joined(slots[..i]) + Joined(slots[i..])
  {
    if i > 0 {
      JoinedSplit(slots[1..], i - 1);
      assert slots[..i][1..] == slots[1..][..i - 1] && slots[i..] == slots[1..][i - 1..];
    }
  }

  // ----- whole runs -----

  /** What may arrive while the fragments of one message are delivered: one of them, in
      any order and any number of times, a fragment that does not decrypt, or an SK
      payload. */
  datatype Delivery = Own(i: nat) | Other(r: Reception)

  predicate Deliverable(n: nat, d: Delivery) {
    match d
    case Own(i) => i < n
    case Other(r) => r.Sk? || (r.plain.None? && r.total <= TOTAL_MAX)
  }

  predicate AllDeliverable(n: nat, ds: seq<Delivery>) {
    forall d :: d in ds ==> Deliverable(n, d)
  }

  /** Fragment `i` of a message whose first payload has type `first`. */
  function Received(chunks: seq<seq<Byte>>, first: Byte, d: Delivery): Reception
    requires |chunks| < 0x1_0000 && Deliverable(|chunks|, d)
  {
    match d
    case Own(i) => Reception(if i == 0 then first else 0, i + 1, |chunks|, Some(chunks[i]))
    case Other(r) => r
  }

  function All(n: nat): (s: set<nat>)
    ensures forall i: nat :: i in s <==> i < n
  {
    if n == 0 then {} else All(n - 1) + {n - 1}
  }

  /** The numbers seen since the message was last complete, or an SK payload came. */
  function Seen(n: nat, ds: seq<Delivery>): set<nat> {
    if ds == [] then {}
    else
      var before, d := Seen(n, ds[..|ds| - 1]), ds[|ds| - 1];
      if d.Other? then if d.r.Sk? then {} else before
      else if before + {d.i} == All(n) then {} else before + {d.i}
  }

  ghost predicate Completes(n: nat, ds: seq<Delivery>, d: Delivery) {
    d.Own? && Seen(n, ds) + {d.i} == All(n)
  }

  /** The store that holds the fragments `seen` of a message. */
  ghost function Holding(chunks: seq<seq<Byte>>, first: Byte, seen: set<nat>): Store {
    if seen == {} then EMPTY
    else Store(seq(|chunks|, i requires 0 <= i < |chunks| => if i in seen then Some(chunks[i]) else None),
               if 0 in seen then first else 0)
  }

  ghost function Result(chunks: seq<seq<Byte>>, first: Byte): Outcome {
    Joining(Flat(chunks), first)
  }

  /** One fragment of the message, whatever has been seen of it. */
  lemma AcceptOwn(chunks: seq<seq<Byte>>, first: Byte, seen: set<nat>, i: nat)
    requires i < |chunks| <= TOTAL_MAX && seen < All(|chunks|)
    ensures var (st, out) := Accept(Holding(chunks, first, seen), Received(chunks, first, Own(i)));
      if seen + {i} == All(|chunks|) then st == EMPTY && out == Result(chunks, first)
      else st == Holding(chunks, first, seen + {i}) && out == if i in seen then Dropped else Stored
  {
    var st, r := Holding(chunks, first, seen), Received(chunks, first, Own(i));
    if i in seen {
      assert seen + {i} == seen;
    } else {
      var all := Holding(chunks, first, seen + {i});
      NextSlots(chunks, first, seen, i);
      AcceptNew(st, r, all.slots, all.next);
      if seen + {i} == All(|chunks|) {
        AllSlots(chunks, first);
      } else {
        MissingSlot(chunks, first, seen + {i});
      }
    }
  }

  /** A fragment for an empty slot. */
  lemma AcceptNew(st: Store, r: Reception, slots: seq<Option<seq<Byte>>>, next: Byte)
    requires r.Reception? && 1 <= r.num <= r.total <= TOTAL_MAX && r.plain.Some? && next == (if r.num == 1 then r.first else st.next)
    requires st.slots != [] ==> |st.slots| == r.total && st.slots[r.num - 1].None?
    requires slots == (if st.slots == [] then NoSlots(r.total) else st.slots)[r.num - 1 := r.plain]
    ensures Accept(st, r) ==
      if !Complete(slots) then (Store(slots, next), Stored)
      else (EMPTY, Joining(Joined(slots), next))
  {}

  lemma NextSlots(chunks: seq<seq<Byte>>, first: Byte, seen: set<nat>, i: nat)
    requires i < |chunks|
    ensures var st := Holding(chunks, first, seen);
      (if st.slots == [] then NoSlots(|chunks|) else st.slots)[i := Some(chunks[i])] == Holding(chunks, first, seen + {i}).slots
  {}

  lemma AllSlots(chunks: seq<seq<Byte>>, first: Byte)
    requires chunks != []
    ensures var slots := Holding(chunks, first, All(|chunks|)).slots; Complete(slots) && Joined(slots) == Flat(chunks)
  {
    assert 0 in All(|chunks|);
    JoinedAll(Holding(chunks, first, All(|chunks|)).slots, chunks);
  }

  lemma MissingSlot(chunks: seq<seq<Byte>>, first: Byte, seen: set<nat>)
    requires {} < seen < All(|chunks|)
    ensures !Complete(Holding(chunks, first, seen).slots)
  {
    var j :| j in All(|chunks|) && j !in seen;
    assert Holding(chunks, first, seen).slots[j].None?;
  }

  /** The receiver over a run, from an empty store. */
  ghost function RunStore(rs: seq<Reception>): Store {
    if rs == [] then EMPTY else Accept(RunStore(rs[..|rs| - 1]), rs[|rs| - 1]).0
  }

  ghost function Receptions(chunks: seq<seq<Byte>>, first: Byte, ds: seq<Delivery>): seq<Reception>
    requires |chunks| < 0x1_0000 && AllDeliverable(|chunks|, ds)
  {
    seq(|ds|, j requires 0 <= j < |ds| => assert ds[j] in ds; Received(chunks, first, ds[j]))
  }

  lemma {:induction false} SeenPart(n: nat, ds: seq<Delivery>)
    requires n > 0 && AllDeliverable(n, ds)
    ensures Seen(n, ds) < All(n)
  {
    assert 0 in All(n);
    if ds != [] {
      var d := ds[|ds| - 1];
      assert d in ds;
      SeenPart(n, ds[..|ds| - 1]);
    }
  }

  /** After any deliveries the store holds exactly the fragments seen since the message
      was last complete. */
  lemma {:induction false} RunHolds(chunks: seq<seq<Byte>>, first: Byte, ds: seq<Delivery>)
    requires 0 < |chunks| <= TOTAL_MAX && AllDeliverable(|chunks|, ds)
    ensures RunStore(Receptions(chunks, first, ds)) == Holding(chunks, first, Seen(|chunks|, ds))
  {
    if ds != [] {
      var before, d := ds[..|ds| - 1], ds[|ds| - 1];
      assert d in ds;
      var rs := Receptions(chunks, first, ds);
      assert rs[..|ds| - 1] == Receptions(chunks, first, before);
      RunHolds(chunks, first, before);
      SeenPart(|chunks|, before);
      if d.Own? {
        AcceptOwn(chunks, first, Seen(|chunks|, before), d.i);
      }
    }
  }

  /** The outcome of a delivery after others. */
  ghost function Delivered(chunks: seq<seq<Byte>>, first: Byte, ds: seq<Delivery>, d: Delivery): Outcome
    requires |chunks| < 0x1_0000 && AllDeliverable(|chunks|, ds) && Deliverable(|chunks|, d)
  {
    Accept(RunStore(Receptions(chunks, first, ds)), Received(chunks, first, d)).1
  }

  /** A delivery completes the message, its bytes and its first type, exactly when it is
      the last fragment missing; any other hands up nothing.  An SK payload passes exactly
      when no fragment is waiting. */
  lemma HandsUp(chunks: seq<seq<Byte>>, first: Byte, ds: seq<Delivery>, d: Delivery)
    requires 0 < |chunks| <= TOTAL_MAX && AllDeliverable(|chunks|, ds) && Deliverable(|chunks|, d)
    ensures var out := Delivered(chunks, first, ds, d);
      && (if Completes(|chunks|, ds, d) then out == Result(chunks, first) else out in {Dropped, Stored, Passed})
      && (out == Passed <==> d == Other(Sk) && Seen(|chunks|, ds) == {})
  {
    RunHolds(chunks, first, ds);
    SeenPart(|chunks|, ds);
    if d.Own? {
      AcceptOwn(chunks, first, Seen(|chunks|, ds), d.i);
    }
  }

  lemma {:induction false} RunFrom(rs: seq<Reception>, ts: seq<Reception>)
    requires RunStore(rs) == EMPTY
    ensures RunStore(rs + ts) == RunStore(ts)
  {
    if ts == [] {
      assert rs + ts == rs;
    } else {
      assert (rs + ts)[..|rs + ts| - 1] == rs + ts[..|ts| - 1];
      RunFrom(rs, ts[..|ts| - 1]);
    }
  }

  /** A fragment of another message while some of this one wait.  It empties the store if
      and only if it announces more than the limit, or decrypts and announces another
      total; whatever comes then is as if nothing had come before.  Else all stay. */
  lemma AnotherTotal(chunks: seq<seq<Byte>>, first: Byte, ds: seq<Delivery>, r: Reception, ts: seq<Reception>)
    requires 0 < |chunks| <= TOTAL_MAX && AllDeliverable(|chunks|, ds) && Seen(|chunks|, ds) != {}
    requires r.Reception? && (r.total as int != |chunks| || r.plain.None?)
    ensures var rs := Receptions(chunks, first, ds);
      && Accept(RunStore(rs), r).1 == Dropped
      && if r.total > TOTAL_MAX || (r.plain.Some? && 1 <= r.num <= r.total) then RunStore(rs + [r] + ts) == RunStore(ts)
         else RunStore(rs + [r]) == RunStore(rs) == Holding(chunks, first, Seen(|chunks|, ds)) != EMPTY
  {
    RunHolds(chunks, first, ds);
    var rs := Receptions(chunks, first, ds);
    assert (rs + [r])[..|rs|] == rs;
    if r.total > TOTAL_MAX || (r.plain.Some? && 1 <= r.num <= r.total) {
      RunFrom(rs + [r], ts);
    }
  }

  function Numbers(ds: seq<Delivery>): set<nat> {
    set d | d in ds && d.Own? :: d.i
  }

  predicate NoSk(ds: seq<Delivery>) { Other(Sk) !in ds }

  /** The deliveries since the last SK payload. */
  function SinceSk(ds: seq<Delivery>): seq<Delivery> {
    if ds == [] || ds[|ds| - 1] == Other(Sk) then [] else SinceSk(ds[..|ds| - 1]) + [ds[|ds| - 1]]
  }

  lemma {:induction false} SeenNumbers(n: nat, ds: seq<Delivery>)
    requires AllDeliverable(n, ds) && n > 0 && Numbers(SinceSk(ds)) != All(n)
    ensures Seen(n, ds) == Numbers(SinceSk(ds))
  {
    if ds != [] && ds[|ds| - 1] != Other(Sk) {
      var before, d := ds[..|ds| - 1], ds[|ds| - 1];
      SinceKeeps(n, ds);
      NumbersGrow(n, SinceSk(before), d);
      SeenNumbers(n, before);
    }
  }

  lemma {:induction false} SinceKeeps(n: nat, ds: seq<Delivery>)
    requires AllDeliverable(n, ds)
    ensures AllDeliverable(n, SinceSk(ds)) && NoSk(SinceSk(ds))
  {
    if ds != [] && ds[|ds| - 1] != Other(Sk) {
      assert ds[|ds| - 1] in ds;
      SinceKeeps(n, ds[..|ds| - 1]);
    }
  }

  lemma NumbersGrow(n: nat, before: seq<Delivery>, d: Delivery)
    requires AllDeliverable(n, before + [d])
    ensures AllDeliverable(n, before)
    ensures Numbers(before + [d]) == if d.Own? then Numbers(before) + {d.i} else Numbers(before)
    ensures Numbers(before) <= Numbers(before + [d]) <= All(n)
  {
    var ds := before + [d];
    assert forall x :: x in before ==> x in ds;
    assert d in ds;
  }

  /** What the receiver can take: it is not empty, fits a buffer and is not cut into too
      many fragments. */
  predicate Takeable(s: seq<Byte>, m: nat)
    requires m > 0
  {
    0 < |s| <= MSGBUF_MAX && |s| / m + 1 <= TOTAL_MAX
  }

  lemma UpWhen(s: seq<Byte>, m: nat, first: Byte, ds: seq<Delivery>, d: Delivery)
    requires m > 0 && |Chunks(s, m)| < 0x1_0000 && AllDeliverable(|Chunks(s, m)|, ds) && Deliverable(|Chunks(s, m)|, d)
    ensures var out := Delivered(Chunks(s, m), first, ds, d);
      (out.HandUp? <==> Takeable(s, m) && Completes(|Chunks(s, m)|, ds, d)) && (out.HandUp? ==> out == HandUp(s, first))
  {
    var chunks := Chunks(s, m);
    ChunksCount(s, m);
    ChunksJoin(s, m);
    if |chunks| > TOTAL_MAX {
      TooMany(chunks, first, ds, d);
    } else {
      HandsUp(chunks, first, ds, d);
    }
  }

  /** Delivered in any order, with any duplicates, while not all have come since the last
      SK payload: a delivery hands up the message if and only if it completes it and the
      receiver can take it; nothing else is handed up. */
  lemma ExactlyOnce(s: seq<Byte>, m: nat, first: Byte, ds: seq<Delivery>, d: Delivery)
    requires m > 0 && |Chunks(s, m)| < 0x1_0000
    requires AllDeliverable(|Chunks(s, m)|, ds) && Deliverable(|Chunks(s, m)|, d) && Numbers(SinceSk(ds)) != All(|Chunks(s, m)|)
    ensures var out := Delivered(Chunks(s, m), first, ds, d);
      && (out.HandUp? <==> d.Own? && Numbers(SinceSk(ds) + [d]) == All(|Chunks(s, m)|) && Takeable(s, m))
      && (out.HandUp? ==> out == HandUp(s, first))
  {
    var n := |Chunks(s, m)|;
    SinceKeeps(n, ds);
    NumbersNext(n, SinceSk(ds), d);
    SeenNumbers(n, ds);
    UpWhen(s, m, first, ds, d);
  }

  lemma NumbersNext(n: nat, before: seq<Delivery>, d: Delivery)
    requires AllDeliverable(n, before) && Deliverable(n, d)
    ensures d.Own? ==> Numbers(before + [d]) == Numbers(before) + {d.i}
  {
    assert AllDeliverable(n, before + [d]);
    NumbersGrow(n, before, d);
  }

  /** The empty message is one empty fragment, and its reassembly fails. */
  lemma EmptyFails(m: nat, first: Byte)
    requires m > 0
    ensures Chunks([], m) == [[]] && Accept(EMPTY, Reception(first, 1, 1, Some([]))) == (EMPTY, Failed)
  {
    var slots := NoSlots(1)[0 := Some([])];
    assert slots == [Some([])] && slots[1..] == [];
    assert Complete(slots) && Joined(slots) == [];
  }

  // ----- when a message gets through -----

  /** All fragments come, without an SK payload between them. */
  ghost predicate Uninterrupted(n: nat, ds: seq<Delivery>, i: nat, j: nat) {
    i <= j <= |ds| && NoSk(ds[i..j]) && Numbers(ds[i..j]) == All(n)
  }

  /** What has been seen came in one stretch. */
  lemma {:induction false} SeenStretch(n: nat, ds: seq<Delivery>) returns (i: nat)
    ensures i <= |ds| && NoSk(ds[i..]) && Seen(n, ds) == Numbers(ds[i..])
  {
    i := |ds|;
    if ds != [] {
      var before, d := ds[..|ds| - 1], ds[|ds| - 1];
      if d != Other(Sk) && !(d.Own? && Seen(n, before) + {d.i} == All(n)) {
        i := SeenStretch(n, before);
        assert ds[i..] == before[i..] + [d];
        StretchNumbers(before[i..], d);
      }
    }
  }

  lemma StretchNumbers(a: seq<Delivery>, d: Delivery)
    ensures Numbers(a + [d]) == if d.Own? then Numbers(a) + {d.i} else Numbers(a)
  {
    assert forall x :: x in a ==> x in a + [d];
    assert d in a + [d];
  }

  /** Within a stretch without an SK payload, all its numbers are seen, unless it
      completes the message. */
  lemma {:induction false} StretchSeen(n: nat, ds: seq<Delivery>, i: nat, j: nat)
    requires i <= j <= |ds| && NoSk(ds[i..j]) && AllDeliverable(n, ds)
    ensures Numbers(ds[i..j]) <= Seen(n, ds[..j]) || exists k | i <= k < j :: Completes(n, ds[..k], ds[k])
  {
    if i < j {
      var d := ds[j - 1];
      assert ds[i..j] == ds[i..j - 1] + [d] && ds[..j][..j - 1] == ds[..j - 1];
      assert d in ds[i..j];
      StretchSeen(n, ds, i, j - 1);
      StretchNumbers(ds[i..j - 1], d);
      if Numbers(ds[i..j - 1]) <= Seen(n, ds[..j - 1]) {
        assert Completes(n, ds[..j - 1], d) || Numbers(ds[i..j]) <= Seen(n, ds[..j]);
      }
    }
  }

  /** A message is complete at some delivery exactly when all its fragments come in one
      stretch without an SK payload. */
  lemma CompletesWhen(n: nat, ds: seq<Delivery>)
    requires n > 0 && AllDeliverable(n, ds)
    ensures (exists k | 0 <= k < |ds| :: Completes(n, ds[..k], ds[k])) <==> (exists i: nat, j: nat :: Uninterrupted(n, ds, i, j))
  {
    if exists k | 0 <= k < |ds| :: Completes(n, ds[..k], ds[k]) {
      var k :| 0 <= k < |ds| && Completes(n, ds[..k], ds[k]);
      var i := StretchBefore(n, ds, k);
    }
    if i: nat, j: nat :| Uninterrupted(n, ds, i, j) {
      StretchCompletes(n, ds, i, j);
    }
  }

  lemma StretchBefore(n: nat, ds: seq<Delivery>, k: nat) returns (i: nat)
    requires k < |ds| && Completes(n, ds[..k], ds[k])
    ensures Uninterrupted(n, ds, i, k + 1)
  {
    i := SeenStretch(n, ds[..k]);
    var before := ds[..k][i..];
    assert ds[i..k + 1] == before + [ds[k]];
    StretchNumbers(before, ds[k]);
  }

  lemma StretchCompletes(n: nat, ds: seq<Delivery>, i: nat, j: nat)
    requires n > 0 && AllDeliverable(n, ds) && Uninterrupted(n, ds, i, j)
    ensures exists k | 0 <= k < |ds| :: Completes(n, ds[..k], ds[k])
  {
    StretchSeen(n, ds, i, j);
    SeenPart(n, ds[..j]);
  }

  /** Over every run: the message is handed up at some delivery if and only if the
      receiver can take it and all its fragments come in one stretch without an SK payload;
      and nothing else is ever handed up. */
  lemma GetsThrough(s: seq<Byte>, m: nat, first: Byte, ds: seq<Delivery>)
    requires m > 0 && |Chunks(s, m)| < 0x1_0000 && AllDeliverable(|Chunks(s, m)|, ds)
    ensures (exists k | 0 <= k < |ds| :: Delivered(Chunks(s, m), first, ds[..k], ds[k]).HandUp?)
      <==> Takeable(s, m) && exists i: nat, j: nat :: Uninterrupted(|Chunks(s, m)|, ds, i, j)
    ensures forall k | 0 <= k < |ds| :: var out := Delivered(Chunks(s, m), first, ds[..k], ds[k]); out.HandUp? ==> out == HandUp(s, first)
  {
    var chunks := Chunks(s, m);
    CompletesWhen(|chunks|, ds);
    forall k | 0 <= k < |ds|
      ensures Delivered(chunks, first, ds[..k], ds[k]).HandUp? <==> Takeable(s, m) && Completes(|chunks|, ds[..k], ds[k])
      ensures var out := Delivered(chunks, first, ds[..k], ds[k]); out.HandUp? ==> out == HandUp(s, first)
    {
      assert ds[k] in ds;
      UpWhen(s, m, first, ds[..k], ds[k]);
    }
  }

  /** A message of more fragments than the receiver takes is never handed up, nor is
      anything of it kept. */
  lemma {:induction false} TooMany(chunks: seq<seq<Byte>>, first: Byte, ds: seq<Delivery>, d: Delivery)
    requires TOTAL_MAX < |chunks| < 0x1_0000 && AllDeliverable(|chunks|, ds) && Deliverable(|chunks|, d)
    ensures Accept(RunStore(Receptions(chunks, first, ds)), Received(chunks, first, d)) == (EMPTY, if d == Other(Sk) then Passed else Dropped)
  {
    if ds != [] {
      var before, e := ds[..|ds| - 1], ds[|ds| - 1];
      assert e in ds;
      assert Receptions(chunks, first, ds)[..|ds| - 1] == Receptions(chunks, first, before);
      TooMany(chunks, first, before, e);
    }
  }

  /** The receptions that count: the fragments that decrypt, since the last SK payload or
      the last fragment that announced too many, whether it decrypted or not. */
  function Effective(rs: seq<Reception>): seq<Reception> {
    if rs == [] then []
    else
      var before, r := Effective(rs[..|rs| - 1]), rs[|rs| - 1];
      if r.Sk? || r.total > TOTAL_MAX then [] else if r.plain.None? then before else before + [r]
  }

  /** Whatever arrives in whatever order, the store is that of the receptions that count:
      one that does not decrypt changes nothing, or drops all that is stored. */
  lemma {:induction false} EffectiveOnly(rs: seq<Reception>)
    ensures RunStore(rs) == RunStore(Effective(rs))
  {
    if rs != [] {
      var before := rs[..|rs| - 1];
      EffectiveOnly(before);
      NoSlotsEmpty(before);
      assert forall r :: (Effective(before) + [r])[..|Effective(before)|] == Effective(before);
    }
  }

  /** A store without slots is the empty one. */
  lemma {:induction false} NoSlotsEmpty(rs: seq<Reception>)
    ensures RunStore(rs).slots == [] ==> RunStore(rs) == EMPTY
  {
    if rs != [] {
      NoSlotsEmpty(rs[..|rs| - 1]);
    }
  }
}
