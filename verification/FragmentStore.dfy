/** The array that collects the fragments of one message (struct iked_frag,
    ikev2_pld_ef, ikev2_frags_reassemble and config_free_fragments). */
module FragmentStore {
  import opened Bytes
  import opened SecureMessage
  import opened Fragments
  import opened ImsgBuffer
  import opened Options

  class FragmentStore {
    var arr: array?<Option<seq<Byte>>>
    var count: nat
    var total: nat
    var totalSize: nat
    var next: Byte

    /** The counters are those of the slots. */
    ghost predicate Valid()
      reads this, arr
    {
      if arr == null then count == total == totalSize == 0 && next == 0
      else 0 < total == arr.Length && count == Filled(arr[..]) && totalSize == |Joined(arr[..])|
    }

    ghost function Contents(): Store
      reads this, arr
    {
      Store(if arr == null then [] else arr[..], next)
    }

    constructor ()
      ensures Valid() && Contents() == EMPTY
    {
      arr, count, total, totalSize, next := null, 0, 0, 0, 0;
    }

    /** config_free_fragments. */
    method Free()
      requires Valid()
      modifies this
      ensures Valid() && Contents() == EMPTY
    {
      if arr != null {
        arr, count, total, totalSize, next := null, 0, 0, 0, 0;
      }
    }

    /** ikev2_pld_ef; the plaintext is the result of ikev2_msg_decrypt. */
    method Receive(r: Reception) returns (out: Outcome)
      requires Valid() && r.Reception?
      modifies this, arr
      ensures Valid()
      ensures (Contents(), out) == Accept(old(Contents()), r)
    {
      if r.total > TOTAL_MAX {
        Free();
        return Dropped;
      }
      if r.num == 0 || r.total == 0 || r.num > r.total || r.plain.None? {
        return Dropped;
      }
      if arr == null {
        NoneFilled(r.total);
        arr := new Option<seq<Byte>>[r.total](_ => None);
        assert arr[..] == NoSlots(r.total);
        total := r.total;
      } else {
        if r.total != total {
          Free();
          return Dropped;
        }
        if arr[r.num - 1].Some? {
          return Dropped;
        }
      }
      out := Keep(r);
    }

    /** A new fragment is kept, and the last one hands all up. */
    method Keep(r: Reception) returns (out: Outcome)
      requires Valid() && r.Reception? && arr != null && 1 <= r.num <= r.total == total && r.plain.Some? && arr[r.num - 1].None?
      modifies this, arr
      ensures Valid()
      ensures var slots, first := old(arr[..])[r.num - 1 := r.plain], if r.num == 1 then r.first else old(next);
        (Contents(), out) == if Complete(slots) then (EMPTY, Joining(Joined(slots), first)) else (Store(slots, first), Stored)
    {
      if r.num == 1 {
        next := r.first;
      }
      Fill(r.num - 1, r.plain.value);
      if count == total {
        out := Reassemble();
      } else {
        out := Stored;
      }
    }

    /** ikev2_pld_e, up to the decryption. */
    method ReceiveSk() returns (out: Outcome)
      requires Valid()
      modifies this
      ensures Valid()
      ensures (Contents(), out) == Accept(old(Contents()), Sk)
    {
      if arr != null {
        Free();
        return Dropped;
      }
      return Passed;
    }

    /** A new fragment goes into its slot, and the counters follow; they tell whether
        it was the last. */
    method Fill(i: nat, p: seq<Byte>)
      requires Valid() && arr != null && i < total && arr[i].None?
      modifies this`count, this`totalSize, arr
      ensures Valid() && arr[..] == old(arr[..])[i := Some(p)]
      ensures count == total <==> Complete(arr[..])
    {
      FillSlot(arr[..], i, p);
      arr[i] := Some(p);
      totalSize := totalSize + |p|;
      count := count + 1;
      assert arr[..] == old(arr[..])[i := Some(p)];
      FilledAll(arr[..]);
    }

    /** ikev2_frags_reassemble, up to the parsing of the result. */
    method Reassemble() returns (out: Outcome)
      requires Valid() && arr != null && Complete(arr[..])
      modifies this
      ensures Valid() && Contents() == EMPTY
      ensures out == Joining(Joined(old(arr[..])), old(next))
    {
      if totalSize > MSGBUF_MAX {
        Free();
        return Failed;
      }
      var e := Join();
      out := if e.None? then Failed else HandUp(e.value, next);
      Free();
    }

    /** The loop that empties the slots into one buffer, which they fill exactly.  With
        nothing to empty the buffer has no memory, and the first ibuf_seek gives NULL. */
    method Join() returns (e: Option<seq<Byte>>)
      requires Valid() && arr != null && Complete(arr[..])
      ensures e == if Joined(arr[..]) == [] then None else Some(Joined(arr[..]))
    {
      var buf := new Byte[totalSize](_ => 0);
      ghost var slots := arr[..];
      var offset: nat, i := 0, 0;
      while i < total
        invariant arr[..] == slots && i <= total && (i > 0 ==> buf.Length > 0)
        invariant offset == |Joined(slots[..i])| <= totalSize
        invariant buf[..offset] == Joined(slots[..i])
        modifies buf
      {
        var el := arr[i].value;
        if buf.Length == 0 {
          return None;
        }
        JoinedStep(slots, i);
        CopyTo(buf, offset, el);
        assert buf[..offset + |el|] == buf[..offset] + el;
        offset, i := offset + |el|, i + 1;
      }
      assert slots[..total] == slots;
      assert buf[..] == buf[..offset];
      e := Some(buf[..]);
    }
  }

  lemma JoinedStep(slots: seq<Option<seq<Byte>>>, i: nat)
    requires i < |slots| && slots[i].Some?
    ensures Joined(slots[..i + 1]) == Joined(slots[..i]) + slots[i].value
    ensures |Joined(slots[..i + 1])| <= |Joined(slots)|
  {
    JoinedSplit(slots, i + 1);
    JoinedSplit(slots[..i + 1], i);
    assert slots[..i + 1][..i] == slots[..i] && slots[..i + 1][i..] == [slots[i]];
    assert [slots[i]][1..] == [];
  }
}
