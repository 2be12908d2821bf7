/** ibuf and msgbuf of compat/imsg-buffer.c: a growable buffer with read and write
    cursors, and the queues of buffers written to and read from a stream. */
module ImsgBuffer {
  import opened Bytes
  import opened MsgStream
  import opened Options

  class Ibuf {
    var buf: array<Byte>
    var max: nat
    var wpos: nat
    var rpos: nat

    ghost predicate Valid()
      reads this
    {
      rpos <= wpos <= buf.Length <= max <= SIZE_MAX
    }

    /** The bytes between the cursors. */
    ghost function Contents(): seq<Byte>
      requires Valid()
      reads this, buf
    {
      buf[rpos..wpos]
    }

    /** ibuf_open and ibuf_dynamic: `max` is not below `len`. */
    constructor (len: nat, max: nat)
      requires len <= max <= SIZE_MAX
      ensures Valid() && fresh(buf) && Contents() == [] && rpos == 0 && this.max == max && buf.Length == len
    {
      buf := new Byte[len](_ => 0);
      this.max := max;
      wpos, rpos := 0, 0;
    }

    /** ibuf_size. */
    function Size(): nat
      requires Valid()
      reads this
    {
      wpos - rpos
    }

    /** ibuf_left. */
    function Left(): nat
      requires Valid()
      reads this
    {
      max - wpos
    }

    /** ibuf_reserve: room for `len` more bytes, at the old write cursor.  A buffer of no
        size has no memory, so that the address of no bytes in it is NULL. */
    method Reserve(len: nat) returns (b: Option<nat>)
      requires Valid()
      modifies this
      ensures Valid() && max == old(max) && rpos == old(rpos) && buf.Length >= old(buf.Length)
      ensures b == if old(wpos) + len <= max && (len > 0 || old(buf.Length) > 0) then Some(old(wpos)) else None
      ensures b.None? ==> wpos == old(wpos) && buf == old(buf)
      ensures b.Some? ==> wpos == old(wpos) + len && buf[..old(wpos)] == old(buf[..wpos])
      ensures buf == old(buf) || (fresh(buf) && b.Some? && old(wpos) + len > old(buf.Length))
    {
      if len > SIZE_MAX - wpos {
        return None;
      }
      if wpos + len > buf.Length {
        if wpos + len > max {
          return None;
        }
        var was, size := buf, wpos + len;
        buf := new Byte[size](i requires 0 <= i < size reads was => if i < was.Length then was[i] else 0);
      }
      b := if buf.Length == 0 then None else Some(wpos);
      wpos := wpos + len;
    }

    /** ibuf_add. */
    method Add(data: seq<Byte>) returns (ok: bool)
      requires Valid()
      modifies this, buf
      ensures Valid() && max == old(max) && rpos == old(rpos) && buf.Length >= old(buf.Length)
      ensures buf == old(buf) || (fresh(buf) && ok && old(wpos) + |data| > old(buf.Length))
      ensures ok <==> old(wpos) + |data| <= max && (data != [] || old(buf.Length) > 0)
      ensures Contents() == if ok then old(Contents()) + data else old(Contents())
    {
      ghost var was := buf[rpos..wpos];
      var b := Reserve(|data|);
      ok := b.Some?;
      if ok {
        assert buf[rpos..b.value] == was;
        CopyTo(buf, b.value, data);
        assert buf[rpos..wpos] == buf[rpos..b.value] + data;
      }
    }

    /** ibuf_set. */
    method Set(pos: nat, data: seq<Byte>) returns (ok: bool)
      requires Valid()
      modifies buf
      ensures Valid()
      ensures ok <==> pos + |data| <= |old(Contents())| && buf.Length > 0
      ensures Contents() == if ok then old(Contents())[..pos] + data + old(Contents())[pos + |data|..] else old(Contents())
    {
      ok := pos <= Size() && pos + |data| <= Size() && buf.Length > 0;
      if ok {
        ghost var was := buf[..];
        assert was[rpos..wpos] == buf[rpos..wpos];
        CopyTo(buf, rpos + pos, data);
        SetSlices(was, buf[..], rpos, wpos, pos, data);
        assert buf[..][rpos..wpos] == buf[rpos..wpos];
      }
    }

    /** ibuf_get. */
    method Get(len: nat) returns (data: Option<seq<Byte>>)
      requires Valid()
      modifies this`rpos
      ensures Valid()
      ensures data == if len <= |old(Contents())| then Some(old(Contents())[..len]) else None
      ensures Contents() == if data.Some? then old(Contents())[len..] else old(Contents())
    {
      if Size() < len {
        return None;
      }
      assert buf[rpos..wpos][..len] == buf[rpos..rpos + len];
      data := Some(buf[rpos..rpos + len]);
      rpos := rpos + len;
    }

    /** ibuf_truncate: shortens, or fills up with zeros. */
    method Truncate(len: nat) returns (ok: bool)
      requires Valid()
      modifies this, buf
      ensures Valid()
      ensures ok <==> rpos + len <= max
      ensures ok && len <= |old(Contents())| ==> Contents() == old(Contents())[..len]
      ensures ok && len > |old(Contents())| ==> Contents() == old(Contents()) + seq(len - |old(Contents())|, _ => 0)
      ensures !ok ==> Contents() == old(Contents())
    {
      if Size() >= len {
        assert buf[rpos..wpos][..len] == buf[rpos..rpos + len];
        wpos := rpos + len;
        return true;
      }
      var zeros: seq<Byte> := seq(len - Size(), _ => 0);
      ok := Add(zeros);
    }
  }

  /** What a copy changes between the cursors. */
  lemma SetSlices(was: seq<Byte>, now: seq<Byte>, rpos: nat, wpos: nat, pos: nat, data: seq<Byte>)
    requires rpos + pos + |data| <= wpos <= |was| && now == was[..rpos + pos] + data + was[rpos + pos + |data|..]
    ensures now[rpos..wpos] == was[rpos..wpos][..pos] + data + was[rpos..wpos][pos + |data|..]
  {
    var at, end := rpos + pos, rpos + pos + |data|;
    assert was[rpos..wpos][..pos] == was[rpos..at] && was[rpos..wpos][pos + |data|..] == was[end..wpos];
    assert was[..at] == was[..rpos] + was[rpos..at] && was[end..] == was[end..wpos] + was[wpos..];
    assert now == was[..rpos] + (was[rpos..at] + data + was[end..wpos]) + was[wpos..];
    Middle(was[..rpos], was[rpos..at] + data + was[end..wpos], was[wpos..]);
  }

  lemma Middle(a: seq<Byte>, m: seq<Byte>, e: seq<Byte>)
    ensures (a + m + e)[|a|..|a| + |m|] == m
  {}

  /** memcpy into a buffer. */
  method CopyTo(buf: array<Byte>, at: nat, data: seq<Byte>)
    requires at + |data| <= buf.Length
    modifies buf
    ensures buf[..] == old(buf[..at]) + data + old(buf[at + |data|..])
  {
    forall i | 0 <= i < |data| {
      buf[at + i] := data[i];
    }
  }

  /** The write side of a msgbuf. */
  class WriteQueue {
    var bufs: seq<Ibuf>
    var queued: nat
    /** The bytes left in each buffer. */
    ghost var queue: seq<seq<Byte>>

    ghost predicate Valid()
      reads this, bufs, set b | b in bufs :: b.buf
    {
      && queued == |bufs| == |queue|
      && (forall i | 0 <= i < |bufs| :: bufs[i].Valid() && bufs[i].Contents() == queue[i])
      && (forall i, j | 0 <= i < j < |bufs| :: bufs[i] != bufs[j])
    }

    constructor ()
      ensures Valid() && queue == []
    {
      bufs, queued, queue := [], 0, [];
    }

    /** msgbuf_enqueue. */
    method Enqueue(buf: Ibuf)
      requires Valid() && buf.Valid() && buf !in bufs
      modifies this
      ensures Valid() && bufs == old(bufs) + [buf] && queue == old(queue) + [buf.Contents()]
    {
      bufs := bufs + [buf];
      queued := queued + 1;
      queue := queue + [buf.Contents()];
    }

    /** msgbuf_drain: `n` bytes were written. */
    method DrainQueue(n0: nat)
      requires Valid()
      modifies this, bufs
      ensures Valid() && queue == Drain(old(queue), n0)
    {
      var n: nat := n0;
      while bufs != [] && n > 0
        invariant Valid() && Drain(queue, n) == Drain(old(queue), n0)
        invariant forall b | b in bufs :: b in old(bufs) && b.buf == old(b.buf)
        decreases |bufs|, n
      {
        if n >= bufs[0].Size() {
          n := n - bufs[0].Size();
          Dequeue();
        } else {
          Advance(n);
          n := 0;
        }
      }
    }

    /** msgbuf_dequeue of the first buffer. */
    method Dequeue()
      requires Valid() && bufs != []
      modifies this
      ensures Valid() && bufs == old(bufs)[1..] && queue == old(queue)[1..]
    {
      bufs := bufs[1..];
      queued := queued - 1;
      queue := queue[1..];
    }

    /** The first buffer is written in part. */
    method Advance(n: nat)
      requires Valid() && bufs != [] && n <= |queue[0]|
      modifies this, bufs[0]
      ensures Valid() && bufs == old(bufs) && (forall b | b in bufs :: b.buf == old(b.buf))
      ensures queue == [old(queue)[0][n..]] + old(queue)[1..]
    {
      var buf := bufs[0];
      assert buf.Contents()[n..] == buf.buf[buf.rpos + n..buf.wpos];
      buf.rpos := buf.rpos + n;
      queue := [queue[0][n..]] + queue[1..];
    }

    /** ibuf_write, when the kernel takes `n` bytes of those offered. */
    method Write(n: nat) returns (sent: seq<Byte>)
      requires Valid() && n <= |Flat(queue)|
      modifies this, bufs
      ensures Valid() && sent == Flat(old(queue))[..n] && queue == Drain(old(queue), n)
      ensures sent + Flat(queue) == Flat(old(queue))
    {
      DrainDrops(queue, n);
      sent := Gather(n);
      DrainQueue(n);
    }

    /** The bytes that the vector given to writev starts with. */
    method Gather(n: nat) returns (data: seq<Byte>)
      requires Valid() && n <= |Flat(queue)|
      ensures data == Flat(queue)[..n]
    {
      data := [];
      var i := 0;
      while i < |bufs|
        invariant 0 <= i <= |bufs| && data + Flat(queue[i..]) == Flat(queue)
      {
        assert queue[i..][1..] == queue[i + 1..];
        data := data + bufs[i].buf[bufs[i].rpos..bufs[i].wpos];
        i := i + 1;
      }
      data := data[..n];
    }
  }

  /** The read side of a msgbuf. */
  class ReadBuffer {
    const fr: Framing
    const rbuf: array<Byte>
    var roff: nat
    var rpmsg: Ibuf?
    var rbufs: seq<Ibuf>
    /** The received buffers, as bytes. */
    ghost var frames: seq<seq<Byte>>

    ghost predicate Valid()
      reads this, rbuf, rpmsg, rbufs, set b | b in rbufs :: b.buf, if rpmsg == null then {} else {rpmsg.buf}
    {
      && Proper(fr) && rbuf.Length == READ_SIZE && roff <= READ_SIZE
      && |frames| == |rbufs|
      && (forall i | 0 <= i < |rbufs| :: rbufs[i].Valid() && rbufs[i].buf != rbuf && rbufs[i].Contents() == frames[i])
      && (forall i, j | 0 <= i < j < |rbufs| :: rbufs[i] != rbufs[j])
      && (rpmsg != null ==>
            && rpmsg.Valid() && rpmsg.rpos == 0 && 0 < rpmsg.buf.Length && rpmsg.buf != rbuf
            && forall b | b in rbufs :: b != rpmsg && b.buf != rpmsg.buf)
    }

    /** The state of the reader when the bytes from `pos` on are not looked at. */
    ghost function At(pos: nat): Reader
      requires Valid() && pos <= roff
      reads this, rbuf, rpmsg, rbufs, set b | b in rbufs :: b.buf, if rpmsg == null then {} else {rpmsg.buf}
    {
      Reader(frames, if rpmsg == null then [] else rpmsg.Contents(), if rpmsg == null then 0 else rpmsg.max, rbuf[pos..roff])
    }

    /** msgbuf_new_reader. */
    constructor (fr: Framing)
      requires Proper(fr)
      ensures Valid() && this.fr == fr && At(0) == Reader([], [], 0, [])
    {
      this.fr := fr;
      rbuf := new Byte[READ_SIZE](_ => 0);
      roff, rpmsg, rbufs, frames := 0, null, [], [];
    }

    method AddBytes(pos: nat, sz: nat)
      requires Valid() && rpmsg != null && pos + sz <= roff && rpmsg.wpos + sz <= rpmsg.max
      modifies rpmsg, rpmsg.buf
      ensures Valid() && rpmsg.max == old(rpmsg.max) && rbuf[..] == old(rbuf[..])
      ensures rpmsg.Contents() == old(rpmsg.Contents()) + rbuf[pos..pos + sz]
      ensures rpmsg.buf == old(rpmsg.buf) || fresh(rpmsg.buf)
    {
      var _ := rpmsg.Add(rbuf[pos..pos + sz]);
    }

    /** msgbuf_read_enqueue. */
    method ReadEnqueue()
      requires Valid() && rpmsg != null
      modifies this
      ensures Valid() && rpmsg == null && roff == old(roff)
      ensures frames == old(frames) + [old(rpmsg.Contents())]
    {
      rbufs := rbufs + [rpmsg];
      frames := frames + [rpmsg.Contents()];
      rpmsg := null;
    }

    /** Bytes are moved to the open message, which is put in the queue when full. */
    method FillMessage(pos: nat) returns (pos': nat)
      requires Valid() && pos <= roff && rpmsg != null
      modifies this, rpmsg, rpmsg.buf
      ensures Valid() && roff == old(roff) && pos <= pos' <= roff && rbuf[..] == old(rbuf[..])
      ensures At(pos') == Fill(old(At(pos)))
      ensures rpmsg != null ==> rpmsg == old(rpmsg) && (rpmsg.buf == old(rpmsg.buf) || fresh(rpmsg.buf))
    {
      ghost var was := At(pos);
      var sz := Min(rpmsg.Left(), roff - pos);
      assert rpmsg.wpos == |was.partial|;
      ghost var partial, rest := was.partial + was.rest[..sz], was.rest[sz..];
      assert was.rest[..sz] == rbuf[pos..pos + sz] && rest == rbuf[pos + sz..roff];
      AddBytes(pos, sz);
      pos' := pos + sz;
      assert rpmsg.Contents() == partial && rpmsg.wpos == |partial|;
      if rpmsg.Left() == 0 {
        ReadEnqueue();
        assert At(pos') == Reader(was.frames + [partial], [], 0, rest);
      } else {
        assert At(pos') == Reader(was.frames, partial, was.size, rest);
      }
    }
  
    /** readhdr: a buffer for the frame that the header at `pos` starts. */
    method OpenMessage(pos: nat) returns (ok: bool)
      requires Valid() && rpmsg == null && pos + fr.hdrsize <= roff
      modifies this`rpmsg
      ensures Valid() && At(pos).frames == old(At(pos)).frames
      ensures ok <==> fr.readhdr(old(At(pos)).rest[..fr.hdrsize]).Some?
      ensures if ok then rpmsg != null && fresh(rpmsg) && fresh(rpmsg.buf) else rpmsg == null
      ensures ok ==> At(pos) == old(At(pos)).(size := fr.readhdr(old(At(pos)).rest[..fr.hdrsize]).value)
    {
      assert At(pos).rest[..fr.hdrsize] == rbuf[pos..pos + fr.hdrsize];
      var size := fr.readhdr(rbuf[pos..pos + fr.hdrsize]);
      ok := size.Some?;
      if ok {
        rpmsg := new Ibuf(size.value, size.value);
      }
    }
  
    /** One pass of the loop of ibuf_read_process. */
    method PassOnce(pos: nat) returns (ok: bool, pos': nat)
      requires Valid() && pos <= roff && !Idle(fr, At(pos))
      modifies this, rpmsg, if rpmsg == null then {} else {rpmsg.buf}
      ensures Valid() && roff == old(roff) && pos <= pos' <= roff && rbuf[..] == old(rbuf[..])
      ensures ok <==> Pass(fr, old(At(pos))).Some?
      ensures ok ==> At(pos') == Pass(fr, old(At(pos))).value
      ensures rpmsg != null ==> (rpmsg == old(rpmsg) && (rpmsg.buf == old(rpmsg.buf) || fresh(rpmsg.buf))) || (fresh(rpmsg) && fresh(rpmsg.buf))
    {
      ok, pos' := true, pos;
      ghost var was := At(pos);
      if rpmsg == null {
        ok := OpenMessage(pos);
      }
      assert Pass(fr, was) == if ok then Some(Fill(At(pos))) else None;
      if ok {
        pos' := FillMessage(pos);
      }
    }

    /** ibuf_read_process. */
    method ReadProcess() returns (ok: bool)
      requires Valid() && Sound(fr, At(0))
      modifies this, rbuf, rpmsg, if rpmsg == null then {} else {rpmsg.buf}
      ensures Valid()
      ensures ok <==> Process(fr, old(At(0))).Some?
      ensures ok ==> At(0) == Process(fr, old(At(0))).value
    {
      ghost var result := Process(fr, At(0));
      var pos, more := 0, true;
      while more
        invariant Valid() && pos <= roff && Sound(fr, At(pos))
        invariant result == if more then Process(fr, At(pos)) else Some(At(pos))
        invariant rpmsg != null ==>
          (rpmsg == old(rpmsg) && (rpmsg.buf == old(rpmsg.buf) || fresh(rpmsg.buf))) || (fresh(rpmsg) && fresh(rpmsg.buf))
        decreases roff - pos, more
      {
        if rpmsg == null && roff - pos < fr.hdrsize {
          break;
        }
        if Pass(fr, At(pos)).Some? { PassSound(fr, At(pos)); }
        ok, pos := PassOnce(pos);
        if !ok {
          return false;
        }
        more := pos < roff;
      }
      Compact(pos);
      ok := true;
    }

    /** memmove of the unread bytes to the front. */
    method Compact(pos: nat)
      requires Valid() && pos <= roff
      modifies this`roff, rbuf
      ensures Valid() && rpmsg == old(rpmsg) && At(0) == old(At(pos))
    {
      ghost var was := At(pos);
      var rest := rbuf[pos..roff];
      CopyTo(rbuf, 0, rest);
      roff := roff - pos;
      assert rbuf[0..roff] == was.rest;
    }

    /** ibuf_read, when the kernel gives the bytes `data`. */
    method Read(data: seq<Byte>) returns (ok: bool)
      requires Valid() && Settled(fr, At(0)) && 0 < |data| <= READ_SIZE - roff
      modifies this, rbuf, rpmsg, if rpmsg == null then {} else {rpmsg.buf}
      ensures Valid()
      ensures var r := Process(fr, old(At(0)).(rest := old(At(0)).rest + data));
        (ok <==> r.Some?) && (ok ==> At(0) == r.value && Settled(fr, At(0)))
    {
      ghost var was := At(0);
      CopyTo(rbuf, roff, data);
      roff := roff + |data|;
      assert rbuf[0..roff] == was.rest + data;
      assert At(0) == was.(rest := was.rest + data);
      ghost var o := At(0);
      ok := ReadProcess();
      if ok { ProcessSettles(fr, o); }
    }

    /** msgbuf_get. */
    method Get() returns (buf: Ibuf?)
      requires Valid()
      modifies this
      ensures Valid() && rpmsg == old(rpmsg) && roff == old(roff)
      ensures buf == null <==> old(frames) == []
      ensures buf != null ==> buf !in rbufs && buf != rpmsg && (forall b | b in rbufs :: b in old(rbufs))
      ensures buf == null ==> At(0) == old(At(0))
      ensures buf != null ==> buf in old(rbufs) && buf.Valid() && buf.Contents() == old(frames)[0] && At(0) == old(At(0)).(frames := old(frames)[1..])
    {
      if rbufs == [] {
        return null;
      }
      buf := rbufs[0];
      rbufs := rbufs[1..];
      frames := frames[1..];
    }
  }
}
