/** Bytes, and integers as bytes. */
module Bytes {

  type Byte = b: int | 0 <= b < 256

  type Word16 = w: int | 0 <= w < 0x1_0000

  type Word32 = w: int | 0 <= w < 0x1_0000_0000

  /** Network byte order. */
  function Put16(w: Word16): (s: seq<Byte>)
    ensures |s| == 2
  {
    [w / 0x100, w % 0x100]
  }

  function Get16(s: seq<Byte>): Word16
    requires |s| >= 2
  {
    s[0] as int * 0x100 + s[1] as int
  }

  lemma RoundTrip16(w: Word16, rest: seq<Byte>)
    ensures Get16(Put16(w) + rest) == w
  {}

  function Put32(w: Word32): (s: seq<Byte>)
    ensures |s| == 4
  {
    Put16(w / 0x1_0000) + Put16(w % 0x1_0000)
  }

  function Get32(s: seq<Byte>): Word32
    requires |s| >= 4
  {
    Get16(s) * 0x1_0000 + Get16(s[2..])
  }

  lemma RoundTrip32(w: Word32, rest: seq<Byte>)
    ensures Get32(Put32(w) + rest) == w
  {
    var s := Put32(w) + rest;
    assert s[..2] == Put16(w / 0x1_0000) && s[2..] == Put16(w % 0x1_0000) + rest;
  }

  /** The four bytes of a word in the memory of a little-endian host. */
  function PutHost(w: Word32): (s: seq<Byte>)
    ensures |s| == 4
  {
    var lo, hi := w % 0x1_0000, w / 0x1_0000;
    [lo % 0x100, lo / 0x100, hi % 0x100, hi / 0x100]
  }

  function GetHost(s: seq<Byte>): Word32
    requires |s| >= 4
  {
    (s[0] as int + 0x100 * s[1] as int) + 0x1_0000 * (s[2] as int + 0x100 * s[3] as int)
  }

  lemma RoundTripHost(w: Word32, rest: seq<Byte>)
    ensures GetHost(PutHost(w) + rest) == w
  {}

  /** In network order the most significant byte comes first, in the host's the least. */
  lemma ByteOrder(v: Word16, w: Word32)
    ensures var s := Put16(v); v as int == 0x100 * (s[0] as int) + s[1] as int
    ensures var s := Put32(w); w as int == 0x100_0000 * (s[0] as int) + 0x1_0000 * (s[1] as int) + 0x100 * (s[2] as int) + s[3] as int
    ensures var s := PutHost(w); w as int == s[0] as int + 0x100 * (s[1] as int) + 0x1_0000 * (s[2] as int) + 0x100_0000 * (s[3] as int)
  {
    var s := Put32(w);
    assert s[0] == Put16(w / 0x1_0000)[0] && s[1] == Put16(w / 0x1_0000)[1] && s[2] == Put16(w % 0x1_0000)[0] && s[3] == Put16(w % 0x1_0000)[1];
  }

  /** The concatenation of a sequence of pieces. */
  function Flat(ss: seq<seq<Byte>>): seq<Byte> {
    if ss == [] then [] else ss[0] + Flat(ss[1..])
  }

  lemma {:induction false} FlatAppend(a: seq<seq<Byte>>, b: seq<seq<Byte>>)
    ensures Flat(a + b) == Flat(a) + Flat(b)
  {
    if a == [] {
      assert a + b == b;
    } else {
      assert (a + b)[1..] == a[1..] + b;
      FlatAppend(a[1..], b);
    }
  }

  lemma FlatOne(s: seq<Byte>)
    ensures Flat([s]) == s
  {
    assert [s][1..] == [];
  }

  lemma Assoc(a: seq<Byte>, b: seq<Byte>, c: seq<Byte>)
    ensures (a + b) + c == a + (b + c)
  {}

  lemma Adjoin(s: seq<Byte>, i: nat, j: nat, k: nat)
    requires i <= j <= k <= |s|
    ensures s[i..j] + s[j..k] == s[i..k]
  {}
}
