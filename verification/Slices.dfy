/** Slices of slices, as walks over a message take them. */
module Slices {
  import opened Bytes

  lemma SliceTail(s: seq<Byte>, offset: nat, total: nat, n: nat)
    requires n <= total && offset + total <= |s|
    ensures s[offset..offset + total][n..] == s[offset + n..offset + total]
  {}

  lemma SlicePart(s: seq<Byte>, offset: nat, total: nat, i: nat, j: nat)
    requires i <= j <= total && offset + total <= |s|
    ensures s[offset..offset + total][i..j] == s[offset + i..offset + j]
  {
    var t := s[offset..offset + total];
    assert forall k :: 0 <= k < j - i ==> t[i..j][k] == t[i + k] == s[offset + i + k];
  }
}
