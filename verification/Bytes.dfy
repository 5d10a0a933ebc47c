/** Bytes and pages. */
module Bytes {
  type byte = x: int | 0 <= x < 256

  type Page = seq<byte>

  // calloc'd memory
  function ZeroPage(n: nat): (p: Page)
    ensures |p| == n && forall k :: 0 <= k < n ==> p[k] == 0
  {
    seq(n, _ => 0)
  }

  // s with the bytes of data written over it from position at on
  function Splice(s: seq<byte>, at: nat, data: seq<byte>): (r: seq<byte>)
    requires at + |data| <= |s|
    ensures |r| == |s|
    ensures forall k :: 0 <= k < |s| ==> r[k] == if at <= k < at + |data| then data[k - at] else s[k]
  {
    s[..at] + data + s[at + |data|..]
  }

  lemma SliceOfSlice(s: seq<byte>, lo: nat, hi: nat, offset: nat, size: nat)
    requires lo <= hi <= |s| && offset + size <= hi - lo
    ensures s[lo..hi][offset..offset + size] == s[lo + offset..lo + offset + size]
  {
    var a, b := s[lo..hi][offset..offset + size], s[lo + offset..lo + offset + size];
    forall k | 0 <= k < size ensures a[k] == b[k] {
      assert s[lo..hi][offset + k] == s[lo + offset + k];
    }
  }

  lemma SpliceOutside(s: seq<byte>, at: nat, data: seq<byte>, lo: nat, hi: nat)
    requires at + |data| <= |s| && lo <= hi <= |s| && (hi <= at || at + |data| <= lo)
    ensures Splice(s, at, data)[lo..hi] == s[lo..hi]
  {
    var a, b := Splice(s, at, data)[lo..hi], s[lo..hi];
    forall k | 0 <= k < hi - lo ensures a[k] == b[k] {
      assert Splice(s, at, data)[lo + k] == s[lo + k];
    }
  }

  lemma SpliceInside(s: seq<byte>, at: nat, data: seq<byte>)
    requires at + |data| <= |s|
    ensures Splice(s, at, data)[at..at + |data|] == data
  {
    var a := Splice(s, at, data)[at..at + |data|];
    forall k | 0 <= k < |data| ensures a[k] == data[k] {
      assert Splice(s, at, data)[at + k] == data[k];
    }
  }
}
