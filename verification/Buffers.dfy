/** Overwriting a stretch of a buffer. */
module Buffers {
  import opened Bytes

  /** data with the bytes from offset on replaced by part. */
  function Splice(data: seq<byte>, offset: nat, part: seq<byte>): (r: seq<byte>)
    requires offset + |part| <= |data|
    ensures |r| == |data|
  {
    data[..offset] + part + data[offset + |part|..]
  }

  lemma SpliceNothing(data: seq<byte>, offset: nat)
    requires offset <= |data|
    ensures Splice(data, offset, []) == data
  {}

  lemma SpliceFront(data: seq<byte>, part: seq<byte>)
    requires |part| <= |data|
    ensures Splice(data, 0, part)[..|part|] == part
  {}

  lemma SpliceWhole(data: seq<byte>, part: seq<byte>)
    requires |part| == |data|
    ensures Splice(data, 0, part) == part
  {}

  lemma SpliceHits(data: seq<byte>, offset: nat, part: seq<byte>)
    requires offset + |part| <= |data|
    ensures Splice(data, offset, part)[offset..offset + |part|] == part
  {}

  lemma SpliceSpares(data: seq<byte>, offset: nat, part: seq<byte>, lo: nat, hi: nat)
    requires offset + |part| <= |data| && lo <= hi <= |data| && (hi <= offset || offset + |part| <= lo)
    ensures Splice(data, offset, part)[lo..hi] == data[lo..hi]
  {}

  lemma SpliceAt(data: seq<byte>, offset: nat, part: seq<byte>, k: nat)
    requires offset + |part| <= |data| && k < |data|
    ensures Splice(data, offset, part)[k] == if offset <= k < offset + |part| then part[k - offset] else data[k]
  {}

  /** Two stretches, one behind the other, are one. */
  lemma SpliceTwice(data: seq<byte>, offset: nat, a: seq<byte>, b: seq<byte>)
    requires offset + |a| + |b| <= |data|
    ensures Splice(Splice(data, offset, a), offset + |a|, b) == Splice(data, offset, a + b)
  {}

  lemma SpliceByte(data: seq<byte>, offset: nat, done: seq<byte>, b: byte)
    requires offset + |done| < |data|
    ensures Splice(data, offset, done)[offset + |done| := b] == Splice(data, offset, done + [b])
  {}

  lemma SplitAt<T>(s: seq<T>, i: nat)
    requires i < |s|
    ensures s[..i + 1] == s[..i] + [s[i]] && s == s[..i + 1] + s[i + 1..]
  {}

  /** A stretch of a stretch. */
  lemma Reslice<T>(s: seq<T>, lo: nat, hi: nat, n: nat)
    requires lo + n <= hi <= |s|
    ensures s[lo..hi][..n] == s[lo..lo + n] && s[lo..hi][n..] == s[lo + n..hi]
  {}

  lemma Regroup(a: seq<byte>, b: seq<byte>, c: seq<byte>)
    ensures a + (b + c) == a + b + c
  {}
}
