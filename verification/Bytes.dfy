/** Byte ranges: the splice, which is what every write in the storage stack is meant to be. */
module Bytes {
  import opened Words

  /** `s` with `data` placed at `off`; a range that does not fit changes nothing. */
  function Splice(s: seq<byte>, off: nat, data: seq<byte>): (r: seq<byte>)
    ensures |r| == |s|
  {
    if off + |data| <= |s| then
      seq(|s|, i requires 0 <= i < |s| => if off <= i < off + |data| then data[i - off] else s[i])
    else s
  }

  /** The `n` bytes at `off`, or nothing when they are not all there. */
  function Slice(s: seq<byte>, off: nat, n: nat): seq<byte> {
    if off + n <= |s| then s[off..off + n] else []
  }

  /** `s` and `t` agree everywhere outside `[lo, hi)`. */
  ghost predicate SameOutside(s: seq<byte>, t: seq<byte>, lo: int, hi: int) {
    |s| == |t| && forall i :: 0 <= i < |s| && !(lo <= i < hi) ==> s[i] == t[i]
  }

  /** The number in the little-endian field of width `w` at `off`. */
  function Field(s: seq<byte>, off: nat, w: nat): (v: nat)
    requires off + w <= |s|
  {
    FromLe(s[off..off + w])
  }

  lemma SpliceAt(s: seq<byte>, off: nat, data: seq<byte>, i: nat)
    requires off + |data| <= |s| && i < |s|
    ensures Splice(s, off, data)[i] == if off <= i < off + |data| then data[i - off] else s[i]
  {
  }

  lemma SpliceNothing(s: seq<byte>, off: nat)
    ensures Splice(s, off, []) == s
  {
  }

  /** Two adjacent splices are one. */
  lemma SpliceAppend(s: seq<byte>, off: nat, a: seq<byte>, b: seq<byte>)
    requires off + |a| + |b| <= |s|
    ensures Splice(Splice(s, off, a), off + |a|, b) == Splice(s, off, a + b)
  {
    var l := Splice(Splice(s, off, a), off + |a|, b);
    var r := Splice(s, off, a + b);
    forall i | 0 <= i < |s| ensures l[i] == r[i] {
      SpliceAt(Splice(s, off, a), off + |a|, b, i);
      SpliceAt(s, off, a, i);
      SpliceAt(s, off, a + b, i);
    }
  }

  /** The same for splices of adjacent slices of one source. */
  lemma SpliceSlices(out: seq<byte>, start: nat, src: seq<byte>, off: nat, n: nat, m: nat)
    requires off + n + m <= |src| && start + n + m <= |out|
    ensures Splice(Splice(out, start, Slice(src, off, n)), start + n, src[off + n..off + n + m])
         == Splice(out, start, Slice(src, off, n + m))
  {
    assert src[off..off + n] + src[off + n..off + n + m] == src[off..off + n + m];
    SpliceAppend(out, start, src[off..off + n], src[off + n..off + n + m]);
  }

  /** Patching a copied window and writing the window back splices just the patch. */
  lemma SpliceWindow(s: seq<byte>, base: nat, w: nat, at: nat, data: seq<byte>)
    requires base + w <= |s| && at + |data| <= w
    ensures Splice(s, base, Splice(s[base..base + w], at, data)) == Splice(s, base + at, data)
  {
    var win := s[base..base + w];
    var l := Splice(s, base, Splice(win, at, data));
    var r := Splice(s, base + at, data);
    forall i | 0 <= i < |s| ensures l[i] == r[i] {
      SpliceAt(s, base, Splice(win, at, data), i);
      SpliceAt(s, base + at, data, i);
      if base <= i < base + w {
        SpliceAt(win, at, data, i - base);
      }
    }
  }

  lemma WindowSlice(s: seq<byte>, base: nat, w: nat, at: nat, n: nat)
    requires base + w <= |s| && at + n <= w
    ensures s[base..base + w][at..at + n] == s[base + at..base + at + n]
  {
    var inner, outer := s[base..base + w][at..at + n], s[base + at..base + at + n];
    assert forall i :: 0 <= i < n ==> inner[i] == outer[i];
    assert inner == outer;
  }

  lemma PrefixSlice(s: seq<byte>, len: nat, lo: nat, hi: nat)
    requires lo <= hi <= len <= |s|
    ensures s[..len][lo..hi] == s[lo..hi]
  {
    assert forall i :: lo <= i < hi ==> s[..len][i] == s[i];
  }

  /** The first part of a slice, and what it makes with the bytes before the slice. */
  lemma SliceStart(s: seq<byte>, lo: nat, hi: nat, n: nat)
    requires lo <= hi <= |s| && n <= hi - lo
    ensures s[lo..hi][..n] == s[lo..lo + n]
    ensures s[..lo] + s[lo..hi] == s[..hi]
  {
  }

  /** A splice leaves every disjoint window as it was. */
  lemma SpliceElsewhere(s: seq<byte>, off: nat, data: seq<byte>, lo: nat, hi: nat)
    requires lo <= hi <= |s|
    requires off + |data| <= lo || hi <= off
    ensures Splice(s, off, data)[lo..hi] == s[lo..hi]
  {
    if off + |data| <= |s| {
      forall i | lo <= i < hi ensures Splice(s, off, data)[i] == s[i] {
        SpliceAt(s, off, data, i);
      }
    }
  }

  lemma SpliceOutside(s: seq<byte>, off: nat, data: seq<byte>)
    ensures SameOutside(Splice(s, off, data), s, off, off + |data|)
  {
  }

  /** What was spliced in is what is read back. */
  lemma SpliceReadBack(s: seq<byte>, off: nat, data: seq<byte>)
    requires off + |data| <= |s|
    ensures Splice(s, off, data)[off..off + |data|] == data
  {
  }

  /** `memcpy` of known bytes into an array. */
  method Store(a: array<byte>, at: nat, data: seq<byte>)
    requires at + |data| <= a.Length
    modifies a
    ensures a[..] == Splice(old(a[..]), at, data)
  {
    for i := 0 to |data|
      invariant forall k :: 0 <= k < a.Length ==>
        a[k] == if at <= k < at + i then data[k - at] else old(a[k])
    {
      a[at + i] := data[i];
    }
    assert a[..] == Splice(old(a[..]), at, data);
  }

  /** `memcpy(buf, buf + src, len)` run as a forward byte copy: the source may overlap the target. */
  method CopyToFront(buf: array<byte>, src: nat, len: nat)
    requires src + len <= buf.Length
    modifies buf
    ensures forall k :: 0 <= k < len ==> buf[k] == old(buf[src + k])
    ensures forall k :: len <= k < buf.Length ==> buf[k] == old(buf[k])
  {
    for i := 0 to len
      invariant forall k :: 0 <= k < i ==> buf[k] == old(buf[src + k])
      invariant forall k :: i <= k < buf.Length ==> buf[k] == old(buf[k])
    {
      buf[i] := buf[src + i];
    }
  }
}
