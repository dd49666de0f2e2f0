/** Sequences of bytes and other elements: overwriting a stretch, reading and writing what fits, taking one out. */
module Sequences {
  import opened LowpanTypes

  /** s without element i. */
  function Without<T>(s: seq<T>, i: nat): seq<T>
    requires i < |s|
  {
    s[..i] + s[i + 1..]
  }

  lemma WithoutAt<T>(s: seq<T>, k: nat)
    requires k < |s|
    ensures |Without(s, k)| == |s| - 1
    ensures forall i :: 0 <= i < |s| - 1 ==> Without(s, k)[i] == s[if i < k then i else i + 1]
  {
  }

  function Smaller(a: nat, b: nat): nat {
    if a < b then a else b
  }

  /** Up to n bytes from off on: all of them, or as many as there are. */
  function ReadAt(s: seq<byte>, off: nat, n: nat): (r: seq<byte>)
    ensures |r| <= n
  {
    if off >= |s| then [] else s[off..Smaller(off + n, |s|)]
  }

  /** s with as much of data as fits written from off on. */
  function WriteAt(s: seq<byte>, off: nat, data: seq<byte>): (r: seq<byte>)
    ensures |r| == |s|
  {
    if off >= |s| then s
    else Splice(s, off, data[..Smaller(|data|, |s| - off)])
  }

  /** How many of n bytes at off there is room for. */
  function RoomAt(s: seq<byte>, off: nat, n: nat): nat {
    if off >= |s| then 0 else Smaller(n, |s| - off)
  }

  /** What is read is what lies from off on, up to n bytes or to the end. */
  lemma ReadAtIs(s: seq<byte>, off: nat, n: nat)
    ensures |ReadAt(s, off, n)| == if off >= |s| then 0 else if n < |s| - off then n else |s| - off
    ensures forall i :: 0 <= i < |ReadAt(s, off, n)| ==> ReadAt(s, off, n)[i] == s[off + i]
    ensures RoomAt(s, off, n) == |ReadAt(s, off, n)|
  {
  }

  /** Writing changes the bytes from off on that there are, up to the length of the data. */
  lemma WriteAtIs(s: seq<byte>, off: nat, data: seq<byte>)
    ensures forall x :: 0 <= x < |s| ==>
              WriteAt(s, off, data)[x] == if off <= x < off + |data| then data[x - off] else s[x]
  {
  }

  /** A buffer's contents after b is written at off. */
  function Splice(was: seq<byte>, off: nat, b: seq<byte>): (r: seq<byte>)
    requires off + |b| <= |was|
    ensures |r| == |was|
  {
    was[..off] + b + was[off + |b|..]
  }

  lemma SpliceNext(was: seq<byte>, off: nat, a: seq<byte>, b: seq<byte>)
    requires off + |a| + |b| <= |was|
    ensures Splice(Splice(was, off, a), off + |a|, b) == Splice(was, off, a + b)
  {
  }

  lemma SpliceFront(was: seq<byte>, off: nat, d: byte, t: seq<byte>)
    requires off + 1 + |t| <= |was|
    ensures Splice(Splice(was, off + 1, t), off, [d]) == Splice(was, off, [d] + t)
  {
  }

  lemma SpliceNothing(was: seq<byte>, off: nat)
    requires off <= |was|
    ensures Splice(was, off, []) == was
  {
  }

  /** Copies bytes into the buffer at an offset. */
  method MemCpy(src: seq<byte>, dst: array<byte>, off: nat)
    requires off + |src| <= dst.Length
    modifies dst
    ensures dst[..] == Splice(old(dst[..]), off, src)
  {
    for i := 0 to |src|
      invariant forall j :: 0 <= j < dst.Length ==>
                  dst[j] == if off <= j < off + i then src[j - off] else old(dst[j])
    {
      dst[off + i] := src[i];
    }
  }

  method PutByte(b: byte, dst: array<byte>, off: nat)
    requires off < dst.Length
    modifies dst
    ensures dst[..] == Splice(old(dst[..]), off, [b])
  {
    dst[off] := b;
  }

  lemma SpliceAt(bytes: seq<byte>, off: nat, data: seq<byte>, x: nat)
    requires off + |data| <= |bytes| && x < |bytes|
    ensures Splice(bytes, off, data)[x] == if off <= x < off + |data| then data[x - off] else bytes[x]
  {
  }
}
