/**
 I/O vectors (ucIoVecImpl.h and ucIoVec.c): doubly linked chunks of memory, and iterators
 over them.  Every operation acts on the concatenation of the chunks as the plain operation
 on one byte sequence does, wherever the borders between the chunks are.
 */
module IoVec {
  import opened LowpanTypes
  import opened Sequences
  import opened Chunks

  class IovChunk {
    const data: array<byte>
    var next: IovChunk?
    var prev: IovChunk?

    constructor (data: array<byte>)
      ensures this.data == data && next == null && prev == null
    {
      this.data := data;
      next, prev := null, null;
    }
  }

  ghost function Memory(c: seq<IovChunk>): set<array<byte>> {
    set x | x in c :: x.data
  }

  /** The chunks are linked in this order both ways, none is empty, and they share no memory. */
  ghost predicate Chain(c: seq<IovChunk>)
    reads c`next, c`prev
  {
    && (forall i {:trigger c[i].next} :: 0 <= i < |c| ==> c[i].next == if i + 1 < |c| then c[i + 1] else null)
    && (forall i {:trigger c[i].prev} :: 0 <= i < |c| ==> c[i].prev == if i > 0 then c[i - 1] else null)
    && (forall i :: 0 <= i < |c| ==> c[i].data.Length > 0)
    && (forall i, j :: 0 <= i < j < |c| ==> c[i].data != c[j].data)
  }

  /** The contents of the chunks. */
  ghost function Parts(c: seq<IovChunk>): (parts: seq<seq<byte>>)
    reads Memory(c)
    ensures |parts| == |c|
  {
    if |c| == 0 then []
    else
      assert c[0] in c && forall x :: x in c[1..] ==> x in c;
      [c[0].data[..]] + Parts(c[1..])
  }

  /** The bytes of the whole vector. */
  ghost function Flat(c: seq<IovChunk>): seq<byte>
    reads Memory(c)
  {
    Flatten(Parts(c))
  }

  lemma InMemory(c: seq<IovChunk>)
    ensures forall i :: 0 <= i < |c| ==> c[i].data in Memory(c)
  {
    forall i | 0 <= i < |c|
      ensures c[i].data in Memory(c)
    {
      assert c[i] in c;
    }
  }

  lemma {:induction false} PartsAt(c: seq<IovChunk>, i: nat)
    requires i < |c|
    ensures Parts(c)[i] == c[i].data[..]
  {
    if i > 0 {
      PartsAt(c[1..], i - 1);
    }
  }

  ghost function Elem(c: seq<IovChunk>, k: nat): IovChunk?
    requires k <= |c|
  {
    if k < |c| then c[k] else null
  }

  lemma Linked(c: seq<IovChunk>, k: nat)
    requires Chain(c) && k < |c|
    ensures c[k].next == Elem(c, k + 1) && c[k].prev == if k > 0 then c[k - 1] else null
    ensures c[k].data.Length > 0 && |Parts(c)[k]| == c[k].data.Length && Parts(c)[k] == c[k].data[..]
    ensures c[k].data in Memory(c) && NoneEmpty(Parts(c))
    ensures Before(Parts(c), k + 1) == Before(Parts(c), k) + c[k].data.Length
  {
    InMemory(c);
    forall i | 0 <= i < |c|
      ensures Parts(c)[i] == c[i].data[..]
    {
      PartsAt(c, i);
    }
  }

  method GetTotalLength(list: IovChunk?, ghost c: seq<IovChunk>) returns (n: nat)
    requires Chain(c) && list == Elem(c, 0)
    ensures n == |Flat(c)|
  {
    hide Parts, Flatten, Chain;
    n := 0;
    var l := list;
    ghost var k := 0;
    while l != null
      invariant k <= |c| && l == Elem(c, k) && n == Before(Parts(c), k)
      decreases |c| - k
    {
      Linked(c, k);
      n := n + l.data.Length;
      l := l.next;
      k := k + 1;
    }
    TotalLength(Parts(c));
  }

  /** The loops that locate an offset. */
  method Seek(list: IovChunk?, offset: nat, ghost c: seq<IovChunk>) returns (l: IovChunk?, o: nat, ghost k: nat)
    requires Chain(c) && list == Elem(c, 0)
    ensures k <= |c| && Place(k, o) == Locate(Parts(c), 0, offset)
    ensures l == Elem(c, Locate(Parts(c), 0, offset).part) && o == Locate(Parts(c), 0, offset).offset
  {
    hide Parts, Chain;
    l, o, k := list, offset, 0;
    while l != null && o >= l.data.Length
      invariant k <= |c| && l == Elem(c, k) && Locate(Parts(c), k, o) == Locate(Parts(c), 0, offset)
      decreases |c| - k
    {
      Linked(c, k);
      o := o - l.data.Length;
      l := l.next;
      k := k + 1;
    }
    if k < |c| {
      Linked(c, k);
    }
  }

  /** Reads up to 255 bytes at an offset. */
  method ShortRead(list: IovChunk?, offset: nat, buf: array?<byte>, bufLen: byte, ghost c: seq<IovChunk>)
    returns (n: byte)
    requires Chain(c) && list == Elem(c, 0)
    requires buf != null ==> bufLen <= buf.Length && buf !in Memory(c)
    modifies buf
    ensures n == if buf == null then 0 else RoomAt(Flat(c), offset, bufLen)
    ensures buf != null ==> buf[..] == Splice(old(buf[..]), 0, ReadAt(Flat(c), offset, bufLen))
  {
    hide Parts, Before, Flatten, Splice, InStep, Stretch, Chain, NoneEmpty, ReadAt, RoomAt, Locate;
    if buf == null {
      return 0;
    }
    var l: IovChunk?, o: nat;
    ghost var k: nat;
    l, o, k := Seek(list, offset, c);
    var left: byte := bufLen;
    ghost var parts, got := Parts(c), [];
    SpliceNothing(buf[..], 0);
    StretchEmpty(Flatten(parts), offset);
    StepsBegin(parts, Place(k, o), offset, bufLen);
    while left > 0 && l != null
      invariant left <= bufLen && k <= |c| && l == Elem(c, k) && Parts(c) == parts
      invariant InStep(parts, Place(k, o), offset, bufLen - left, left)
      invariant |got| == bufLen - left && Stretch(Flatten(parts), offset, got)
      invariant buf[..] == Splice(old(buf[..]), 0, got)
      decreases |c| - k
    {
      Linked(c, k);
      StepsOn(parts, Place(k, o), offset, |got|, left);
      var tmp := if left > l.data.Length - o then l.data.Length - o else left;
      ghost var more := l.data[o..o + tmp];
      StretchGrows(Flatten(parts), offset, got, more);
      Append(buf, bufLen - left, l.data[o..o + tmp], old(buf[..]), got);
      got := got + more;
      left := left - tmp;
      l := l.next;
      o := 0;
      k := k + 1;
    }
    n := bufLen - left;
    StepsEnd(parts, Place(k, o), offset, n, left);
    StretchIsRead(Flatten(parts), offset, got, bufLen);
  }

  /** The bytes are those at off; nothing is said about no bytes. */
  ghost predicate Stretch(s: seq<byte>, off: nat, got: seq<byte>) {
    |got| > 0 ==> off + |got| <= |s| && got == s[off..off + |got|]
  }

  lemma StretchEmpty(s: seq<byte>, off: nat)
    ensures Stretch(s, off, [])
  {
  }

  lemma StretchIsRead(s: seq<byte>, off: nat, got: seq<byte>, n: nat)
    requires Stretch(s, off, got) && |got| == RoomAt(s, off, n)
    ensures got == ReadAt(s, off, n)
  {
  }

  lemma StretchGrows(s: seq<byte>, off: nat, got: seq<byte>, more: seq<byte>)
    requires Stretch(s, off, got) && off + |got| + |more| <= |s| && more == s[off + |got|..off + |got| + |more|]
    ensures Stretch(s, off, got + more)
  {
  }

  lemma StepsBegin(parts: seq<seq<byte>>, p: Place, offset: nat, wanted: nat)
    requires p == Locate(parts, 0, offset)
    ensures InStep(parts, p, offset, 0, wanted)
  {
  }

  /** `done` of the bytes at offset were handled, and if more are wanted the next one is at the place. */
  ghost predicate InStep(parts: seq<seq<byte>>, p: Place, offset: nat, done: nat, left: nat) {
    && p.part <= |parts|
    && (done > 0 ==> offset + done <= |Flatten(parts)|)
    && (left > 0 ==> Normal(parts, p) && Position(parts, p) == offset + done)
  }

  /** One step of a loop over the chunks: as much as is wanted, or up to the chunk's end. */
  lemma StepsOn(parts: seq<seq<byte>>, p: Place, offset: nat, done: nat, left: nat)
    requires InStep(parts, p, offset, done, left) && left > 0 && p.part < |parts|
    ensures var n := Smaller(left, |parts[p.part]| - p.offset);
            && (NoneEmpty(parts) ==> InStep(parts, Place(p.part + 1, 0), offset, done + n, left - n))
            && p.offset < |parts[p.part]| && offset + done + n <= |Flatten(parts)|
            && Position(parts, p) == offset + done
            && Flatten(parts)[offset + done..offset + done + n] == parts[p.part][p.offset..p.offset + n]
  {
    var n := Smaller(left, |parts[p.part]| - p.offset);
    PartSlice(parts, p.part, p.offset, p.offset + n);
  }

  /** When the loop ends, all that was wanted and there was handled. */
  lemma StepsEnd(parts: seq<seq<byte>>, p: Place, offset: nat, done: nat, left: nat)
    requires InStep(parts, p, offset, done, left) && (left == 0 || p.part == |parts|)
    ensures done == RoomAt(Flatten(parts), offset, done + left)
  {
    if left > 0 {
      NormalAtEnd(parts, p);
      TotalLength(parts);
    }
  }

  lemma InStepSame(parts: seq<seq<byte>>, parts': seq<seq<byte>>, p: Place, offset: nat, done: nat, left: nat)
    requires InStep(parts, p, offset, done, left)
    requires |parts'| == |parts| && forall i :: 0 <= i < |parts| ==> |parts'[i]| == |parts[i]|
    ensures InStep(parts', p, offset, done, left)
  {
    BeforeSame(parts, parts', p.part);
    BeforeSame(parts, parts', |parts|);
    TotalLength(parts);
    TotalLength(parts');
  }

  /** Writes data into chunk k of the vector. */
  method PutInto(l: IovChunk, o: nat, data: seq<byte>, ghost c: seq<IovChunk>, ghost k: nat)
    requires Chain(c) && k < |c| && l == c[k] && o + |data| <= l.data.Length
    modifies l.data
    ensures |Parts(c)[k]| == |old(Parts(c)[k])| && o + |data| <= |old(Parts(c)[k])|
    ensures Before(old(Parts(c)), k) + o + |data| <= |old(Flat(c))|
    ensures Parts(c) == old(Parts(c))[k := Splice(old(Parts(c)[k]), o, data)]
    ensures Flat(c) == Splice(old(Flat(c)), Before(old(Parts(c)), k) + o, data)
  {
    hide Parts, Before, Flatten, Splice;
    ghost var parts := Parts(c);
    AllPartsAt(c);
    PartSplice(parts, k, o, data);
    MemCpy(data, l.data, o);
    AllPartsAt(c);
    assert forall i :: 0 <= i < |c| && i != k ==> Parts(c)[i] == parts[i];
    assert Parts(c) == parts[k := Splice(parts[k], o, data)];
  }

  lemma AllPartsAt(c: seq<IovChunk>)
    ensures forall i :: 0 <= i < |c| ==> Parts(c)[i] == c[i].data[..]
  {
    forall i | 0 <= i < |c|
      ensures Parts(c)[i] == c[i].data[..]
    {
      PartsAt(c, i);
    }
  }

  /** The data is at off now; nothing changed if there is none. */
  ghost predicate Put(now: seq<byte>, was: seq<byte>, off: nat, data: seq<byte>) {
    if |data| == 0 then now == was else off + |data| <= |was| && now == Splice(was, off, data)
  }

  lemma PutGrows(now: seq<byte>, was: seq<byte>, off: nat, data: seq<byte>, more: seq<byte>)
    requires Put(now, was, off, data) && off + |data| + |more| <= |was| == |now|
    ensures Put(Splice(now, off + |data|, more), was, off, data + more)
  {
    if |data| > 0 {
      SpliceNext(was, off, data, more);
    } else {
      assert data + more == more;
      if |more| == 0 {
        SpliceNothing(now, off);
      }
    }
  }

  lemma PutIsWrite(now: seq<byte>, was: seq<byte>, off: nat, data: seq<byte>, n: nat)
    requires n == RoomAt(was, off, |data|) && Put(now, was, off, data[..n])
    ensures now == WriteAt(was, off, data)
  {
    if off < |was| && n == 0 {
      SpliceNothing(was, off);
    }
  }

  /** Writes up to 255 bytes at an offset. */
  method ShortWrite(list: IovChunk?, offset: nat, buf: array?<byte>, bufLen: byte, ghost c: seq<IovChunk>)
    returns (n: byte)
    requires Chain(c) && list == Elem(c, 0)
    requires buf != null ==> bufLen <= buf.Length && buf !in Memory(c)
    modifies Memory(c)
    ensures n == if buf == null then 0 else RoomAt(old(Flat(c)), offset, bufLen)
    ensures buf == null ==> Flat(c) == old(Flat(c))
    ensures buf != null ==> Flat(c) == WriteAt(old(Flat(c)), offset, buf[..bufLen])
  {
    hide Parts, Before, Flatten, Splice, InStep, Put, Chain, NoneEmpty, WriteAt, Locate;
    if buf == null {
      return 0;
    }
    ghost var data, flat := buf[..bufLen], Flat(c);
    var l: IovChunk?, o: nat;
    ghost var k: nat;
    l, o, k := Seek(list, offset, c);
    var left: byte := bufLen;
    StepsBegin(Parts(c), Place(k, o), offset, bufLen);
    PutNothing(flat, offset, data);
    while left > 0 && l != null
      invariant left <= bufLen && k <= |c| && l == Elem(c, k) && Chain(c) && buf[..bufLen] == data
      invariant InStep(Parts(c), Place(k, o), offset, bufLen - left, left)
      invariant Put(Flat(c), flat, offset, data[..bufLen - left]) && |Flat(c)| == |flat|
      decreases |c| - k
    {
      Linked(c, k);
      ghost var done, parts := bufLen - left, Parts(c);
      StepsOn(parts, Place(k, o), offset, done, left);
      var tmp := if left > l.data.Length - o then l.data.Length - o else left;
      PutMoreInto(l, o, buf, bufLen - left, tmp, c, k, flat, offset, data);
      InStepSame(parts, Parts(c), Place(k + 1, 0), offset, done + tmp, left - tmp);
      left := left - tmp;
      l := l.next;
      o := 0;
      k := k + 1;
    }
    n := bufLen - left;
    StepsEnd(Parts(c), Place(k, o), offset, n, left);
    PutIsWrite(Flat(c), flat, offset, data, n);
  }

  lemma PutNothing(flat: seq<byte>, off: nat, data: seq<byte>)
    ensures Put(flat, flat, off, data[..0])
  {
  }

  // ---------------------------------------------------------------------------
  // Comparing
  // ---------------------------------------------------------------------------

  /** The difference of two bytes in a signed 8-bit integer. */
  function Difference(a: byte, b: byte): (d: int)
    ensures -0x80 <= d < 0x80
    ensures d == 0 <==> a == b
  {
    (a - b + 0x80) % 0x100 - 0x80
  }

  /** The sign of a difference tells the order of the bytes exactly when they are less than
      half the range apart, or when a is half the range below b. */
  lemma SignIsOrderIff(a: byte, b: byte)
    requires a != b
    ensures (Difference(a, b) < 0 <==> a < b) <==> -0x80 <= a - b < 0x80
  {
  }

  /** The first difference between two sequences; when there is none, the shorter one comes first. */
  function Order(s: seq<byte>, t: seq<byte>): (d: int)
    ensures d == 0 <==> s == t
  {
    if |s| == 0 || |t| == 0 then
      if |s| == |t| then 0 else if |s| == 0 then -1 else 1
    else if Difference(s[0], t[0]) != 0 then Difference(s[0], t[0])
    else
      assert s == [s[0]] + s[1..] && t == [t[0]] + t[1..];
      Order(s[1..], t[1..])
  }

  lemma {:induction false} OrderSkips(s: seq<byte>, t: seq<byte>, n: nat)
    requires n <= |s| && n <= |t| && s[..n] == t[..n]
    ensures Order(s, t) == Order(s[n..], t[n..])
    decreases n
  {
    if n == 0 {
      assert s[0..] == s && t[0..] == t;
    } else {
      assert s[..n][0] == s[0] && t[..n][0] == t[0];
      assert s[1..][..n - 1] == s[..n][1..] && t[1..][..n - 1] == t[..n][1..];
      OrderSkips(s[1..], t[1..], n - 1);
      assert s[1..][n - 1..] == s[n..] && t[1..][n - 1..] == t[n..];
    }
  }

  lemma {:induction false} OrderDecided(s: seq<byte>, t: seq<byte>, n: nat)
    requires n <= |s| && n <= |t| && s[..n] != t[..n]
    ensures Order(s, t) == Order(s[..n], t[..n])
    decreases n
  {
    assert n > 0 && s[..n][0] == s[0] && t[..n][0] == t[0];
    if s[0] == t[0] {
      assert s[..n] == [s[0]] + s[..n][1..] && t[..n] == [t[0]] + t[..n][1..];
      assert s[1..][..n - 1] == s[..n][1..] && t[1..][..n - 1] == t[..n][1..];
      OrderDecided(s[1..], t[1..], n - 1);
    }
  }

  /** What is compared after an equal beginning decides, if it differs. */
  lemma {:induction false} OrderFrom(s: seq<byte>, t: seq<byte>, done: nat, m: nat)
    requires done + m <= |s| && done + m <= |t| && s[..done] == t[..done]
    requires s[done..done + m] != t[done..done + m]
    ensures Order(s, t) == Order(s[done..done + m], t[done..done + m])
  {
    hide Order;
    OrderSkips(s, t, done);
    assert s[done..][..m] == s[done..done + m] && t[done..][..m] == t[done..done + m];
    OrderDecided(s[done..], t[done..], m);
  }

  lemma OrderOfPrefix(s: seq<byte>, t: seq<byte>)
    requires s <= t || t <= s
    ensures Order(s, t) == if |s| == |t| then 0 else if |s| < |t| then -1 else 1
  {
    var n := Smaller(|s|, |t|);
    assert s[..n] == t[..n];
    OrderSkips(s, t, n);
  }

  method ShortMemCmp(s: seq<byte>, t: seq<byte>) returns (d: int)
    requires |s| == |t|
    ensures d == Order(s, t)
  {
    for i := 0 to |s|
      invariant Order(s, t) == Order(s[i..], t[i..])
    {
      var tmp := Difference(s[i], t[i]);
      if tmp != 0 {
        return tmp;
      }
    }
    d := 0;
  }

  /** Compares up to 255 bytes at an offset, or as many as there are, with a buffer. */
  method ShortCompare(list: IovChunk?, offset: nat, buf: array?<byte>, bufLen: byte, ghost c: seq<IovChunk>)
    returns (d: int)
    requires Chain(c) && list == Elem(c, 0)
    requires buf != null ==> bufLen <= buf.Length
    ensures d == if buf == null then 0 else Order(ReadAt(Flat(c), offset, bufLen), buf[..bufLen])
  {
    hide Parts, Before, Flatten, InStep, Stretch, Chain, NoneEmpty, Order, ReadAt, RoomAt, Locate;
    if buf == null {
      return 0;
    }
    var l: IovChunk?, o: nat;
    ghost var k: nat;
    l, o, k := Seek(list, offset, c);
    var left: byte := bufLen;
    ghost var data, parts := buf[..bufLen], Parts(c);
    StepsBegin(parts, Place(k, o), offset, bufLen);
    StretchEmpty(Flatten(parts), offset);
    assert data[..0] == [];
    while left > 0 && l != null
      invariant left <= bufLen && k <= |c| && l == Elem(c, k) && Parts(c) == parts && buf[..bufLen] == data
      invariant InStep(parts, Place(k, o), offset, bufLen - left, left)
      invariant Stretch(Flatten(parts), offset, data[..bufLen - left])
      decreases |c| - k
    {
      Linked(c, k);
      CompareStep(parts, Place(k, o), offset, data, bufLen - left);
      var tmp := if left > l.data.Length - o then l.data.Length - o else left;
      d := ShortMemCmp(l.data[..][o..o + tmp], buf[..bufLen][bufLen - left..bufLen - left + tmp]);
      if d != 0 {
        return;
      }
      left := left - tmp;
      l := l.next;
      o := 0;
      k := k + 1;
    }
    StepsEnd(parts, Place(k, o), offset, bufLen - left, left);
    Compared(Flatten(parts), offset, data, bufLen - left);
    d := if left == 0 then 0 else -1;
  }

  lemma {:induction false} CompareStep(parts: seq<seq<byte>>, p: Place, offset: nat, data: seq<byte>, done: nat)
    requires done < |data| && p.part < |parts| && InStep(parts, p, offset, done, |data| - done)
    requires Stretch(Flatten(parts), offset, data[..done])
    ensures p.offset < |parts[p.part]|
    ensures var n := Smaller(|data| - done, |parts[p.part]| - p.offset);
            var there, here := parts[p.part][p.offset..p.offset + n], data[done..done + n];
            && (NoneEmpty(parts) ==> InStep(parts, Place(p.part + 1, 0), offset, done + n, |data| - done - n))
            && (there != here ==> Order(ReadAt(Flatten(parts), offset, |data|), data) == Order(there, here))
            && (there == here ==> Stretch(Flatten(parts), offset, data[..done + n]))
  {
    hide Flatten, Stretch, NoneEmpty, InStep, ReadAt, Before, Position, Order;
    StepsOn(parts, p, offset, done, |data| - done);
    var n := Smaller(|data| - done, |parts[p.part]| - p.offset);
    Compares(Flatten(parts), offset, data, done, n);
  }

  lemma {:induction false} Compares(s: seq<byte>, off: nat, data: seq<byte>, done: nat, n: nat)
    requires done + n <= |data| && off + done + n <= |s| && Stretch(s, off, data[..done])
    ensures s[off + done..off + done + n] == data[done..done + n] ==> Stretch(s, off, data[..done + n])
    ensures s[off + done..off + done + n] != data[done..done + n] ==>
              Order(ReadAt(s, off, |data|), data) == Order(s[off + done..off + done + n], data[done..done + n])
  {
    hide Order, ReadAt, Stretch;
    if s[off + done..off + done + n] == data[done..done + n] {
      StretchTo(s, off, data, done, n);
    } else {
      Differs(s, off, data, done, n);
    }
  }

  lemma StretchTo(s: seq<byte>, off: nat, data: seq<byte>, done: nat, n: nat)
    requires done + n <= |data| && off + done + n <= |s| && Stretch(s, off, data[..done])
    requires s[off + done..off + done + n] == data[done..done + n]
    ensures Stretch(s, off, data[..done + n])
  {
    hide Stretch;
    var here := data[done..done + n];
    StretchGrows(s, off, data[..done], here);
    assert data[..done] + here == data[..done + n];
  }

  lemma StretchAgrees(s: seq<byte>, off: nat, data: seq<byte>, done: nat)
    requires done <= |data| && Stretch(s, off, data[..done])
    ensures Agree(s, off, data, 0, done) && ReadAt(data, 0, |data|) == data
  {
    assert data[..done] == data[0..done];
  }

  lemma {:induction false} Differs(s: seq<byte>, off: nat, data: seq<byte>, done: nat, m: nat)
    requires done + m <= |data| && off + done + m <= |s| && Stretch(s, off, data[..done])
    requires s[off + done..off + done + m] != data[done..done + m]
    ensures Order(ReadAt(s, off, |data|), data) == Order(s[off + done..off + done + m], data[done..done + m])
  {
    hide Order, ReadAt, Stretch, Agree;
    StretchAgrees(s, off, data, done);
    AgreeNoMore(s, off, data, 0, done, m, |data|);
  }

  lemma SliceOfSlice(s: seq<byte>, a: nat, b: nat, i: nat, j: nat)
    requires a <= b <= |s| && i <= j <= b - a
    ensures s[a..b][i..j] == s[a + i..a + j]
  {
    var l, r := s[a..b][i..j], s[a + i..a + j];
    forall x | 0 <= x < |l|
      ensures l[x] == r[x]
    {
      assert s[a..b][i + x] == s[a + i + x];
    }
  }

  lemma {:induction false} Compared(s: seq<byte>, off: nat, data: seq<byte>, done: nat)
    requires done <= |data| && done == RoomAt(s, off, |data|) && Stretch(s, off, data[..done])
    ensures Order(ReadAt(s, off, |data|), data) == if done == |data| then 0 else -1
  {
    hide Order;
    assert data[..|data|] == data;
    assert ReadAt(s, off, |data|) == data[..done];
    OrderOfPrefix(data[..done], data);
  }

  // ---------------------------------------------------------------------------
  // Iterators
  // ---------------------------------------------------------------------------

  class IovIter {
    var currElem: IovChunk?
    var offset: nat

    /** The iterator is at the place; it is valid when that is before the end. */
    ghost predicate At(c: seq<IovChunk>, p: Place)
      reads this
    {
      p.part <= |c| && currElem == Elem(c, p.part) && offset == p.offset
    }

    /** Moves the iterator; returns by how much. */
    method MoveForward(n: nat, ghost c: seq<IovChunk>, ghost p: Place) returns (res: nat)
      requires Chain(c) && At(c, p) && Normal(Parts(c), p)
      modifies this
      ensures res == RoomAt(Flat(c), Position(Parts(c), p), n)
      ensures At(c, if p.part == |c| then p else Locate(Parts(c), p.part, p.offset + n))
    {
      hide Parts, Before, Flatten, Chain, Locate;
      NormalAtEnd(Parts(c), p);
      var l := currElem;
      if l == null {
        return 0;
      }
      ghost var parts := Parts(c);
      ForwardStep(parts, p.part, p.offset + n);
      Linked(c, p.part);
      PartSlice(parts, p.part, 0, 0);
      var tmp := l.data.Length - offset;
      if tmp > n {
        offset := offset + n;
        res := n;
      } else {
        var rem: nat := n - tmp;
        res := tmp;
        l := l.next;
        ghost var k: nat := p.part + 1;
        while l != null && rem >= l.data.Length
          invariant k <= |c| && l == Elem(c, k) && Parts(c) == parts && At(c, p)
          invariant Locate(parts, k, rem) == Locate(parts, p.part, p.offset + n)
          invariant res + rem == n && Position(parts, p) + res == Before(parts, k)
          decreases |c| - k
        {
          Linked(c, k);
          ForwardStep(parts, k, rem);
          rem := rem - l.data.Length;
          res := res + l.data.Length;
          l := l.next;
          k := k + 1;
        }
        if l != null {
          Linked(c, k);
          PartSlice(parts, k, 0, 0);
          res := res + rem;
        } else {
          TotalLength(parts);
        }
        ForwardStep(parts, k, rem);
        currElem := l;
        offset := rem;
      }
    }

    /** Moves the iterator back; returns by how much.  Moved past the beginning it is invalid. */
    method MoveBackward(n: nat, ghost c: seq<IovChunk>, ghost p: Place) returns (res: nat, ghost q: Place)
      requires Chain(c) && At(c, p) && Normal(Parts(c), p)
      modifies this
      ensures At(c, q)
      ensures if p.part == |c| then res == 0 && q == p
              else if n <= Position(Parts(c), p) then
                res == n && q.part < |c| && Normal(Parts(c), q) && Position(Parts(c), q) == Position(Parts(c), p) - n
              else res == Position(Parts(c), p) && q == Place(|c|, p.offset)
    {
      hide Parts, Flatten, Chain;
      q := p;
      var l := currElem;
      if l == null {
        return 0, p;
      }
      ghost var parts := Parts(c);
      Linked(c, p.part);
      if offset >= n {
        offset := offset - n;
        return n, Place(p.part, p.offset - n);
      }
      var rem: nat := n - offset;
      res := offset;
      l := l.prev;
      ghost var k: nat := p.part;
      while l != null && rem > l.data.Length
        invariant k <= |c| && l == (if k > 0 then c[k - 1] else null) && Parts(c) == parts && At(c, p)
        invariant res + rem == n && rem > 0 && Position(parts, p) == res + Before(parts, k)
        decreases k
      {
        Linked(c, k - 1);
        rem := rem - l.data.Length;
        res := res + l.data.Length;
        l := l.prev;
        k := k - 1;
      }
      if l != null {
        Linked(c, k - 1);
        res := res + rem;
        offset := l.data.Length - rem;
        q := Place(k - 1, offset);
      } else {
        q := Place(|c|, p.offset);
      }
      currElem := l;
    }

    /** Reads up to bufLen bytes and moves past them. */
    method ReadAndMoveForward(buf: array?<byte>, bufLen: nat, ghost c: seq<IovChunk>, ghost p: Place)
      returns (res: nat, ghost q: Place)
      requires Chain(c) && At(c, p) && Normal(Parts(c), p)
      requires buf != null ==> bufLen <= buf.Length && buf !in Memory(c)
      modifies this, buf
      ensures Parts(c) == old(Parts(c)) && At(c, q) && Normal(Parts(c), q)
      ensures res == if buf == null then 0 else RoomAt(Flat(c), Position(Parts(c), p), bufLen)
      ensures Position(Parts(c), q) == Position(Parts(c), p) + res
      ensures buf != null ==>
                buf[..] == Splice(old(buf[..]), 0, ReadAt(Flat(c), Position(Parts(c), p), bufLen))
    {
      hide Parts, Before, Flatten, Chain, Splice, Stretch, ReadAt, RoomAt, NoneEmpty;
      q := p;
      NormalAtEnd(Parts(c), p);
      if buf == null {
        return 0, p;
      }
      SpliceNothing(buf[..], 0);
      NothingRead(Flat(c), Position(Parts(c), p), bufLen);
      if bufLen == 0 {
        return 0, p;
      }
      var l := currElem;
      if l == null {
        return 0, p;
      }
      ghost var parts, pos := Parts(c), Position(Parts(c), p);
      Linked(c, p.part);
      var o := offset;
      res := l.data.Length - o;
      PartSlice(parts, p.part, o, o + Smaller(res, bufLen));
      if res > bufLen {
        res := bufLen;
        MemCpy(l.data[o..o + res], buf, 0);
        offset := o + res;
        ReadBytes(Flatten(parts), pos, bufLen, l.data[o..o + res]);
        return res, Place(p.part, p.offset + res);
      }
      ghost var was, got := buf[..], l.data[o..o + res];
      MemCpy(l.data[o..o + res], buf, 0);
      StretchOf(Flatten(parts), pos, got);
      ghost var k: nat;
      l, o, res, k, got := ReadOn(l.next, buf, bufLen, res, c, p.part + 1, pos, was, got);
      ReadEnds(parts, pos, got, bufLen, Place(k, o));
      q := Place(k, o);
      currElem := l;
      offset := o;
    }

    /** Writes up to bufLen bytes and moves past them. */
    method WriteAndMoveForward(buf: array?<byte>, bufLen: nat, ghost c: seq<IovChunk>, ghost p: Place)
      returns (res: nat, ghost q: Place)
      requires Chain(c) && At(c, p) && Normal(Parts(c), p)
      requires buf != null ==> bufLen <= buf.Length && buf !in Memory(c)
      modifies this, Memory(c)
      ensures At(c, q) && Normal(Parts(c), q)
      ensures res == if buf == null then 0 else RoomAt(old(Flat(c)), Position(old(Parts(c)), p), bufLen)
      ensures Position(Parts(c), q) == Position(old(Parts(c)), p) + res
      ensures Flat(c) == if buf == null then old(Flat(c))
                         else WriteAt(old(Flat(c)), Position(old(Parts(c)), p), buf[..bufLen])
    {
      hide Parts, Before, Flatten, Chain, Splice, Put, WriteAt, RoomAt, NoneEmpty;
      q := p;
      NormalAtEnd(Parts(c), p);
      if buf == null {
        return 0, p;
      }
      ghost var data, parts, flat, pos := buf[..bufLen], Parts(c), Flat(c), Position(Parts(c), p);
      NothingWritten(flat, pos, data);
      if bufLen == 0 {
        return 0, p;
      }
      var l := currElem;
      if l == null {
        return 0, p;
      }
      Linked(c, p.part);
      PartSlice(parts, p.part, 0, 0);
      var o := offset;
      res := l.data.Length - o;
      if res > bufLen {
        res := bufLen;
        PutMoreInto(l, o, buf, 0, res, c, p.part, flat, pos, data);
        offset := o + res;
        WriteEnds(Flat(c), flat, pos, data, res);
        return res, Place(p.part, p.offset + res);
      }
      PutMoreInto(l, o, buf, 0, res, c, p.part, flat, pos, data);
      ghost var k: nat;
      l, o, res, k := WriteOn(l.next, buf, bufLen, res, c, p.part + 1, flat, pos, data);
      q := Place(k, o);
      WriteEnds(Flat(c), flat, pos, data, res);
      currElem := l;
      offset := o;
    }

    /** Writes one byte; returns how many bytes the vector is too short for it. */
    method SerializeUInt8AndMoveForward(b: byte, ghost c: seq<IovChunk>, ghost p: Place)
      returns (lacking: nat, ghost q: Place)
      requires Chain(c) && At(c, p) && Normal(Parts(c), p)
      modifies this, Memory(c)
      ensures At(c, q) && Normal(Parts(c), q)
      ensures lacking == 1 - RoomAt(old(Flat(c)), Position(old(Parts(c)), p), 1)
      ensures Position(Parts(c), q) == Position(old(Parts(c)), p) + 1 - lacking
      ensures Flat(c) == WriteAt(old(Flat(c)), Position(old(Parts(c)), p), [b])
    {
      hide Parts, Before, Flatten, Chain, Splice, NoneEmpty;
      q := p;
      NormalAtEnd(Parts(c), p);
      var l := currElem;
      if l == null {
        return 1, p;
      }
      WrittenOnce(Flat(c), Position(Parts(c), p), b);
      NextPlace(c, p);
      Linked(c, p.part);
      currElem, offset, q := PutAndStep(l, offset, b, c, p.part);
      lacking := 0;
    }

    /** Writes two bytes, the high one first; returns how many bytes the vector is too short for
        them.  When it is one byte too short the high byte is written but the iterator stays. */
    method SerializeUInt16AndMoveForward(w: uint16, ghost c: seq<IovChunk>, ghost p: Place)
      returns (lacking: nat, ghost q: Place)
      requires Chain(c) && At(c, p) && Normal(Parts(c), p)
      modifies this, Memory(c)
      ensures At(c, q) && Normal(Parts(c), q)
      ensures lacking == 2 - RoomAt(old(Flat(c)), Position(old(Parts(c)), p), 2)
      ensures Position(Parts(c), q) == Position(old(Parts(c)), p) + if lacking == 0 then 2 else 0
      ensures Flat(c) == WriteAt(old(Flat(c)), Position(old(Parts(c)), p), [w / 0x100, w % 0x100])
    {
      hide Parts, Before, Flatten, Chain, Splice, NoneEmpty, WriteAt;
      q := p;
      NormalAtEnd(Parts(c), p);
      var l := currElem;
      var high: byte, low: byte := w / 0x100, w % 0x100;
      ghost var parts := Parts(c);
      WrittenTwice(Flat(c), Position(parts, p), high, low);
      if l == null {
        return 2, p;
      }
      Linked(c, p.part);
      NextPlace(c, p);
      var o := offset;
      ghost var k := p.part;
      PutByteInto(l, o, high, c, p.part);
      if l.data.Length >= o + 2 {
        o := o + 1;
      } else {
        o := 0;
        l := l.next;
        k := k + 1;
        if l == null {
          TotalLength(parts);
          return 1, p;
        }
        Linked(c, k);
      }
      currElem, offset, q := PutAndStep(l, o, low, c, k);
      lacking := 0;
    }
  }

  /** The place after p is in the same chunk or at the beginning of the next one. */
  lemma NextPlace(c: seq<IovChunk>, p: Place)
    requires Chain(c) && p.part < |c| && Normal(Parts(c), p)
    ensures var q := if p.offset + 1 < c[p.part].data.Length then Place(p.part, p.offset + 1) else Place(p.part + 1, 0);
            && Normal(Parts(c), q) && Position(Parts(c), q) == Position(Parts(c), p) + 1
            && Position(Parts(c), p) < |Flat(c)|
            && (q.part == |c| ==> Position(Parts(c), p) + 1 == |Flat(c)|)
            && (q.part < |c| ==> Position(Parts(c), p) + 2 <= |Flat(c)|)
  {
    hide Chain, Flatten;
    Linked(c, p.part);
    TotalLength(Parts(c));
    PartSlice(Parts(c), p.part, 0, 0);
    if p.part + 1 < |c| {
      Linked(c, p.part + 1);
      PartSlice(Parts(c), p.part + 1, 0, 0);
    }
  }

  /** Writes one byte into chunk k. */
  method PutByteInto(l: IovChunk, o: nat, b: byte, ghost c: seq<IovChunk>, ghost k: nat)
    requires Chain(c) && k < |c| && l == c[k] && o < l.data.Length
    modifies l.data
    ensures Before(old(Parts(c)), k) + o < |old(Flat(c))|
    ensures Flat(c) == Splice(old(Flat(c)), Before(old(Parts(c)), k) + o, [b])
    ensures forall j :: 0 <= j <= |c| ==> Before(Parts(c), j) == Before(old(Parts(c)), j)
    ensures forall j :: 0 <= j < |c| ==> |Parts(c)[j]| == |old(Parts(c))[j]|
  {
    hide Parts, Before, Flatten, Splice, Chain;
    ghost var was := Parts(c);
    PutInto(l, o, [b], c, k);
    SameShape(was, Parts(c));
  }

  /** Writes one byte at a place and steps to the next place. */
  method PutAndStep(list: IovChunk, offset: nat, b: byte, ghost c: seq<IovChunk>, ghost k: nat)
    returns (l: IovChunk?, o: nat, ghost q: Place)
    requires Chain(c) && k < |c| && list == c[k] && offset < list.data.Length
    modifies list.data
    ensures Before(old(Parts(c)), k) + offset < |old(Flat(c))|
    ensures Flat(c) == Splice(old(Flat(c)), Before(old(Parts(c)), k) + offset, [b])
    ensures forall j :: 0 <= j <= |c| ==> Before(Parts(c), j) == Before(old(Parts(c)), j)
    ensures q.part <= |c| && l == Elem(c, q.part) && o == q.offset && Normal(Parts(c), q)
    ensures Position(Parts(c), q) == Before(Parts(c), k) + offset + 1
  {
    hide Parts, Before, Flatten, Splice, Chain;
    Linked(c, k);
    PutByteInto(list, offset, b, c, k);
    NextPlace(c, Place(k, offset));
    l, o := list, offset + 1;
    q := if offset + 1 < list.data.Length then Place(k, offset + 1) else Place(k + 1, 0);
    if o >= l.data.Length {
      o := 0;
      l := l.next;
    }
  }

  lemma WrittenOnce(s: seq<byte>, off: nat, b: byte)
    requires off < |s|
    ensures WriteAt(s, off, [b]) == Splice(s, off, [b])
  {
    assert [b][..1] == [b];
  }

  /** Writing two bytes one after the other, as far as there is room. */
  lemma WrittenTwice(s: seq<byte>, off: nat, a: byte, b: byte)
    ensures off >= |s| ==> WriteAt(s, off, [a, b]) == s
    ensures off + 1 == |s| ==> WriteAt(s, off, [a, b]) == Splice(s, off, [a])
    ensures off + 2 <= |s| ==> WriteAt(s, off, [a, b]) == Splice(Splice(s, off, [a]), off + 1, [b])
  {
    if off + 1 == |s| {
      assert [a, b][..1] == [a];
    }
    if off + 2 <= |s| {
      SpliceNext(s, off, [a], [b]);
      assert [a, b][..2] == [a] + [b];
    }
  }

  lemma NothingWritten(s: seq<byte>, off: nat, data: seq<byte>)
    ensures |data| == 0 || off >= |s| ==> WriteAt(s, off, data) == s && RoomAt(s, off, |data|) == 0
    ensures Put(s, s, off, data[..0])
  {
  }

  /** Parts of the same lengths have the same places. */
  lemma SameShape(parts: seq<seq<byte>>, parts': seq<seq<byte>>)
    requires |parts| == |parts'| && forall i :: 0 <= i < |parts| ==> |parts[i]| == |parts'[i]|
    ensures forall j :: 0 <= j <= |parts| ==> Before(parts', j) == Before(parts, j)
    ensures |Flatten(parts')| == |Flatten(parts)|
  {
    forall j | 0 <= j <= |parts|
      ensures Before(parts', j) == Before(parts, j)
    {
      BeforeSame(parts, parts', j);
    }
    TotalLength(parts);
    TotalLength(parts');
  }

  lemma PutMore(now: seq<byte>, was: seq<byte>, off: nat, data: seq<byte>, done: nat, n: nat)
    requires done + n <= |data| && Put(now, was, off, data[..done]) && off + done + n <= |was| == |now|
    ensures Put(Splice(now, off + done, data[done..done + n]), was, off, data[..done + n])
  {
    hide Put;
    PutGrows(now, was, off, data[..done], data[done..done + n]);
    assert data[..done] + data[done..done + n] == data[..done + n];
  }

  /** Writes n more bytes of the buffer into chunk k. */
  method PutMoreInto(l: IovChunk, o: nat, buf: array<byte>, at: nat, n: nat, ghost c: seq<IovChunk>, ghost k: nat,
                     ghost flat: seq<byte>, ghost pos: nat, ghost data: seq<byte>)
    requires Chain(c) && k < |c| && l == c[k] && o + n <= l.data.Length && buf !in Memory(c)
    requires at + n <= |data| <= buf.Length && buf[..|data|] == data
    requires Put(Flat(c), flat, pos, data[..at]) && |Flat(c)| == |flat| && Before(Parts(c), k) + o == pos + at
    modifies l.data
    ensures Put(Flat(c), flat, pos, data[..at + n]) && |Flat(c)| == |flat| && pos + at + n <= |flat|
    ensures forall j :: 0 <= j <= |c| ==> Before(Parts(c), j) == Before(old(Parts(c)), j)
    ensures forall j :: 0 <= j < |c| ==> |Parts(c)[j]| == |old(Parts(c))[j]|
    ensures buf[..|data|] == data
  {
    hide Parts, Before, Flatten, Splice, Put, Chain;
    ghost var now := Parts(c);
    Linked(c, k);
    PartSlice(now, k, o, o + n);
    PutMore(Flat(c), flat, pos, data, at, n);
    assert buf[..|data|][at..at + n] == buf[at..at + n];
    PutInto(l, o, buf[at..at + n], c, k);
    SameShape(now, Parts(c));
  }

  /** Goes on writing at the beginning of chunk k. */
  method WriteOn(list: IovChunk?, buf: array<byte>, bufLen: nat, done: nat, ghost c: seq<IovChunk>, ghost first: nat,
                 ghost flat: seq<byte>, ghost pos: nat, ghost data: seq<byte>)
    returns (l: IovChunk?, o: nat, res: nat, ghost k: nat)
    requires Chain(c) && first <= |c| && list == Elem(c, first) && buf !in Memory(c)
    requires bufLen == |data| <= buf.Length && buf[..bufLen] == data
    requires 0 < done <= bufLen && Put(Flat(c), flat, pos, data[..done]) && |Flat(c)| == |flat|
    requires Before(Parts(c), first) == pos + done
    modifies Memory(c)
    ensures k <= |c| && l == Elem(c, k) && Normal(Parts(c), Place(k, o))
    ensures forall j :: 0 <= j <= |c| ==> Before(Parts(c), j) == Before(old(Parts(c)), j)
    ensures Position(Parts(c), Place(k, o)) == pos + res
    ensures 0 < res <= bufLen && pos + res <= |flat| && (res == bufLen || pos + res == |flat|)
    ensures Put(Flat(c), flat, pos, data[..res]) && buf[..bufLen] == data
  {
    hide Parts, Before, Flatten, Chain, Splice, Put, NoneEmpty;
    var left := bufLen - done;
    l, o, res, k := list, 0, done, first;
    BeforeAtMost(Parts(c), first);
    while l != null && left > 0
      invariant k <= |c| && l == Elem(c, k) && Chain(c) && buf[..bufLen] == data
      invariant forall j :: 0 <= j <= |c| ==> Before(Parts(c), j) == Before(old(Parts(c)), j)
      invariant o == 0 && res + left == bufLen && Before(Parts(c), k) == pos + res
      invariant 0 < res <= bufLen && Put(Flat(c), flat, pos, data[..res]) && pos + res <= |Flat(c)| == |flat|
      decreases |c| - k
    {
      Linked(c, k);
      PartSlice(Parts(c), k, 0, 0);
      o := l.data.Length;
      if o > left {
        o := left;
        PutMoreInto(l, 0, buf, res, o, c, k, flat, pos, data);
        res := res + o;
        return;
      }
      PutMoreInto(l, 0, buf, res, o, c, k, flat, pos, data);
      res := res + o;
      left := left - o;
      l := l.next;
      o := 0;
      k := k + 1;
    }
    if k < |c| {
      Linked(c, k);
    }
    TotalLength(Parts(c));
  }

  lemma BeforeAtMost(parts: seq<seq<byte>>, k: nat)
    requires k <= |parts|
    ensures Before(parts, k) <= |Flatten(parts)|
  {
    BeforeGrows(parts, k, |parts|);
    TotalLength(parts);
  }

  lemma WriteEnds(now: seq<byte>, was: seq<byte>, off: nat, data: seq<byte>, n: nat)
    requires n <= |data| && Put(now, was, off, data[..n]) && 0 < n && off + n <= |was|
    requires n == |data| || off + n == |was|
    ensures now == WriteAt(was, off, data) && n == RoomAt(was, off, |data|)
  {
    PutIsWrite(now, was, off, data, n);
  }

  lemma NothingRead(s: seq<byte>, off: nat, n: nat)
    ensures n == 0 || off >= |s| ==> ReadAt(s, off, n) == [] && RoomAt(s, off, n) == 0
  {
  }

  lemma StretchOf(s: seq<byte>, off: nat, got: seq<byte>)
    requires off + |got| <= |s| && got == s[off..off + |got|]
    ensures Stretch(s, off, got)
  {
  }

  lemma ReadStep(parts: seq<seq<byte>>, k: nat, pos: nat, got: seq<byte>, n: nat)
    requires k < |parts| && Before(parts, k) == pos + |got| && |got| < n && Stretch(Flatten(parts), pos, got)
    ensures Stretch(Flatten(parts), pos, got + parts[k][..Smaller(|parts[k]|, n - |got|)])
  {
    hide Flatten, Stretch;
    var m := Smaller(|parts[k]|, n - |got|);
    PartSlice(parts, k, 0, m);
    StretchGrows(Flatten(parts), pos, got, parts[k][..m]);
  }

  /** Goes on reading at the beginning of chunk k. */
  method ReadOn(list: IovChunk?, buf: array<byte>, bufLen: nat, done: nat, ghost c: seq<IovChunk>, ghost first: nat,
                ghost pos: nat, ghost was: seq<byte>, ghost had: seq<byte>)
    returns (l: IovChunk?, o: nat, res: nat, ghost k: nat, ghost got: seq<byte>)
    requires Chain(c) && first <= |c| && list == Elem(c, first) && buf !in Memory(c)
    requires bufLen <= buf.Length == |was| && 0 < done == |had| <= bufLen
    requires Stretch(Flat(c), pos, had) && buf[..] == Splice(was, 0, had) && Before(Parts(c), first) == pos + done
    modifies buf
    ensures Parts(c) == old(Parts(c))
    ensures k <= |c| && l == Elem(c, k) && Normal(Parts(c), Place(k, o)) && Position(Parts(c), Place(k, o)) == pos + res
    ensures 0 < res == |got| <= bufLen && (res == bufLen || (k == |c| && o == 0))
    ensures Stretch(Flat(c), pos, got) && buf[..] == Splice(was, 0, got)
  {
    hide Parts, Before, Flatten, Chain, Splice, Stretch, NoneEmpty;
    var left := bufLen - done;
    ghost var parts := Parts(c);
    l, o, res, k, got := list, 0, done, first, had;
    while l != null && left > 0
      invariant k <= |c| && l == Elem(c, k) && Parts(c) == parts
      invariant o == 0 && res + left == bufLen && Before(parts, k) == pos + res
      invariant 0 < |got| == res <= bufLen && Stretch(Flatten(parts), pos, got)
      invariant buf[..] == Splice(was, 0, got)
      decreases |c| - k
    {
      Linked(c, k);
      ReadStep(parts, k, pos, got, bufLen);
      o := l.data.Length;
      if o > left {
        o := left;
        Append(buf, res, l.data[..][..o], was, got);
        got := got + l.data[..][..o];
        res := res + o;
        return;
      }
      Append(buf, res, l.data[..][..o], was, got);
      got := got + l.data[..][..o];
      res := res + o;
      left := left - o;
      l := l.next;
      o := 0;
      k := k + 1;
    }
    if k < |c| {
      Linked(c, k);
    }
  }

  /** Copies bytes behind those that are in the buffer. */
  method Append(buf: array<byte>, at: nat, more: seq<byte>, ghost was: seq<byte>, ghost got: seq<byte>)
    requires |got| == at && at + |more| <= |was| == buf.Length && buf[..] == Splice(was, 0, got)
    modifies buf
    ensures buf[..] == Splice(was, 0, got + more)
  {
    SpliceNext(was, 0, got, more);
    MemCpy(more, buf, at);
  }

  /** Reading stopped at the place because enough was read or because it is the end. */
  lemma ReadEnds(parts: seq<seq<byte>>, pos: nat, got: seq<byte>, n: nat, q: Place)
    requires q.part <= |parts| && Normal(parts, q) && Position(parts, q) == pos + |got| && |got| > 0
    requires |got| == n || (|got| < n && q == Place(|parts|, 0))
    requires Stretch(Flatten(parts), pos, got)
    ensures ReadAt(Flatten(parts), pos, n) == got && |got| == RoomAt(Flatten(parts), pos, n)
  {
    TotalLength(parts);
  }

  lemma ReadBytes(s: seq<byte>, off: nat, n: nat, got: seq<byte>)
    requires off + n <= |s| && 0 < n == |got| && got == s[off..off + n]
    ensures ReadAt(s, off, n) == got && RoomAt(s, off, n) == n
  {
  }

  lemma ForwardStep(parts: seq<seq<byte>>, k: nat, offset: nat)
    requires k <= |parts|
    ensures Locate(parts, k, offset)
            == if k == |parts| || offset < |parts[k]| then Place(k, offset)
               else Locate(parts, k + 1, offset - |parts[k]|)
  {
  }

  /** Moving back as far as one moved forward, without getting past the end, restores the place. */
  lemma MovingBackRestores(parts: seq<seq<byte>>, p: Place, n: nat, q: Place)
    requires p.part < |parts| && Normal(parts, p) && Locate(parts, p.part, p.offset + n).part < |parts|
    requires q.part < |parts| && Normal(parts, q)
    requires Position(parts, q) == Position(parts, Locate(parts, p.part, p.offset + n)) - n
    ensures q == p
  {
    NormalUnique(parts, p, q);
  }

  // ---------------------------------------------------------------------------
  // Two vectors
  // ---------------------------------------------------------------------------

  /** The place n bytes further on, for n up to the end of the chunk. */
  function Advance(parts: seq<seq<byte>>, p: Place, n: nat): (q: Place)
    requires p.part < |parts| && p.offset + n <= |parts[p.part]|
    ensures q.part <= |parts| && Position(parts, q) == Position(parts, p) + n
    ensures NoneEmpty(parts) ==> Normal(parts, q)
  {
    if p.offset + n == |parts[p.part]| then Place(p.part + 1, 0) else Place(p.part, p.offset + n)
  }

  /** The next `done` bytes of the two sequences are the same. */
  ghost predicate Agree(s: seq<byte>, a: nat, t: seq<byte>, b: nat, done: nat) {
    done > 0 ==> a + done <= |s| && b + done <= |t| && s[a..a + done] == t[b..b + done]
  }

  lemma AgreeMore(s: seq<byte>, a: nat, t: seq<byte>, b: nat, done: nat, m: nat)
    requires Agree(s, a, t, b, done) && a + done + m <= |s| && b + done + m <= |t|
    requires s[a + done..a + done + m] == t[b + done..b + done + m]
    ensures Agree(s, a, t, b, done + m)
  {
    var x, y := s[a + done..a + done + m], t[b + done..b + done + m];
    assert s[a..a + done + m] == s[a..a + done] + x && t[b..b + done + m] == t[b..b + done] + y;
  }

  lemma AgreeNoMore(s: seq<byte>, a: nat, t: seq<byte>, b: nat, done: nat, m: nat, n: nat)
    requires Agree(s, a, t, b, done) && a + done + m <= |s| && b + done + m <= |t| && done + m <= n
    requires s[a + done..a + done + m] != t[b + done..b + done + m]
    ensures Order(ReadAt(s, a, n), ReadAt(t, b, n)) == Order(s[a + done..a + done + m], t[b + done..b + done + m])
  {
    hide Order, ReadAt, Agree;
    ReadAtSlice(s, a, n, done, done + m);
    ReadAtSlice(t, b, n, done, done + m);
    AgreeReads(s, a, t, b, done, n);
    OrderFrom(ReadAt(s, a, n), ReadAt(t, b, n), done, m);
  }

  lemma {:induction false} AgreeOrNot(s: seq<byte>, a: nat, t: seq<byte>, b: nat, done: nat, m: nat, n: nat)
    requires Agree(s, a, t, b, done) && a + done + m <= |s| && b + done + m <= |t| && done + m <= n
    ensures s[a + done..a + done + m] == t[b + done..b + done + m] ==> Agree(s, a, t, b, done + m)
    ensures s[a + done..a + done + m] != t[b + done..b + done + m] ==>
              Order(ReadAt(s, a, n), ReadAt(t, b, n)) == Order(s[a + done..a + done + m], t[b + done..b + done + m])
  {
    hide Order, ReadAt, Agree;
    if s[a + done..a + done + m] == t[b + done..b + done + m] {
      AgreeMore(s, a, t, b, done, m);
    } else {
      AgreeNoMore(s, a, t, b, done, m, n);
    }
  }

  lemma ReadAtSlice(s: seq<byte>, off: nat, n: nat, i: nat, j: nat)
    requires i <= j <= n && off + j <= |s|
    ensures j <= |ReadAt(s, off, n)| && ReadAt(s, off, n)[i..j] == s[off + i..off + j]
  {
    if i < j {
      SliceOfSlice(s, off, off + |ReadAt(s, off, n)|, i, j);
    }
  }

  lemma AgreeReads(s: seq<byte>, a: nat, t: seq<byte>, b: nat, done: nat, n: nat)
    requires Agree(s, a, t, b, done) && done <= n
    ensures done <= |ReadAt(s, a, n)| && done <= |ReadAt(t, b, n)|
    ensures ReadAt(s, a, n)[..done] == ReadAt(t, b, n)[..done]
  {
    if done > 0 {
      ReadAtSlice(s, a, n, 0, done);
      ReadAtSlice(t, b, n, 0, done);
      assert ReadAt(s, a, n)[..done] == ReadAt(s, a, n)[0..done] && ReadAt(t, b, n)[..done] == ReadAt(t, b, n)[0..done];
    }
  }

  /** Where both places stop, because enough was compared or one vector ends. */
  lemma AgreeEnds(s: seq<byte>, a: nat, t: seq<byte>, b: nat, done: nat, n: nat)
    requires Agree(s, a, t, b, done) && done <= n
    requires done == n || a + done >= |s| || b + done >= |t|
    ensures Order(ReadAt(s, a, n), ReadAt(t, b, n))
            == if done == n then 0 else if a + done < |s| then 1 else if b + done < |t| then -1 else 0
  {
    hide Order;
    AgreeReads(s, a, t, b, done, n);
    var x, y := ReadAt(s, a, n), ReadAt(t, b, n);
    assert done == n || a + done >= |s| ==> |x| == done && x[..done] == x;
    assert done == n || b + done >= |t| ==> |y| == done && y[..done] == y;
    assert x <= y || y <= x;
    OrderOfPrefix(x, y);
  }

  /** Compares stretches of two vectors, or as much of them as there is. */
  method Compare(list1: IovChunk?, list2: IovChunk?, offset1: nat, offset2: nat, length: nat,
                 ghost c1: seq<IovChunk>, ghost c2: seq<IovChunk>)
    returns (d: int)
    requires Chain(c1) && list1 == Elem(c1, 0) && Chain(c2) && list2 == Elem(c2, 0)
    ensures d == Order(ReadAt(Flat(c1), offset1, length), ReadAt(Flat(c2), offset2, length))
  {
    hide Parts, Flatten, Chain, ReadAt, Locate, Position, Order;
    var l1: IovChunk?, o1: nat, l2: IovChunk?, o2: nat;
    ghost var k1: nat, k2: nat;
    assert forall a :: a in Memory(c1) + Memory(c2) ==> allocated(a);
    ghost var ps, pt := Parts(c1), Parts(c2);
    l1, o1, k1 := Seek(list1, offset1, c1);
    assert Parts(c1) == ps;
    LocatedAt(ps, Place(k1, o1), offset1);
    l2, o2, k2 := Seek(list2, offset2, c2);
    assert Parts(c1) == ps && Parts(c2) == pt;
    LocatedAt(pt, Place(k2, o2), offset2);
    d := CompareFrom(l1, o1, l2, o2, length, c1, k1, c2, k2, offset1, offset2);
    assert Parts(c1) == ps && Parts(c2) == pt;
  }

  /** Compares from two places on. */
  method CompareFrom(first1: IovChunk?, start1: nat, first2: IovChunk?, start2: nat, length: nat,
                     ghost c1: seq<IovChunk>, ghost i1: nat, ghost c2: seq<IovChunk>, ghost i2: nat,
                     ghost offset1: nat, ghost offset2: nat)
    returns (d: int)
    requires Chain(c1) && i1 <= |c1| && first1 == Elem(c1, i1) && Chain(c2) && i2 <= |c2| && first2 == Elem(c2, i2)
    requires Normal(Parts(c1), Place(i1, start1)) && Position(Parts(c1), Place(i1, start1)) == offset1
    requires Normal(Parts(c2), Place(i2, start2)) && Position(Parts(c2), Place(i2, start2)) == offset2
    ensures d == Order(ReadAt(Flat(c1), offset1, length), ReadAt(Flat(c2), offset2, length))
  {
    hide Parts, Flatten, Chain, NoneEmpty, Order, ReadAt, Agree, Position;
    var l1: IovChunk?, o1: nat, l2: IovChunk?, o2: nat := first1, start1, first2, start2;
    ghost var k1: nat, k2: nat := i1, i2;
    ghost var ps, pt := Parts(c1), Parts(c2);
    NothingCompared(Flatten(ps), offset1, Flatten(pt), offset2);
    var left: nat := length;
    while l1 != null && l2 != null && left > 0
      invariant left <= length && Parts(c1) == ps && Parts(c2) == pt
      invariant k1 <= |c1| && l1 == Elem(c1, k1) && k2 <= |c2| && l2 == Elem(c2, k2)
      invariant Normal(ps, Place(k1, o1)) && Position(ps, Place(k1, o1)) == offset1 + (length - left)
      invariant Normal(pt, Place(k2, o2)) && Position(pt, Place(k2, o2)) == offset2 + (length - left)
      invariant Agree(Flatten(ps), offset1, Flatten(pt), offset2, length - left)
      decreases left
    {
      Linked(c1, k1);
      Linked(c2, k2);
      var left1, left2 := l1.data.Length - o1, l2.data.Length - o2;
      var m := Smaller(Smaller(left1, left2), left);
      d := CompareChunks(l1, o1, l2, o2, m, c1, k1, c2, k2, offset1, offset2, length - left, length);
      if d != 0 {
        return;
      }
      left := left - m;
      l1, o1, k1 := StepOver(l1, o1, m, c1, k1);
      l2, o2, k2 := StepOver(l2, o2, m, c2, k2);
    }
    NormalAtEnd(ps, Place(k1, o1));
    NormalAtEnd(pt, Place(k2, o2));
    AgreeEnds(Flatten(ps), offset1, Flatten(pt), offset2, length - left, length);
    if left == 0 {
      d := 0;
    } else if l1 == null {
      d := if l2 == null then 0 else -1;
    } else {
      d := 1;
    }
  }

  /** Compares m bytes of two chunks, when done bytes before them are the same. */
  method CompareChunks(l1: IovChunk, o1: nat, l2: IovChunk, o2: nat, m: nat,
                       ghost c1: seq<IovChunk>, ghost k1: nat, ghost c2: seq<IovChunk>, ghost k2: nat,
                       ghost offset1: nat, ghost offset2: nat, ghost done: nat, ghost length: nat)
    returns (d: int)
    requires Chain(c1) && k1 < |c1| && l1 == c1[k1] && o1 + m <= l1.data.Length
    requires Chain(c2) && k2 < |c2| && l2 == c2[k2] && o2 + m <= l2.data.Length
    requires Position(Parts(c1), Place(k1, o1)) == offset1 + done
             && Position(Parts(c2), Place(k2, o2)) == offset2 + done
    requires Agree(Flat(c1), offset1, Flat(c2), offset2, done) && done + m <= length
    ensures d == 0 ==> Agree(Flat(c1), offset1, Flat(c2), offset2, done + m)
    ensures d != 0 ==> d == Order(ReadAt(Flat(c1), offset1, length), ReadAt(Flat(c2), offset2, length))
  {
    hide Parts, Flatten, Chain, NoneEmpty, Order, ReadAt, Agree, Position;
    Linked(c1, k1);
    Linked(c2, k2);
    PlaceSliceAt(Parts(c1), Place(k1, o1), m, offset1 + done);
    PlaceSliceAt(Parts(c2), Place(k2, o2), m, offset2 + done);
    AgreeOrNot(Flat(c1), offset1, Flat(c2), offset2, done, m, length);
    d := ShortMemCmp(l1.data[..][o1..o1 + m], l2.data[..][o2..o2 + m]);
  }

  /** Goes m bytes on within a chunk, or to the next one at its end. */
  method StepOver(list: IovChunk, offset: nat, m: nat, ghost c: seq<IovChunk>, ghost j: nat)
    returns (l: IovChunk?, o: nat, ghost k: nat)
    requires Chain(c) && j < |c| && list == c[j] && offset + m <= list.data.Length
    ensures k <= |c| && l == Elem(c, k) && Normal(Parts(c), Place(k, o))
    ensures Position(Parts(c), Place(k, o)) == Position(Parts(c), Place(j, offset)) + m
  {
    hide Parts, Chain, NoneEmpty, Position;
    Linked(c, j);
    AdvanceIs(Parts(c), Place(j, offset), m);
    l, o, k := list, offset + m, j;
    if list.data.Length - offset == m {
      l, o, k := list.next, 0, j + 1;
    }
  }

  lemma LocatedAt(parts: seq<seq<byte>>, p: Place, offset: nat)
    requires p == Locate(parts, 0, offset)
    ensures p.part <= |parts| && Normal(parts, p) && Position(parts, p) == offset
  {
  }

  lemma NothingCompared(s: seq<byte>, a: nat, t: seq<byte>, b: nat)
    ensures Agree(s, a, t, b, 0)
  {
  }

  lemma PlaceSlice(parts: seq<seq<byte>>, p: Place, m: nat)
    requires p.part < |parts| && p.offset + m <= |parts[p.part]|
    ensures Position(parts, p) + m <= |Flatten(parts)|
    ensures Flatten(parts)[Position(parts, p)..Position(parts, p) + m] == parts[p.part][p.offset..p.offset + m]
  {
    PartSlice(parts, p.part, p.offset, p.offset + m);
  }

  lemma PlaceSliceAt(parts: seq<seq<byte>>, p: Place, m: nat, pos: nat)
    requires p.part < |parts| && p.offset + m <= |parts[p.part]| && Position(parts, p) == pos
    ensures pos + m <= |Flatten(parts)| && Flatten(parts)[pos..pos + m] == parts[p.part][p.offset..p.offset + m]
  {
    PlaceSlice(parts, p, m);
  }

  lemma AdvanceIs(parts: seq<seq<byte>>, p: Place, m: nat)
    requires p.part < |parts| && p.offset + m <= |parts[p.part]| && NoneEmpty(parts)
    ensures var q := if |parts[p.part]| - p.offset == m then Place(p.part + 1, 0) else Place(p.part, p.offset + m);
            q.part <= |parts| && Normal(parts, q) && Position(parts, q) == Position(parts, p) + m
  {
    var q := Advance(parts, p, m);
  }

  /** Writes more bytes behind those that were put into the vector. */
  method PutBehind(l: IovChunk, o: nat, more: seq<byte>, ghost c: seq<IovChunk>, ghost k: nat,
                   ghost flat: seq<byte>, ghost pos: nat, ghost got: seq<byte>)
    requires Chain(c) && k < |c| && l == c[k] && o + |more| <= l.data.Length
    requires Put(Flat(c), flat, pos, got) && |Flat(c)| == |flat| && Before(Parts(c), k) + o == pos + |got|
    modifies l.data
    ensures Put(Flat(c), flat, pos, got + more) && |Flat(c)| == |flat| && pos + |got| + |more| <= |flat|
    ensures forall j :: 0 <= j <= |c| ==> Before(Parts(c), j) == Before(old(Parts(c)), j)
    ensures forall j :: 0 <= j < |c| ==> |Parts(c)[j]| == |old(Parts(c))[j]|
  {
    hide Parts, Before, Flatten, Splice, Put, Chain;
    ghost var now := Parts(c);
    Linked(c, k);
    PartSlice(now, k, o, o + |more|);
    PutGrows(Flat(c), flat, pos, got, more);
    PutInto(l, o, more, c, k);
    SameShape(now, Parts(c));
  }

  /** Copies up to maxLen bytes from one iterator's place to another's, in different memory, and
      moves both past them; what was copied is returned for the specification. */
  method CopyBytesAndMoveForward(src: IovIter, dst: IovIter, maxLen: nat, ghost cs: seq<IovChunk>, ghost ps: Place,
                                 ghost cd: seq<IovChunk>, ghost pd: Place)
    returns (res: nat, ghost qs: Place, ghost qd: Place, ghost got: seq<byte>)
    requires src != dst && Chain(cs) && Chain(cd) && Memory(cs) !! Memory(cd)
    requires src.At(cs, ps) && Normal(Parts(cs), ps) && dst.At(cd, pd) && Normal(Parts(cd), pd)
    modifies src, dst, Memory(cd)
    ensures Parts(cs) == old(Parts(cs)) && src.At(cs, qs) && Normal(Parts(cs), qs)
    ensures dst.At(cd, qd) && Normal(Parts(cd), qd)
    ensures res == |got| == RoomAt(Flat(cs), Position(Parts(cs), ps), RoomAt(old(Flat(cd)), Position(old(Parts(cd)), pd), maxLen))
    ensures got == ReadAt(Flat(cs), Position(Parts(cs), ps), res)
    ensures Flat(cd) == WriteAt(old(Flat(cd)), Position(old(Parts(cd)), pd), got)
    ensures Position(Parts(cs), qs) == Position(Parts(cs), ps) + res
    ensures Position(Parts(cd), qd) == Position(old(Parts(cd)), pd) + res
  {
    hide Parts, Flatten, Chain, NoneEmpty, ReadAt, WriteAt, RoomAt, Stretch, Put, Splice, Before, Position, Normal,
          AtPosition, SameLengths;
    var ls, os: nat, ld, od: nat := src.currElem, src.offset, dst.currElem, dst.offset;
    var left: nat := maxLen;
    res, qs, qd, got := 0, ps, pd, [];
    ghost var parts, flat, a, b := Parts(cs), Flat(cd), Position(Parts(cs), ps), Position(Parts(cd), pd);
    StretchEmpty(Flatten(parts), a);
    NothingWritten(flat, b, []);
    IsAtPosition(parts, ps);
    IsAtPosition(Parts(cd), pd);
    while ls != null && ld != null && left > 0
      invariant res == |got| && res + left == maxLen && Chain(cs) && Chain(cd)
      invariant qs.part <= |cs| && ls == Elem(cs, qs.part) && os == qs.offset && Parts(cs) == parts
      invariant qd.part <= |cd| && ld == Elem(cd, qd.part) && od == qd.offset
      invariant AtPosition(parts, qs, a + res) && AtPosition(Parts(cd), qd, b + res)
      invariant Stretch(Flatten(parts), a, got)
      invariant Put(Flat(cd), flat, b, got) && |Flat(cd)| == |flat| && (res > 0 ==> b + res <= |flat|)
      decreases left
    {
      Linked(cs, qs.part);
      Linked(cd, qd.part);
      AtPositionIn(parts, qs, a + res);
      AtPositionIn(Parts(cd), qd, b + res);
      var lenS, lenD := ls.data.Length - os, ld.data.Length - od;
      var n := if lenS > lenD then lenD else lenS;
      if n > left {
        n := left;
      }
      got := CopyChunk(ls, os, ld, od, n, cs, qs, cd, qd, a, b, got, flat);
      qs := if lenS == n then Place(qs.part + 1, 0) else Place(qs.part, qs.offset + n);
      qd := if lenD == n then Place(qd.part + 1, 0) else Place(qd.part, qd.offset + n);
      if n == lenS {
        ls, os := ls.next, 0;
      } else {
        os := os + n;
      }
      if n == lenD {
        ld, od := ld.next, 0;
      } else {
        od := od + n;
      }
      left := left - n;
      res := res + n;
    }
    CopyEnds(parts, a, qs, Parts(cd), b, qd, got, maxLen, flat);
    CopiedAll(Flat(cd), flat, b, got);
    src.currElem, src.offset := ls, os;
    dst.currElem, dst.offset := ld, od;
  }

  ghost predicate AtPosition(parts: seq<seq<byte>>, q: Place, pos: nat) {
    q.part <= |parts| && Normal(parts, q) && Position(parts, q) == pos
  }

  lemma IsAtPosition(parts: seq<seq<byte>>, q: Place)
    requires q.part <= |parts| && Normal(parts, q)
    ensures AtPosition(parts, q, Position(parts, q))
  {
  }

  lemma AtPositionIn(parts: seq<seq<byte>>, q: Place, pos: nat)
    requires AtPosition(parts, q, pos)
    ensures q.part < |parts| ==> q.offset < |parts[q.part]|
  {
  }

  ghost predicate SameLengths(parts: seq<seq<byte>>, parts': seq<seq<byte>>) {
    |parts| == |parts'| && forall i :: 0 <= i < |parts| ==> |parts[i]| == |parts'[i]|
  }

  /** Copies n bytes between two chunks; both places advance. */
  method CopyChunk(ls: IovChunk, os: nat, ld: IovChunk, od: nat, n: nat, ghost cs: seq<IovChunk>, ghost qs: Place,
                   ghost cd: seq<IovChunk>, ghost qd: Place, ghost a: nat, ghost b: nat, ghost got: seq<byte>,
                   ghost flat: seq<byte>)
    returns (ghost more: seq<byte>)
    requires Chain(cs) && Chain(cd) && Memory(cs) !! Memory(cd)
    requires qs.part < |cs| && ls == cs[qs.part] && os == qs.offset && os + n <= ls.data.Length
    requires qd.part < |cd| && ld == cd[qd.part] && od == qd.offset && od + n <= ld.data.Length
    requires AtPosition(Parts(cs), qs, a + |got|) && AtPosition(Parts(cd), qd, b + |got|)
    requires Stretch(Flat(cs), a, got) && Put(Flat(cd), flat, b, got) && |Flat(cd)| == |flat|
    modifies ld.data
    ensures |more| == |got| + n && Parts(cs) == old(Parts(cs)) && SameLengths(Parts(cd), old(Parts(cd)))
    ensures Stretch(Flat(cs), a, more)
    ensures Put(Flat(cd), flat, b, more) && |Flat(cd)| == |flat| && b + |more| <= |flat|
    ensures AtPosition(Parts(cs), if ls.data.Length - os == n then Place(qs.part + 1, 0) else Place(qs.part, os + n), a + |more|)
    ensures AtPosition(Parts(cd), if ld.data.Length - od == n then Place(qd.part + 1, 0) else Place(qd.part, od + n), b + |more|)
  {
    hide Parts, Flatten, Chain, NoneEmpty, Stretch, Put, Before;
    ghost var parts, partsD := Parts(cs), Parts(cd);
    Linked(cs, qs.part);
    Linked(cd, qd.part);
    PlaceSlice(parts, qs, n);
    more := got + ls.data[..][os..os + n];
    StretchGrows(Flatten(parts), a, got, ls.data[..][os..os + n]);
    AdvanceIs(parts, qs, n);
    AdvanceIs(partsD, qd, n);
    PutBehind(ld, od, ls.data[..][os..os + n], cd, qd.part, flat, b, got);
    InMemory(cs);
  }

  lemma {:induction false} CopyEnds(ps: seq<seq<byte>>, a: nat, p: Place, pd: seq<seq<byte>>, b: nat, q: Place,
        got: seq<byte>, n: nat,
                 flat: seq<byte>)
    requires |flat| == |Flatten(pd)|
    requires AtPosition(ps, p, a + |got|) && AtPosition(pd, q, b + |got|)
    requires |got| <= n && (|got| == n || p.part == |ps| || q.part == |pd|)
    requires Stretch(Flatten(ps), a, got) && (|got| > 0 ==> b + |got| <= |Flatten(pd)|)
    ensures |got| == RoomAt(Flatten(ps), a, RoomAt(flat, b, n))
    ensures got == ReadAt(Flatten(ps), a, |got|)
    ensures Normal(ps, p) && Position(ps, p) == a + |got| && Normal(pd, q) && Position(pd, q) == b + |got|
  {
    NormalAtEnd(ps, p);
    NormalAtEnd(pd, q);
  }

  lemma CopiedAll(now: seq<byte>, was: seq<byte>, off: nat, got: seq<byte>)
    requires Put(now, was, off, got)
    ensures now == WriteAt(was, off, got)
  {
    assert got[..|got|] == got;
    if off < |was| && |got| == 0 {
      SpliceNothing(was, off);
    }
  }
}
