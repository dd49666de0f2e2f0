/**
 The Internet checksum (ucIpv6ChecksumImpl.h and ucIpv6Checksum.c), computed piece by piece
 over bytes, arrays and I/O vectors, against the one's-complement sum of RFC 1071.
 */
module Checksum {
  import opened LowpanTypes
  import opened Sequences
  import opened Chunks
  import opened IoVec

  // ---------------------------------------------------------------------------
  // The one's-complement sum, section 1 of RFC 1071
  // ---------------------------------------------------------------------------

  /** The 16-bit words of the bytes, high byte first; an odd byte is padded with zero. */
  function Words(s: seq<byte>): seq<uint16> {
    if |s| == 0 then []
    else if |s| == 1 then [Word(s[0], 0)]
    else [Word(s[0], s[1])] + Words(s[2..])
  }

  /** Addition with the carry brought around. */
  function OnesAdd(a: uint16, b: uint16): uint16 {
    if a + b > 0xffff then a + b - 0xffff else a + b
  }

  function OnesSum(ws: seq<uint16>): uint16 {
    if |ws| == 0 then 0 else OnesAdd(ws[0], OnesSum(ws[1..]))
  }

  function InternetChecksum(s: seq<byte>): uint16 {
    0xffff - OnesSum(Words(s))
  }

  // ---------------------------------------------------------------------------
  // As an ordinary sum
  // ---------------------------------------------------------------------------

  /** What byte i adds to the sum of the words. */
  function Weight(i: nat, b: byte): nat {
    if i % 2 == 0 then Word(b, 0) else b
  }

  /** The sum of the words, byte by byte. */
  function Total(s: seq<byte>): nat {
    if |s| == 0 then 0 else Total(s[..|s| - 1]) + Weight(|s| - 1, s[|s| - 1])
  }

  /** What carrying around makes of a sum: its residue modulo 0xffff, as 0xffff unless the sum is zero. */
  function Folded(n: nat): uint16 {
    if n == 0 then 0 else (n - 1) % 0xffff + 1
  }

  lemma TotalOfNothing()
    ensures Total([]) == 0
  {
  }

  lemma TotalGrows(s: seq<byte>, b: byte)
    ensures Total(s + [b]) == Total(s) + Weight(|s|, b)
  {
    hide Weight;
    var t := s + [b];
    assert t[..|t| - 1] == s && t[|t| - 1] == b;
  }

  lemma {:induction false} TotalSplit(s: seq<byte>, t: seq<byte>)
    requires |s| % 2 == 0
    ensures Total(s + t) == Total(s) + Total(t)
    decreases |t|
  {
    hide Total;
    hide Word;
    TotalOfNothing();
    if |t| == 0 {
      assert s + t == s && t == [];
    } else {
      var t', b := t[..|t| - 1], t[|t| - 1];
      assert t == t' + [b] && s + t == (s + t') + [b];
      TotalSplit(s, t');
      TotalGrows(s + t', b);
      TotalGrows(t', b);
    }
  }

  lemma {:induction false} OnesSumIsFolded(s: seq<byte>)
    ensures OnesSum(Words(s)) == Folded(Total(s))
    decreases |s|
  {
    if |s| == 1 {
      TotalGrows([], s[0]);
      assert s == [] + [s[0]];
      assert Words(s)[1..] == [] && OnesSum([]) == 0;
    } else if |s| >= 2 {
      var w := Word(s[0], s[1]);
      OnesSumIsFolded(s[2..]);
      assert s == [s[0], s[1]] + s[2..];
      TotalSplit([s[0], s[1]], s[2..]);
      TotalGrows([s[0]], s[1]);
      TotalGrows([], s[0]);
      assert [] + [s[0]] == [s[0]] && [s[0]] + [s[1]] == [s[0], s[1]];
      assert Words(s)[1..] == Words(s[2..]);
      AddFolded(w, Total(s[2..]));
    }
  }

  lemma AddFolded(w: uint16, n: nat)
    ensures OnesAdd(w, Folded(n)) == Folded(w + n)
  {
    if n > 0 {
      var q, m := (n - 1) / 0xffff, (n - 1) % 0xffff;
      assert w + n - 1 == w + m + 0xffff * q;
      if w + m < 0xffff {
        Residue(w + n - 1, q, w + m);
      } else {
        Residue(w + n - 1, q + 1, w + m - 0xffff);
      }
    }
  }

  lemma Residue(n: nat, q: nat, r: nat)
    requires n == 0xffff * q + r && r < 0xffff
    ensures n % 0xffff == r
  {
  }

  /** One step of the folding loop keeps what the sum folds to. */
  lemma FoldStep(n: nat)
    ensures Folded(n % 0x1_0000 + n / 0x1_0000) == Folded(n)
  {
    var q, r := n / 0x1_0000, n % 0x1_0000;
    if q + r > 0 {
      var p, m := (q + r - 1) / 0xffff, (q + r - 1) % 0xffff;
      assert n - 1 == 0xffff * (q + p) + m;
      Residue(n - 1, q + p, m);
    }
  }

  lemma FoldedSmall(n: nat)
    requires n < 0x1_0000
    ensures Folded(n) == n
  {
  }

  /** Truncating a sum to 32 bits keeps what it folds to, exactly when the lost multiple of
      2^32 is a multiple of 0xffff and the truncation did not make a sum zero. */
  lemma TruncatedFoldsIff(n: nat)
    ensures Folded(n % 0x1_0000_0000) == Folded(n) <==>
            (n / 0x1_0000_0000) % 0xffff == 0 && !(n > 0 && n % 0x1_0000_0000 == 0)
  {
    var q, r := n / 0x1_0000_0000, n % 0x1_0000_0000;
    if n > 0 && r > 0 {
      var a, b := (r - 1) / 0xffff, (r - 1) % 0xffff;
      var c, d := q / 0xffff, q % 0xffff;
      assert n - 1 == 0xffff * (0x1_0001 * q + a + c) + (b + d);
      if b + d < 0xffff {
        Residue(n - 1, 0x1_0001 * q + a + c, b + d);
      } else {
        Residue(n - 1, 0x1_0001 * q + a + c + 1, b + d - 0xffff);
      }
    }
  }

  /** The most that n bytes can sum to. */
  function MostOf(n: nat): nat {
    0xff * (0x100 * ((n + 1) / 2) + n / 2)
  }

  lemma BoundGrows(n: nat, b: byte)
    ensures MostOf(n) + Weight(n, b) <= MostOf(n + 1)
  {
    if n % 2 == 0 {
      assert (n + 2) / 2 == (n + 1) / 2 + 1 && (n + 1) / 2 == n / 2;
    } else {
      assert (n + 2) / 2 == (n + 1) / 2 && (n + 1) / 2 == n / 2 + 1;
    }
  }

  lemma BoundFits(n: nat)
    requires n <= 131074
    ensures MostOf(n) < 0x1_0000_0000
  {
    assert (n + 1) / 2 <= 65537 && n / 2 <= 65537;
  }

  /** Up to 131074 bytes the sum fits 32 bits. */
  lemma {:induction false} TotalFits(s: seq<byte>)
    ensures Total(s) <= MostOf(|s|)
    ensures |s| <= 131074 ==> Total(s) < 0x1_0000_0000
  {
    hide MostOf, Weight;
    if |s| > 0 {
      TotalFits(s[..|s| - 1]);
      BoundGrows(|s| - 1, s[|s| - 1]);
    }
    if |s| <= 131074 {
      BoundFits(|s|);
    }
  }

  // ---------------------------------------------------------------------------
  // The computation
  // ---------------------------------------------------------------------------

  function U32(n: nat): uint32 {
    n % 0x1_0000_0000
  }

  class Computation {
    var sum: uint32
    var parity: byte
    var accum: byte
    ghost var fed: seq<byte>  // the bytes so far

    /** The sum of the complete words so far, in 32 bits, and the odd byte. */
    ghost predicate Valid()
      reads this
    {
      && parity == |fed| % 2
      && (parity == 0 ==> sum == U32(Total(fed)))
      && (parity == 1 ==> accum == fed[|fed| - 1] && sum == U32(Total(fed[..|fed| - 1])))
    }

    constructor ()
      ensures Valid() && fed == []
    {
      sum, parity, accum, fed := 0, 0, 0, [];
    }

    method ProvideWithOneByte(b: byte)
      requires Valid()
      modifies this
      ensures Valid() && fed == old(fed) + [b]
    {
      hide Total, U32, Word;
      OneMore(fed, sum, accum, b);
      parity := (parity + 1) % 2;
      if parity == 0 {
        sum := U32(sum + Word(accum, b));
      } else {
        accum := b;
      }
      fed := fed + [b];
    }

    method ProvideWithByteArray(buf: seq<byte>)
      requires Valid()
      modifies this
      ensures Valid() && fed == old(fed) + buf
    {
      hide Total, U32, Word;
      if |buf| == 0 {
        assert fed + buf == fed;
        return;
      }
      OneMore(fed, sum, accum, buf[0]);
      var s: uint32, i: nat, len: nat := sum, 0, |buf|;
      ghost var all := fed;
      if parity != 0 {
        s := U32(s + Word(accum, buf[0]));
        i := 1;
        len := len - 1;
        all := fed + [buf[0]];
      }
      parity := len % 2;
      len := len - parity;
      assert all == fed + buf[..i];
      s, i := AddPairs(s, buf, i, len, fed);
      all := fed + buf[..i];
      sum := s;
      if parity != 0 {
        accum := buf[i];
        assert fed + buf == all + [buf[i]];
      } else {
        assert fed + buf == all;
      }
      fed := fed + buf;
      assert parity == 1 ==> fed[..|fed| - 1] == all;
    }

    /** Adds the pairs of bytes in the middle of an array, of which there are len bytes from start on. */
    static method AddPairs(sum: uint32, buf: seq<byte>, start: nat, len: nat, ghost front: seq<byte>)
      returns (s: uint32, i: nat)
      requires start + len <= |buf| && len % 2 == 0 && (|front| + start) % 2 == 0
      requires sum == U32(Total(front + buf[..start]))
      ensures i == start + len && s == U32(Total(front + buf[..i]))
    {
      hide Total, U32, Word;
      s, i := sum, start;
      var left := len;
      while left > 0
        invariant left % 2 == 0 && i + left == start + len && (|front| + i) % 2 == 0
        invariant s == U32(Total(front + buf[..i]))
        decreases left
      {
        TwoMore(front + buf[..i], s, buf[i], buf[i + 1]);
        PrefixGrows(front, buf, i);
        s := U32(s + Word(buf[i], buf[i + 1]));
        i := i + 2;
        left := left - 2;
      }
    }

    /** Feeds up to fragLen bytes at the iterator's place and moves the iterator past them. */
    method ProvideWithIovAndAdvanceIovIterator(iter: IovIter, fragLen: nat, ghost c: seq<IovChunk>, ghost p: Place)
      returns (res: nat, ghost q: Place)
      requires Valid() && Chain(c) && iter.At(c, p) && Normal(Parts(c), p)
      modifies this, iter
      ensures Valid() && Parts(c) == old(Parts(c))
      ensures fed == old(fed) + ReadAt(Flat(c), Position(Parts(c), p), fragLen)
      ensures res == RoomAt(Flat(c), Position(Parts(c), p), fragLen)
      ensures iter.At(c, q) && Normal(Parts(c), q) && Position(Parts(c), q) == Position(Parts(c), p) + res
    {
      hide Valid, Parts, Before, Flatten, Chain, Stretch, ReadAt, RoomAt, NoneEmpty;
      q := p;
      NormalAtEnd(Parts(c), p);
      NothingRead(Flat(c), Position(Parts(c), p), fragLen);
      assert fed == fed + [];
      if fragLen == 0 {
        return 0, p;
      }
      var l := iter.currElem;
      if l == null {
        return 0, p;
      }
      ghost var parts, pos := Parts(c), Position(Parts(c), p);
      Linked(c, p.part);
      var o := iter.offset;
      res := l.data.Length - o;
      PartSlice(parts, p.part, o, o + Smaller(res, fragLen));
      if res > fragLen {
        res := fragLen;
        ProvideWithByteArray(l.data[..][o..o + res]);
        iter.offset := o + res;
        ReadBytes(Flatten(parts), pos, fragLen, l.data[..][o..o + res]);
        return res, Place(p.part, p.offset + res);
      }
      ghost var got := l.data[..][o..o + res];
      ProvideWithByteArray(l.data[..][o..o + res]);
      StretchOf(Flatten(parts), pos, got);
      var next;
      ghost var k: nat;
      next, o, res, k, got := FeedOn(l.next, fragLen, res, c, p.part + 1, pos, old(fed), got);
      ReadEnds(parts, pos, got, fragLen, Place(k, o));
      q := Place(k, o);
      iter.currElem := next;
      iter.offset := o;
    }

    /** Goes on feeding at the beginning of chunk k. */
    method FeedOn(list: IovChunk?, fragLen: nat, done: nat, ghost c: seq<IovChunk>, ghost first: nat,
                  ghost pos: nat, ghost was: seq<byte>, ghost had: seq<byte>)
      returns (l: IovChunk?, o: nat, res: nat, ghost k: nat, ghost got: seq<byte>)
      requires Valid() && Chain(c) && first <= |c| && list == Elem(c, first)
      requires 0 < done == |had| <= fragLen && Before(Parts(c), first) == pos + done
      requires Stretch(Flat(c), pos, had) && fed == was + had
      modifies this
      ensures Valid() && Parts(c) == old(Parts(c))
      ensures k <= |c| && l == Elem(c, k) && Normal(Parts(c), Place(k, o))
              && Position(Parts(c), Place(k, o)) == pos + res
      ensures 0 < res == |got| <= fragLen && (res == fragLen || (k == |c| && o == 0))
      ensures Stretch(Flat(c), pos, got) && fed == was + got
    {
      hide Valid, Parts, Before, Flatten, Chain, Stretch, NoneEmpty;
      var left: nat := fragLen - done;
      ghost var parts := Parts(c);
      l, o, res, k, got := list, 0, done, first, had;
      while l != null && left > 0
        invariant k <= |c| && l == Elem(c, k) && Parts(c) == parts && Valid()
        invariant o == 0 && res + left == fragLen && Before(parts, k) == pos + res
        invariant 0 < |got| == res <= fragLen && Stretch(Flatten(parts), pos, got) && fed == was + got
        decreases |c| - k
      {
        Linked(c, k);
        ReadStep(parts, k, pos, got, fragLen);
        o := l.data.Length;
        if o > left {
          o := left;
          ProvideWithByteArray(l.data[..][..o]);
          got := got + l.data[..][..o];
          res := res + o;
          return;
        }
        ProvideWithByteArray(l.data[..][..o]);
        got := got + l.data[..][..o];
        res := res + o;
        left := left - o;
        l := l.next;
        o := 0;
        k := k + 1;
      }
      if k < |c| {
        Linked(c, k);
      }
    }

    /** Feeds the pseudo header of section 8.1 of RFC 2460 without words of zeros; what is fed
        before and after it sums with it as with the full pseudo header. */
    method ProvideIpv6PseudoHeader(src: seq<byte>, dst: seq<byte>, ipLen: uint32, nextHdr: byte) returns (n: nat)
      requires Valid() && |src| == 16 && |dst| == 16
      modifies this
      ensures Valid() && n == |PseudoHeader(src, dst, ipLen, nextHdr)|
      ensures fed == old(fed) + ShortPseudoHeader(src, dst, ipLen, nextHdr)
      ensures forall t :: Total(fed + t) == Total(old(fed) + PseudoHeader(src, dst, ipLen, nextHdr) + t)
    {
      hide Valid, Total;
      ghost var was := fed;
      ProvideWithByteArray(src);
      ProvideWithByteArray(dst);
      var part := ipLen / 0x1_0000;
      if part != 0 {
        ProvideWithOneByte(part / 0x100);
        ProvideWithOneByte(part % 0x100);
      }
      part := ipLen % 0x1_0000;
      ProvideWithOneByte(part / 0x100);
      ProvideWithOneByte(part % 0x100);
      ProvideWithOneByte(0);
      ProvideWithOneByte(nextHdr);
      assert fed == was + ShortPseudoHeader(src, dst, ipLen, nextHdr);
      forall t
        ensures Total(fed + t) == Total(was + PseudoHeader(src, dst, ipLen, nextHdr) + t)
      {
        ZerosSkipped(was, src, dst, ipLen, nextHdr, t);
      }
      return 40;
    }

    /** Up to 131074 bytes, the Internet checksum of all bytes; beyond that, exactly when the
        32-bit sum lost nothing that matters. */
    method Finalize() returns (r: uint16)
      requires Valid()
      ensures r == InternetChecksum(fed) <==>
              (Total(fed) / 0x1_0000_0000) % 0xffff == 0 && !(Total(fed) > 0 && Total(fed) % 0x1_0000_0000 == 0)
      ensures |fed| <= 131074 ==> r == InternetChecksum(fed)
    {
      hide Total, Word, Folded, Words, OnesSum;
      var s: uint32 := sum;
      if parity != 0 {
        s := U32(s + Word(accum, 0));
        LastWord(fed, sum, accum);
      }
      ghost var total := s;
      var part := s / 0x1_0000;
      while part != 0
        invariant part == s / 0x1_0000 && Folded(s) == Folded(total)
        decreases s
      {
        FoldStep(s);
        s := s % 0x1_0000 + part;
        part := s / 0x1_0000;
      }
      FoldedSmall(s);
      OnesSumIsFolded(fed);
      TruncatedFoldsIff(Total(fed));
      TotalFits(fed);
      r := 0xffff - s;
    }
  }

  lemma OneMore(fed: seq<byte>, sum: uint32, accum: byte, b: byte)
    ensures |fed| % 2 == 1 && accum == fed[|fed| - 1] && sum == U32(Total(fed[..|fed| - 1])) ==>
              U32(sum + Word(accum, b)) == U32(Total(fed + [b]))
    ensures (fed + [b])[..|fed|] == fed && (fed + [b])[|fed|] == b
  {
    hide Total, U32, Word;
    if |fed| % 2 == 1 && accum == fed[|fed| - 1] && sum == U32(Total(fed[..|fed| - 1])) {
      assert fed + [b] == fed[..|fed| - 1] + [accum, b];
      TwoMore(fed[..|fed| - 1], sum, accum, b);
    }
  }

  lemma PrefixGrows(fed: seq<byte>, buf: seq<byte>, i: nat)
    requires i + 2 <= |buf|
    ensures fed + buf[..i + 2] == fed + buf[..i] + [buf[i], buf[i + 1]]
  {
  }

  lemma TwoMore(fed: seq<byte>, sum: uint32, a: byte, b: byte)
    requires |fed| % 2 == 0 && sum == U32(Total(fed))
    ensures U32(sum + Word(a, b)) == U32(Total(fed + [a, b]))
  {
    hide Total, U32;
    TotalGrows(fed, a);
    TotalGrows(fed + [a], b);
    assert fed + [a] + [b] == fed + [a, b];
    ModAdds(Total(fed), Word(a, b));
  }

  lemma {:induction false} LastWord(fed: seq<byte>, sum: uint32, accum: byte)
    requires |fed| % 2 == 1 && accum == fed[|fed| - 1] && sum == U32(Total(fed[..|fed| - 1]))
    ensures U32(sum + Word(accum, 0)) == U32(Total(fed))
  {
    hide Total, U32;
    assert fed == fed[..|fed| - 1] + [accum];
    TotalGrows(fed[..|fed| - 1], accum);
    ModAdds(Total(fed[..|fed| - 1]), Word(accum, 0));
  }

  lemma ModAdds(n: nat, w: nat)
    ensures U32(U32(n) + w) == U32(n + w)
  {
    var q := n / 0x1_0000_0000;
    assert n + w == U32(n) + w + 0x1_0000_0000 * q;
    ModOffset(U32(n) + w, q);
  }

  lemma {:induction false} ModOffset(n: nat, q: nat)
    ensures U32(n + 0x1_0000_0000 * q) == U32(n)
  {
    if q > 0 {
      ModOffset(n, q - 1);
      assert n + 0x1_0000_0000 * q == (n + 0x1_0000_0000 * (q - 1)) + 0x1_0000_0000;
    }
  }

  /** The pseudo header of section 8.1 of RFC 2460. */
  function PseudoHeader(src: seq<byte>, dst: seq<byte>, ipLen: uint32, nextHdr: byte): seq<byte> {
    src + dst
    + [ipLen / 0x1_0000 / 0x100, ipLen / 0x1_0000 % 0x100, ipLen % 0x1_0000 / 0x100, ipLen % 0x1_0000 % 0x100]
    + [0, 0, 0, nextHdr]
  }

  /** Two zeros in a row add nothing, wherever they are. */
  lemma {:induction false} ZerosAddNothing(s: seq<byte>, t: seq<byte>)
    ensures Total(s + [0, 0] + t) == Total(s + t)
    decreases |t|
  {
    hide Total;
    if |t| == 0 {
      assert s + [0, 0] + t == s + [0] + [0] && s + t == s;
      TotalGrows(s, 0);
      TotalGrows(s + [0], 0);
    } else {
      var t', b := t[..|t| - 1], t[|t| - 1];
      ZerosAddNothing(s, t');
      assert s + [0, 0] + t == (s + [0, 0] + t') + [b] && s + t == (s + t') + [b];
      TotalGrows(s + [0, 0] + t', b);
      TotalGrows(s + t', b);
    }
  }

  /** What is fed for the pseudo header: without the high word of the length when that is zero,
      and without the two zeros before the last two bytes. */
  function ShortPseudoHeader(src: seq<byte>, dst: seq<byte>, ipLen: uint32, nextHdr: byte): (s: seq<byte>)
    ensures |s| <= |src| + |dst| + 6
  {
    var high, low := ipLen / 0x1_0000, ipLen % 0x1_0000;
    src + dst + (if high != 0 then [high / 0x100, high % 0x100] else [])
    + [low / 0x100, low % 0x100] + [0, nextHdr]
  }

  /** What is fed for the pseudo header sums to the pseudo header, between whatever is fed before
      and after it. */
  lemma {:induction false} ZerosSkipped(was: seq<byte>, src: seq<byte>, dst: seq<byte>, ipLen: uint32, nextHdr: byte,
                                        t: seq<byte>)
    requires |src| == 16 && |dst| == 16
    ensures Total(was + ShortPseudoHeader(src, dst, ipLen, nextHdr) + t)
            == Total(was + PseudoHeader(src, dst, ipLen, nextHdr) + t)
  {
    hide Total;
    var high, low := ipLen / 0x1_0000, ipLen % 0x1_0000;
    var h: seq<byte>, l: seq<byte> := [high / 0x100, high % 0x100], [low / 0x100, low % 0x100];
    var x, y: seq<byte> := was + src + dst, [0, nextHdr] + t;
    ZerosAddNothing(x + h + l, y);
    assert x + h + l + [0, 0] + y == was + PseudoHeader(src, dst, ipLen, nextHdr) + t;
    if high == 0 {
      ZerosAddNothing(x, l + y);
      assert h == [0, 0];
      assert x + h + l + y == x + [0, 0] + (l + y);
      assert x + (l + y) == was + ShortPseudoHeader(src, dst, ipLen, nextHdr) + t;
    } else {
      assert x + h + l + y == was + ShortPseudoHeader(src, dst, ipLen, nextHdr) + t;
    }
  }

  /** The checksum of what is fed for a pseudo header and data is that of both in full. */
  lemma {:induction false} PseudoHeaderChecksum(src: seq<byte>, dst: seq<byte>, ipLen: uint32, nextHdr: byte,
                                                data: seq<byte>)
    requires |src| == 16 && |dst| == 16
    ensures InternetChecksum(ShortPseudoHeader(src, dst, ipLen, nextHdr) + data)
            == InternetChecksum(PseudoHeader(src, dst, ipLen, nextHdr) + data)
  {
    hide Total, OnesSum, Words, PseudoHeader, ShortPseudoHeader;
    var full, short := PseudoHeader(src, dst, ipLen, nextHdr), ShortPseudoHeader(src, dst, ipLen, nextHdr);
    ZerosSkipped([], src, dst, ipLen, nextHdr, data);
    assert [] + short == short && [] + full == full;
    OnesSumIsFolded(short + data);
    OnesSumIsFolded(full + data);
  }

  /** How an outgoing UDP datagram gets its checksum: over the pseudo header and payloadLen bytes of
      the vector, at most block of them in a step; a checksum of zero is sent as all ones.  It is
      given up exactly when the vector is too short. */
  method ChecksumForOutPacket(src: seq<byte>, dst: seq<byte>, payloadLen: uint16, nextHdr: byte, block: nat,
                              list: IovChunk?, iter: IovIter, ghost c: seq<IovChunk>)
    returns (done: bool, checksum: uint16)
    requires |src| == 16 && |dst| == 16 && block > 0 && Chain(c) && list == Elem(c, 0)
    modifies iter
    ensures done <==> payloadLen <= |Flat(c)|
    ensures done ==>
              var sum := InternetChecksum(PseudoHeader(src, dst, payloadLen, nextHdr) + Flat(c)[..payloadLen]);
              checksum == if sum == 0 then 0xffff else sum
  {
    hide Computation.Valid, Parts, Flatten, Chain, InternetChecksum, PseudoHeader, ShortPseudoHeader, Total, Position;
    ghost var front, parts := ShortPseudoHeader(src, dst, payloadLen, nextHdr), Parts(c);
    assert forall a :: a in Memory(c) ==> allocated(a);
    var comp := new Computation();
    var _ := comp.ProvideIpv6PseudoHeader(src, dst, payloadLen, nextHdr);
    assert [] + front == front;
    iter.currElem := list;
    iter.offset := 0;
    assert Parts(c) == parts;
    AtBeginning(c);
    done := FeedInBlocks(comp, iter, payloadLen, block, c, Place(0, 0));
    if !done {
      return false, 0;
    }
    checksum := comp.Finalize();
    PseudoHeaderChecksum(src, dst, payloadLen, nextHdr, Flat(c)[..payloadLen]);
    if checksum == 0 {
      checksum := 0xffff;
    }
  }

  /** Feeds total bytes from the beginning of the vector on, at most block of them in a step. */
  method FeedInBlocks(comp: Computation, iter: IovIter, total: nat, block: nat, ghost c: seq<IovChunk>,
        ghost start: Place)
    returns (done: bool)
    requires comp.Valid() && block > 0 && Chain(c)
    requires iter.At(c, start) && Normal(Parts(c), start) && Position(Parts(c), start) == 0
    modifies comp, iter
    ensures comp.Valid() && Parts(c) == old(Parts(c))
    ensures done <==> total <= |Flat(c)|
    ensures done ==> comp.fed == old(comp.fed) + Flat(c)[..total]
  {
    hide Computation.Valid, Parts, Flatten, Chain, Position;
    ghost var p, flat, parts := start, Flat(c), Parts(c);
    var processed: nat := 0;
    assert old(comp.fed) + flat[..0] == old(comp.fed);
    while processed < total
      invariant processed <= total && processed <= |flat| && comp.Valid() && Parts(c) == parts && Flat(c) == flat
      invariant iter.At(c, p) && Normal(parts, p) && Position(parts, p) == processed
      invariant comp.fed == old(comp.fed) + flat[..processed]
    {
      var numBytes := Smaller(total - processed, block);
      var actBytes;
      actBytes, p := comp.ProvideWithIovAndAdvanceIovIterator(iter, numBytes, c, p);
      if actBytes != numBytes {
        return false;
      }
      ReadsOn(flat, processed, numBytes);
      assert old(comp.fed) + flat[..processed] + ReadAt(flat, processed, numBytes)
             == old(comp.fed) + flat[..processed + numBytes];
      processed := processed + numBytes;
    }
    return true;
  }

  lemma ReadsOn(s: seq<byte>, off: nat, n: nat)
    requires off <= |s| && n > 0 && RoomAt(s, off, n) == n
    ensures off + n <= |s| && s[..off] + ReadAt(s, off, n) == s[..off + n]
  {
  }

  lemma AtBeginning(c: seq<IovChunk>)
    requires Chain(c)
    ensures Normal(Parts(c), Place(0, 0)) && Position(Parts(c), Place(0, 0)) == 0
  {
    hide Parts;
    if |c| > 0 {
      Linked(c, 0);
    }
  }

  // ---------------------------------------------------------------------------
  // What a receiver sees
  // ---------------------------------------------------------------------------

  /** The example of section 3 of RFC 1071. */
  lemma ExampleSum()
    ensures var s := [0x00, 0x01, 0xf2, 0x03, 0xf4, 0xf5, 0xf6, 0xf7];
            OnesSum(Words(s)) == 0xddf2 && InternetChecksum(s) == 0x220d
  {
    var s := [0x00, 0x01, 0xf2, 0x03, 0xf4, 0xf5, 0xf6, 0xf7];
    assert s[2..] == [0xf2, 0x03, 0xf4, 0xf5, 0xf6, 0xf7];
    assert s[2..][2..] == [0xf4, 0xf5, 0xf6, 0xf7];
    assert s[2..][2..][2..] == [0xf6, 0xf7];
    assert s[2..][2..][2..][2..] == [];
    SumOfFirst(0xf6f7, []);
    SumOfFirst(0xf4f5, [0xf6f7]);
    SumOfFirst(0xf203, [0xf4f5, 0xf6f7]);
    SumOfFirst(0x0001, [0xf203, 0xf4f5, 0xf6f7]);
    assert Words(s) == [0x0001] + [0xf203, 0xf4f5, 0xf6f7];
  }

  lemma SumOfFirst(w: uint16, ws: seq<uint16>)
    ensures OnesSum([w] + ws) == OnesAdd(w, OnesSum(ws))
  {
    assert ([w] + ws)[1..] == ws;
  }

  /** A word in place of two zeros adds to the sum. */
  lemma {:induction false} TotalWithWord(s: seq<byte>, i: nat, w: uint16)
    requires i % 2 == 0 && i + 1 < |s| && s[i] == s[i + 1] == 0
    ensures Total(Splice(s, i, [w / 0x100, w % 0x100])) == Total(s) + w
  {
    hide Total, Splice;
    var pre, post := s[..i], s[i + 2..];
    var hi, lo: byte := w / 0x100, w % 0x100;
    SpliceParts(s, i, [hi, lo]);
    SpliceParts(s, i, [0, 0]);
    assert Splice(s, i, [0, 0]) == s by {
      SpliceSame(s, i);
    }
    TotalSplit(pre + [hi, lo], post);
    TotalSplit(pre + [0, 0], post);
    TotalOfPair(pre, hi, lo);
    TotalOfPair(pre, 0, 0);
  }

  lemma SpliceParts(s: seq<byte>, i: nat, b: seq<byte>)
    requires i + |b| <= |s|
    ensures Splice(s, i, b) == (s[..i] + b) + s[i + |b|..]
  {
  }

  lemma SpliceSame(s: seq<byte>, i: nat)
    requires i + 1 < |s| && s[i] == s[i + 1] == 0
    ensures Splice(s, i, [0, 0]) == s
  {
  }

  lemma TotalOfPair(pre: seq<byte>, a: byte, b: byte)
    requires |pre| % 2 == 0
    ensures Total(pre + [a, b]) == Total(pre) + Word(a, b)
  {
    hide Total;
    TotalGrows(pre, a);
    TotalGrows(pre + [a], b);
    assert pre + [a] + [b] == pre + [a, b];
  }

  /** The one's-complement sum over bytes with a checksum in place of two zeros, at an even offset, is all ones
      exactly when that is the checksum of the bytes, or all ones for a checksum of zero. */
  lemma {:induction false} ReceiverAcceptsIff(s: seq<byte>, i: nat, w: uint16)
    requires i % 2 == 0 && i + 1 < |s| && s[i] == s[i + 1] == 0
    ensures OnesSum(Words(Splice(s, i, [w / 0x100, w % 0x100]))) == 0xffff
            <==> w == InternetChecksum(s) || (w == 0xffff && InternetChecksum(s) == 0)
  {
    hide Total, OnesSum, Words, Splice;
    TotalWithWord(s, i, w);
    OnesSumIsFolded(s);
    OnesSumIsFolded(Splice(s, i, [w / 0x100, w % 0x100]));
    AllOnesIff(Total(s), w);
  }

  lemma AllOnesIff(n: nat, w: uint16)
    ensures Folded(n + w) == 0xffff <==> w == 0xffff - Folded(n) || (w == 0xffff && Folded(n) == 0xffff)
  {
    AddFolded(w, n);
    FoldedRange(n);
  }

  lemma FoldedRange(n: nat)
    ensures Folded(n) <= 0xffff
  {
  }

  /** Where the fields of the pseudo header are (section 8.1 of RFC 2460): the two addresses, the length in four
      bytes, high byte first, three zeros, and the next header. */
  lemma PseudoHeaderLayout(src: seq<byte>, dst: seq<byte>, ipLen: uint32, nextHdr: byte)
    requires |src| == 16 && |dst| == 16
    ensures var h := PseudoHeader(src, dst, ipLen, nextHdr);
            && |h| == 40 && h[..16] == src && h[16..32] == dst
            && 0x1_0000 * Word(h[32], h[33]) + Word(h[34], h[35]) == ipLen
            && h[36] == h[37] == h[38] == 0 && h[39] == nextHdr
  {
    var h := PseudoHeader(src, dst, ipLen, nextHdr);
    assert h[..16] == src;
    LengthBytes(ipLen);
  }

  lemma LengthBytes(n: uint32)
    ensures var (hi, lo) := (n / 0x1_0000, n % 0x1_0000);
            Word(hi / 0x100, hi % 0x100) == hi && Word(lo / 0x100, lo % 0x100) == lo && 0x1_0000 * hi + lo == n
  {
  }
}
