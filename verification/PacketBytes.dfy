/**
 Copying a fragment's bytes into a packet under reassembly: first the part that falls into
 the IPv6 header, then the rest into the payload, comparing with what was there
 (uc6LoWPANDefragmentation.c and uc6LoWPANIpv6HeaderCompression.c).
 On the packet's bytes this is one overwrite and one comparison.
 */
module PacketBytes {
  import opened LowpanTypes
  import opened Sequences
  import opened Packets
  import opened ReassemblyModel

  function HeaderAfter(header: seq<byte>, off: nat, data: seq<byte>): (r: seq<byte>)
    requires |header| == IPV6_HEADER_LENGTH
    ensures |r| == IPV6_HEADER_LENGTH
  {
    var n := HeaderShare(off, data);
    if off < IPV6_HEADER_LENGTH then header[..off] + data[..n] + header[off + n..] else header
  }

  function PayloadAfter(payload: seq<byte>, off: nat, data: seq<byte>): (r: seq<byte>)
    ensures |r| == |payload|
  {
    var n := HeaderShare(off, data);
    if n < |data| then WriteAt(payload, off + n - IPV6_HEADER_LENGTH, data[n..]) else payload
  }

  lemma SpliceInFirst(h: seq<byte>, p: seq<byte>, off: nat, a: seq<byte>)
    requires off + |a| <= |h|
    ensures (h[..off] + a + h[off + |a|..]) + p == Splice(h + p, off, a)
  {
  }

  lemma SpliceInSecond(h: seq<byte>, p: seq<byte>, at: nat, b: seq<byte>)
    requires at + |b| <= |p|
    ensures h + (p[..at] + b + p[at + |b|..]) == Splice(h + p, |h| + at, b)
  {
    assert (h + p)[..|h| + at] == h + p[..at];
    assert (h + p)[|h| + at + |b|..] == p[at + |b|..];
  }

  lemma FullWrite(payload: seq<byte>, at: nat, b: seq<byte>)
    requires |b| > 0 ==> at + |b| <= |payload|
    ensures |b| > 0 ==> WriteAt(payload, at, b) == payload[..at] + b + payload[at + |b|..]
  {
    assert b[..|b|] == b;
  }

  lemma TwoPartsAreOneSplice(header: seq<byte>, payload: seq<byte>, off: nat, data: seq<byte>)
    requires |header| == IPV6_HEADER_LENGTH && off + |data| <= IPV6_HEADER_LENGTH + |payload|
    ensures HeaderAfter(header, off, data) + PayloadAfter(payload, off, data) == Splice(header + payload, off, data)
  {
    hide Splice, WriteAt;
    var n := HeaderShare(off, data);
    var a, b := data[..n], data[n..];
    var at := if off < IPV6_HEADER_LENGTH then 0 else off - IPV6_HEADER_LENGTH;
    assert data == a + b;
    FullWrite(payload, at, b);
    if off < IPV6_HEADER_LENGTH {
      SpliceInFirst(header, payload, off, a);
      if n < |data| {
        SpliceInSecond(HeaderAfter(header, off, data), payload, at, b);
        SpliceNext(header + payload, off, a, b);
      } else {
        assert a == data;
      }
    } else {
      SpliceInSecond(header, payload, at, b);
    }
  }

  lemma SplitEqual(window: seq<byte>, data: seq<byte>, n: nat)
    requires n <= |window| == |data|
    ensures window == data <==> window[..n] == data[..n] && window[n..] == data[n..]
  {
    assert window == window[..n] + window[n..] && data == data[..n] + data[n..];
  }

  lemma WindowInFirst(h: seq<byte>, p: seq<byte>, off: nat, len: nat, n: nat)
    requires off + n <= |h| && n <= len && off + len <= |h| + |p|
    ensures (h + p)[off..off + len][..n] == h[off..off + n]
  {
    assert (h + p)[off..off + len][..n] == (h + p)[off..off + n];
  }

  lemma WindowInSecond(h: seq<byte>, p: seq<byte>, off: nat, len: nat, n: nat)
    requires |h| <= off + n && n <= len && off + len <= |h| + |p|
    ensures (h + p)[off..off + len][n..] == p[off + n - |h|..off + len - |h|]
  {
    assert (h + p)[off..off + len][n..] == (h + p)[off + n..off + len];
  }

  lemma TwoPartsAreOneComparison(header: seq<byte>, payload: seq<byte>, off: nat, data: seq<byte>)
    requires |header| == IPV6_HEADER_LENGTH && off + |data| <= IPV6_HEADER_LENGTH + |payload|
    ensures var n := HeaderShare(off, data);
            (header + payload)[off..off + |data|] == data <==>
            (off < IPV6_HEADER_LENGTH ==> header[off..off + n] == data[..n])
            && (n < |data| ==> ReadAt(payload, off + n - IPV6_HEADER_LENGTH, |data| - n) == data[n..])
  {
    var n := HeaderShare(off, data);
    var window := (header + payload)[off..off + |data|];
    SplitEqual(window, data, n);
    if off < IPV6_HEADER_LENGTH {
      WindowInFirst(header, payload, off, |data|, n);
    }
    if n < |data| {
      WindowInSecond(header, payload, off, |data|, n);
    }
  }

  /** Copies data into the packet at off; `fits` tells whether all of it had room, and
      `identical` whether the packet had the same bytes there. */
  method CopyIntoPacket(packet: Ipv6Packet, off: nat, data: seq<byte>) returns (fits: bool, identical: bool)
    requires packet.Valid() && |data| > 0
    modifies packet`header, packet`payload
    ensures packet.Valid() && |packet.payload| == |old(packet.payload)|
    ensures fits <==> off + |data| <= |old(packet.Bytes())|
    ensures fits ==> packet.Bytes() == Splice(old(packet.Bytes()), off, data)
    ensures fits ==> (identical <==> old(packet.Bytes())[off..off + |data|] == data)
  {
    if off + |data| <= IPV6_HEADER_LENGTH + |packet.payload| {
      TwoPartsAreOneSplice(packet.header, packet.payload, off, data);
      TwoPartsAreOneComparison(packet.header, packet.payload, off, data);
    }
    identical, fits := true, true;
    var n := HeaderShare(off, data);
    if off < IPV6_HEADER_LENGTH {
      if packet.header[off..off + n] != data[..n] {
        identical := false;
      }
      packet.header := packet.header[..off] + data[..n] + packet.header[off + n..];
    }
    if n < |data| {
      var at := off + n - IPV6_HEADER_LENGTH;
      if ReadAt(packet.payload, at, |data| - n) != data[n..] {
        identical := false;
      }
      fits := RoomAt(packet.payload, at, |data| - n) == |data| - n;
      packet.payload := WriteAt(packet.payload, at, data[n..]);
    }
  }

  /** Unpacks an uncompressed IPv6 header and what follows it from a frame's payload into the
      packet.  Returns the number of bytes, or zero when there are none, the dispatch is another
      one, a next fragment could not start there, or the packet has no room. */
  method RawIpv6HeaderUnpack(payload: seq<byte>, size: nat, packet: Ipv6Packet) returns (n: nat, identical: bool)
    requires packet.Valid()
    modifies packet`header, packet`payload
    ensures packet.Valid() && |packet.payload| == |old(packet.payload)|
    ensures var data := FragmentData(0, size, payload);
            && (n > 0 <==> data.Some? && |data.value| <= |old(packet.Bytes())|)
            && (n > 0 ==> n == |data.value|
                          && packet.Bytes() == Splice(old(packet.Bytes()), 0, data.value)
                          && (identical <==> old(packet.Bytes())[0..n] == data.value))
  {
    if |payload| == 0 || payload[0] != DISPATCH_IPV6 {
      return 0, false;
    }
    n := |payload| - 1;
    if n % 8 != 0 && size > n {
      return 0, false;
    }
    if n == 0 {
      return 0, true;
    }
    var fits: bool;
    fits, identical := CopyIntoPacket(packet, 0, payload[1..]);
    if !fits {
      return 0, false;
    }
  }
}
