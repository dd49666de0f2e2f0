/**
 The 6LoWPAN fragmenter (uc6LoWPANFragmentation.c): it takes an IPv6 packet, and on each
 request writes the headers and the next slice of the datagram into a frame.
 */
module Fragmenter {
  import opened LowpanTypes
  import opened Sequences
  import opened FrameHeaders
  import opened FramePacking
  import opened Packets

  datatype Status = NoError | StateError | ArgumentError | SizeError

  /** The largest datagram that is accepted: the minimum MTU of IPv6. */
  const MAX_PACKET_LENGTH: nat := 1280

  const USE_IPHC: byte := 1

  // ---------------------------------------------------------------------------
  // One fragment
  // ---------------------------------------------------------------------------

  /** How many of the remaining bytes go into a frame with room for `room`: all of them if
      they leave some room, else the largest multiple of 8 for which there is room. */
  function SliceLength(room: nat, left: nat): (n: nat)
    ensures n <= left && n <= room
    ensures left < room ==> n == left
    ensures left >= room ==> n % 8 == 0 && room < n + 8
  {
    if left < room then left else room / 8 * 8
  }

  /** The headers of the fragment at off. */
  function FragmentHeaders(h: Headers, tag: uint16, total: uint16, off: uint16): Headers {
    h.(hasFrag := true, frag := FragHeader(tag, total, off))
  }

  /** The mesh and the broadcast header, or their absence, are the same. */
  predicate SameExtras(a: Headers, b: Headers) {
    a.hasMesh == b.hasMesh && a.mesh == b.mesh && a.hasBc0 == b.hasBc0 && a.bc0 == b.bc0
  }

  function DispatchBytes(off: nat): seq<byte> {
    if off == 0 then [DISPATCH_IPV6] else []
  }

  datatype Slice = Slice(payload: seq<byte>, size: nat)

  /** The frame payload for the fragment at off, or the reason why there is none. */
  function NextFragment(d: seq<byte>, h: Headers, tag: uint16, off: uint16, maxLen: nat, flags: byte)
    : (r: (Status, Slice))
    requires off <= |d| < 0x1_0000
    ensures r.0.NoError? ==> 0 < r.1.size <= |d| - off && |r.1.payload| <= maxLen
  {
    var front := HeaderBytes(FragmentHeaders(h, tag, |d|, off));
    if front.None? || |front.value| > maxLen then (ArgumentError, Slice([], 0))
    else AfterHeaders(d, front.value, off, maxLen, flags)
  }

  /** The same once the headers are in the frame. */
  function AfterHeaders(d: seq<byte>, front: seq<byte>, off: uint16, maxLen: nat, flags: byte): (r: (Status, Slice))
    requires off <= |d| < 0x1_0000 && |front| <= maxLen
    ensures r.0.NoError? ==> 0 < r.1.size <= |d| - off && |r.1.payload| <= maxLen
  {
    if off == 0 && flags % 2 == USE_IPHC then
      (StateError, Slice([], 0))
    else if |front| == maxLen then
      (ArgumentError, Slice([], 0))
    else
      var room := maxLen - |front| - |DispatchBytes(off)|;
      var n := SliceLength(room, |d| - off);
      if n == 0 then (SizeError, Slice([], 0))
      else (NoError, Slice(front + DispatchBytes(off) + d[off..off + n], n))
  }

  /** A frame that does not end the datagram has less than eight bytes of room left. */
  lemma NextFragmentFills(d: seq<byte>, h: Headers, tag: uint16, off: uint16, maxLen: nat, flags: byte)
    requires off <= |d| < 0x1_0000
    ensures var (status, slice) := NextFragment(d, h, tag, off, maxLen, flags);
            status.NoError? && off + slice.size < |d| ==> slice.size % 8 == 0 && maxLen < |slice.payload| + 8
  {
    hide HeaderBytes;
  }

  /** Of the headers provided, only the mesh and the broadcast header matter. */
  lemma NextFragmentSame(d: seq<byte>, h: Headers, h': Headers, tag: uint16, off: uint16, maxLen: nat, flags: byte)
    requires off <= |d| < 0x1_0000 && SameExtras(h, h')
    ensures NextFragment(d, h, tag, off, maxLen, flags) == NextFragment(d, h', tag, off, maxLen, flags)
  {
    hide MeshBytes, FragBytes, Bc0Bytes, AfterHeaders;
  }

  /** The state after a request for which `result` was computed. */
  twostate predicate Delivered(token: Token, frame: Frame, result: (Status, Slice))
    reads token, frame, frame.buffer
  {
    && frame.Valid()
    && if result.0.NoError? then
         token.fragOffset == old(token.fragOffset) + result.1.size && frame.Payload() == result.1.payload
       else
         token.fragOffset == old(token.fragOffset)
  }

  class Token {
    var next: Token?
    var packet: Ipv6Packet?
    var lowpanHdrs: LowpanHeaders?
    var fragOffset: uint16
    var fragTag: uint16

    constructor ()
    {
      next, packet, lowpanHdrs := null, null, null;
      fragOffset, fragTag := 0, 0;
    }

    /** What holds of a token while its packet is fragmented. */
    ghost predicate Active()
      reads `packet, `fragOffset, packet
    {
      && packet != null && packet.Valid()
      && packet.TotalLength() <= MAX_PACKET_LENGTH && packet.PayloadLength() <= |packet.payload|
      && fragOffset <= packet.TotalLength()
      && (fragOffset % 8 == 0 || fragOffset == packet.TotalLength())
    }

    method Start(packet: Ipv6Packet, tag: uint16)
      requires packet.Valid() && packet.TotalLength() <= MAX_PACKET_LENGTH && packet.PayloadLength() <= |packet.payload|
      modifies `packet, `lowpanHdrs, `fragOffset, `fragTag
      ensures Active()
      ensures this.packet == packet && lowpanHdrs == null && fragOffset == 0 && fragTag == tag
    {
      this.packet := packet;
      lowpanHdrs := null;
      fragOffset := 0;
      fragTag := tag;
    }
  }

  /** The frame's payload becomes front + middle, where front is in the buffer already. */
  method FinishFrame(frame: Frame, off: byte, middle: seq<byte>)
    requires frame.Valid() && off + |middle| <= frame.buffer.Length
    modifies frame.buffer, frame`length
    ensures frame.Valid() && frame.Payload() == old(frame.buffer[..off]) + middle
  {
    MemCpy(middle, frame.buffer, off);
    frame.length := off + |middle|;
  }

  /** How much of maxFragSize bytes goes into a frame with room for payloadLen. */
  method FitSlice(payloadLen: byte, maxFragSize: uint16) returns (n: byte)
    ensures n == SliceLength(payloadLen, maxFragSize)
  {
    n := payloadLen;
    if maxFragSize < payloadLen {
      n := maxFragSize;
    } else {
      n := n / 8 * 8;
    }
  }

  lemma AlignedEnd(off: nat, n: nat, total: nat)
    requires (off % 8 == 0 || off == total) && off + n <= total && (n % 8 == 0 || off + n == total)
    ensures (off + n) % 8 == 0 || off + n == total
  {
  }

  /** Writes the first fragment, after the headers in the frame's buffer. */
  method PackFirstFragmentWithRawIpv6Header(token: Token, frame: Frame) returns (s: Status)
    requires token.Active() && token.fragOffset == 0 && token.lowpanHdrs != null
    requires frame.Valid() && token.lowpanHdrs.nextOffset <= frame.buffer.Length
    modifies token`fragOffset, frame.buffer, frame`length
    ensures token.Active()
    ensures var result := AfterHeaders(token.packet.Datagram(), old(frame.buffer[..token.lowpanHdrs.nextOffset]), 0,
                                       frame.buffer.Length, 0);
            s == result.0 && Delivered(token, frame, result)
  {
    hide Ipv6Packet.Datagram, Splice, SliceLength;
    var packet := token.packet;
    var payloadLen: byte := frame.buffer.Length;
    var off := token.lowpanHdrs.nextOffset;
    if payloadLen <= off {
      return ArgumentError;
    }
    frame.buffer[off] := DISPATCH_IPV6;
    assert frame.buffer[..off + 1] == old(frame.buffer[..off]) + [DISPATCH_IPV6];
    payloadLen := payloadLen - off - 1;
    payloadLen := FitSlice(payloadLen, packet.TotalLength());
    if payloadLen == 0 {
      return SizeError;
    }
    var data := CopyBytes(packet, 0, payloadLen);
    FinishFrame(frame, off + 1, data);
    token.fragOffset := payloadLen;
    return NoError;
  }

  /** Writes the first fragment; header compression is not implemented. */
  method PackFirstFragment(token: Token, frame: Frame, flags: byte) returns (s: Status)
    requires token.Active() && token.fragOffset == 0 && token.lowpanHdrs != null
    requires frame.Valid() && token.lowpanHdrs.nextOffset <= frame.buffer.Length
    modifies token`fragOffset, frame.buffer, frame`length
    ensures token.Active()
    ensures var result := AfterHeaders(token.packet.Datagram(), old(frame.buffer[..token.lowpanHdrs.nextOffset]), 0,
                                       frame.buffer.Length, flags);
            s == result.0 && Delivered(token, frame, result)
  {
    if flags % 2 == USE_IPHC {
      return StateError;
    }
    s := PackFirstFragmentWithRawIpv6Header(token, frame);
  }

  /** Writes the fragment at the token's offset, after the headers in the frame's buffer. */
  method PackSubsequentFragment(token: Token, frame: Frame, ghost flags: byte) returns (s: Status)
    requires token.Active() && token.fragOffset > 0 && token.lowpanHdrs != null
    requires frame.Valid() && token.lowpanHdrs.nextOffset <= frame.buffer.Length
    modifies token`fragOffset, frame.buffer, frame`length
    ensures token.Active()
    ensures var result := AfterHeaders(token.packet.Datagram(), old(frame.buffer[..token.lowpanHdrs.nextOffset]),
                                       old(token.fragOffset), frame.buffer.Length, flags);
            s == result.0 && Delivered(token, frame, result)
  {
    hide Ipv6Packet.Datagram, Splice, SliceLength;
    var packet := token.packet;
    var payloadLen: byte := frame.buffer.Length;
    var off := token.lowpanHdrs.nextOffset;
    if payloadLen <= off {
      return ArgumentError;
    }
    payloadLen := payloadLen - off;
    payloadLen := FitSlice(payloadLen, packet.TotalLength() - token.fragOffset);
    if payloadLen == 0 {
      return SizeError;
    }
    AlignedEnd(token.fragOffset, payloadLen, packet.TotalLength());
    var data := CopyBytes(packet, token.fragOffset, payloadLen);
    FinishFrame(frame, off, data);
    token.fragOffset := token.fragOffset + payloadLen;
    return NoError;
  }

  /** The next n bytes of the datagram: what is left of the header first, then the payload. */
  method CopyBytes(packet: Ipv6Packet, off: uint16, n: byte) returns (data: seq<byte>)
    requires packet.Valid() && packet.PayloadLength() <= |packet.payload|
    requires off + n <= packet.TotalLength()
    ensures data == packet.Datagram()[off..off + n]
  {
    DatagramSlice(packet.header, packet.payload, packet.PayloadLength(), off, n);
    var left, at := n, off;
    data := [];
    if at < IPV6_HEADER_LENGTH {
      var tmp := Smaller(IPV6_HEADER_LENGTH - at, left);
      data := packet.header[at..at + tmp];
      left := left - tmp;
      at := at + tmp;
    }
    if left > 0 {
      data := data + ReadAt(packet.payload, at - IPV6_HEADER_LENGTH, left);
    }
  }

  lemma DatagramSlice(header: seq<byte>, payload: seq<byte>, len: nat, off: nat, n: nat)
    requires |header| == IPV6_HEADER_LENGTH && len <= |payload| && off + n <= IPV6_HEADER_LENGTH + len
    ensures var tmp := if off < IPV6_HEADER_LENGTH then Smaller(IPV6_HEADER_LENGTH - off, n) else 0;
            (header + payload[..len])[off..off + n]
            == (if off < IPV6_HEADER_LENGTH then header[off..off + tmp] else [])
               + (if n > tmp then ReadAt(payload, off + tmp - IPV6_HEADER_LENGTH, n - tmp) else [])
  {
    var d := header + payload[..len];
    var tmp := if off < IPV6_HEADER_LENGTH then Smaller(IPV6_HEADER_LENGTH - off, n) else 0;
    if off < IPV6_HEADER_LENGTH {
      SliceInFirst(header, payload[..len], off, off + tmp);
    }
    if n > tmp {
      var at := off + tmp - IPV6_HEADER_LENGTH;
      SliceInSecond(header, payload, len, at, at + (n - tmp));
    }
    SplitAt(d, off, off + tmp, off + n);
  }

  lemma SliceInFirst(a: seq<byte>, b: seq<byte>, i: nat, j: nat)
    requires i <= j <= |a|
    ensures (a + b)[i..j] == a[i..j]
  {
  }

  lemma SliceInSecond(a: seq<byte>, b: seq<byte>, len: nat, i: nat, j: nat)
    requires i <= j <= len <= |b|
    ensures (a + b[..len])[|a| + i..|a| + j] == b[i..j]
  {
  }

  lemma SplitAt(s: seq<byte>, i: nat, j: nat, k: nat)
    requires i <= j <= k <= |s|
    ensures s[i..k] == s[i..j] + s[j..k]
  {
  }

  // ---------------------------------------------------------------------------
  // The fragmenter
  // ---------------------------------------------------------------------------

  /** A singly linked list of tokens; `nodes` is its content, front first. */
  class TokenList {
    var first: Token?
    ghost var nodes: seq<Token>
    ghost var members: set<Token>

    ghost predicate Valid()
      reads this, nodes`next
      ensures Valid() ==> (first == null <==> |nodes| == 0) && members == set n | n in nodes
    {
      && first == (if |nodes| == 0 then null else nodes[0])
      && (forall i {:trigger nodes[i].next} :: 0 <= i < |nodes| ==>
            nodes[i].next == if i + 1 < |nodes| then nodes[i + 1] else null)
      && (forall i, j :: 0 <= i < j < |nodes| ==> nodes[i] != nodes[j])
      && members == set n | n in nodes
    }

    constructor ()
      ensures Valid() && nodes == [] && members == {}
    {
      first, nodes, members := null, [], {};
    }

    /** The list of an array's tokens, in order. */
    constructor FromArray(tokens: seq<Token>)
      requires forall i, j :: 0 <= i < j < |tokens| ==> tokens[i] != tokens[j]
      modifies tokens`next
      ensures Valid() && nodes == tokens && members == set t | t in tokens
    {
      first := if |tokens| > 0 then tokens[0] else null;
      nodes := tokens;
      members := set t | t in tokens;
      new;
      for k := 0 to |tokens|
        invariant nodes == tokens && first == if |tokens| > 0 then tokens[0] else null
        invariant members == set t | t in tokens
        invariant forall i :: 0 <= i < k ==>
                    tokens[i].next == if i + 1 < |tokens| then tokens[i + 1] else null
      {
        tokens[k].next := if k + 1 < |tokens| then tokens[k + 1] else null;
      }
    }

    method PushFront(x: Token)
      requires Valid() && x !in members
      modifies this, x`next
      ensures Valid() && nodes == [x] + old(nodes) && members == old(members) + {x}
    {
      x.next := first;
      first := x;
      nodes := [x] + nodes;
      members := members + {x};
    }

    method PopFront() returns (x: Token)
      requires Valid() && |nodes| > 0
      modifies this
      ensures Valid() && [x] + nodes == old(nodes)
      ensures x in old(members) && members == old(members) - {x}
    {
      x := first;
      assert x == nodes[0];
      first := x.next;
      nodes := nodes[1..];
      members := members - {x};
    }

    /** Unlinks x, if it is on the list. */
    method Remove(x: Token) returns (found: bool, ghost k: nat)
      requires Valid()
      modifies this, members`next
      ensures Valid()
      ensures found <==> x in old(members)
      ensures found ==> k < |old(nodes)| && old(nodes)[k] == x && nodes == old(nodes)[..k] + old(nodes)[k + 1..]
      ensures !found ==> nodes == old(nodes)
      ensures members == old(members) - {x}
    {
      var prev: Token? := null;
      var curr := first;
      k := 0;
      while curr != null && curr != x
        invariant 0 <= k <= |nodes|
        invariant curr == if k < |nodes| then nodes[k] else null
        invariant prev == if k > 0 then nodes[k - 1] else null
        invariant forall i :: 0 <= i < k ==> nodes[i] != x
        decreases |nodes| - k
      {
        assert curr == nodes[k];
        prev := curr;
        curr := curr.next;
        k := k + 1;
      }
      if curr == null {
        return false, k;
      }
      if prev == null {
        first := curr.next;
      } else {
        prev.next := curr.next;
      }
      nodes := nodes[..k] + nodes[k + 1..];
      members := members - {x};
      return true, k;
    }
  }

  class Fragmenter {
    const currentPackets: TokenList
    const freePackets: TokenList
    var tagGenerator: uint16
    var fragFlags: byte

    ghost const pool: set<Token>

    /** The two lists partition the pool, and the current tokens are active. */
    ghost predicate Valid()
      reads this, currentPackets, freePackets, currentPackets.nodes`next, freePackets.nodes`next
      reads currentPackets.members`packet, currentPackets.members`fragOffset
      reads set t | t in currentPackets.members :: t.packet
    {
      && currentPackets != freePackets && currentPackets.Valid() && freePackets.Valid()
      && currentPackets.members !! freePackets.members
      && currentPackets.members + freePackets.members == pool
      && (forall t :: t in currentPackets.members ==> t.Active())
    }

    /** Threads the tokens of an array onto the free list. */
    constructor (tokens: seq<Token>)
      requires forall i, j :: 0 <= i < j < |tokens| ==> tokens[i] != tokens[j]
      modifies tokens`next
      ensures Valid() && fresh(this) && fresh(currentPackets) && fresh(freePackets)
      ensures currentPackets.nodes == [] && freePackets.nodes == tokens && pool == set t | t in tokens
      ensures tagGenerator == 0 && fragFlags == 0
    {
      currentPackets := new TokenList();
      freePackets := new TokenList.FromArray(tokens);
      tagGenerator, fragFlags := 0, 0;
      pool := set t | t in tokens;
    }

    /** Accepts a packet whose declared length fits the minimum MTU and its payload, if a
        token is free; the token is fresh on the current list, with the next tag. */
    method StartFragmentingIpv6Packet(packet: Ipv6Packet) returns (token: Token?)
      requires Valid() && packet.Valid()
      modifies this, currentPackets, freePackets, freePackets.members
      ensures Valid()
      ensures token != null <==>
              |old(freePackets.nodes)| > 0
              && 40 + Word(packet.header[4], packet.header[5]) <= 1280
              && Word(packet.header[4], packet.header[5]) <= |packet.payload|
      ensures token == null ==>
              currentPackets.nodes == old(currentPackets.nodes) && freePackets.nodes == old(freePackets.nodes)
              && tagGenerator == old(tagGenerator)
      ensures token != null ==>
              && currentPackets.nodes == [token] + old(currentPackets.nodes)
              && [token] + freePackets.nodes == old(freePackets.nodes)
              && token.packet == packet && token.fragOffset == 0 && token.lowpanHdrs == null
              && token.fragTag == old(tagGenerator) && tagGenerator == (old(tagGenerator) + 1) % 0x1_0000
    {
      hide TokenList.Valid, Token.Active;
      if freePackets.first == null {
        return null;
      }
      var packetLen := packet.PayloadLength();
      if packetLen > MAX_PACKET_LENGTH - IPV6_HEADER_LENGTH || packetLen > |packet.payload| {
        return null;
      }
      token := freePackets.PopFront();
      currentPackets.PushFront(token);
      token.Start(packet, tagGenerator);
      tagGenerator := (tagGenerator + 1) % 0x1_0000;
    }

    method ProvideAdditional6LoWPANHeadersForIpv6Packet(token: Token, hdrs: LowpanHeaders)
      requires Valid()
      modifies token`lowpanHdrs
      ensures Valid() && token.lowpanHdrs == hdrs
    {
      hide TokenList.Valid, Token.Active;
      token.lowpanHdrs := hdrs;
    }

    /** Writes the next fragment into the frame, or reports why it cannot; only a success moves the offset. */
    method RequestNextFragmentOfIpv6Packet(token: Token, frame: Frame) returns (s: Status)
      requires Valid() && token in currentPackets.members && frame.Valid()
      modifies token`fragOffset, token.lowpanHdrs, frame.buffer, frame`length
      ensures Valid()
      ensures token.lowpanHdrs == null ==>
                s == StateError && token.fragOffset == old(token.fragOffset) && unchanged(frame, frame.buffer)
      ensures token.lowpanHdrs != null ==>
                SameExtras(token.lowpanHdrs.Value(), old(token.lowpanHdrs.Value()))
      ensures token.lowpanHdrs != null ==>
              var (status, slice) := NextFragment(token.packet.Datagram(), old(token.lowpanHdrs.Value()),
                                                  token.fragTag, old(token.fragOffset), frame.buffer.Length, fragFlags);
              s == status && Delivered(token, frame, (status, slice))
    {
      hide TokenList.Valid;
      if token.lowpanHdrs == null {
        return StateError;
      }
      s := RequestFragment(token, frame, fragFlags);
    }

    /** Gives the packet back and frees its token, or returns null when the token is not current. */
    method FinishFragmentingIpv6Packet(token: Token) returns (packet: Ipv6Packet?)
      requires Valid()
      modifies this, currentPackets, freePackets, currentPackets.members
      ensures Valid()
      ensures token !in old(currentPackets.members) ==>
              packet == null && currentPackets.nodes == old(currentPackets.nodes) && freePackets.nodes == old(freePackets.nodes)
      ensures token in old(currentPackets.members) ==>
              && packet == old(token.packet) && freePackets.nodes == [token] + old(freePackets.nodes)
              && exists k :: 0 <= k < |old(currentPackets.nodes)| && old(currentPackets.nodes)[k] == token
                   && currentPackets.nodes == old(currentPackets.nodes)[..k] + old(currentPackets.nodes)[k + 1..]
    {
      hide TokenList.Valid, Token.Active;
      var found, k := currentPackets.Remove(token);
      if !found {
        return null;
      }
      freePackets.PushFront(token);
      packet := token.packet;
      token.packet := null;
      token.lowpanHdrs := null;
    }
  }

  method RequestFragment(token: Token, frame: Frame, flags: byte) returns (s: Status)
    requires token.Active() && token.lowpanHdrs != null && frame.Valid()
    modifies token`fragOffset, token.lowpanHdrs, frame.buffer, frame`length
    ensures token.Active()
    ensures SameExtras(token.lowpanHdrs.Value(), old(token.lowpanHdrs.Value()))
    ensures var (status, slice) := NextFragment(token.packet.Datagram(), old(token.lowpanHdrs.Value()),
                                                token.fragTag, old(token.fragOffset), frame.buffer.Length, flags);
            s == status && Delivered(token, frame, (status, slice))
  {
    hide HeaderBytes, Splice, AfterHeaders, Ipv6Packet.Datagram;
    ghost var d, off := token.packet.Datagram(), token.fragOffset;
    ghost var hf := FragmentHeaders(token.lowpanHdrs.Value(), token.fragTag, |d|, off);
    token.lowpanHdrs.AddFragHeader(token.fragTag, token.packet.TotalLength(), token.fragOffset);
    ghost var was := frame.buffer[..];
    var ok := token.lowpanHdrs.Pack(frame);
    if !ok {
      return ArgumentError;
    }
    SpliceStart(was, HeaderBytes(hf).value);
    assert frame.buffer[..token.lowpanHdrs.nextOffset] == HeaderBytes(hf).value;
    if token.fragOffset == 0 {
      s := PackFirstFragment(token, frame, flags);
    } else {
      s := PackSubsequentFragment(token, frame, flags);
    }
  }

  lemma SpliceStart(was: seq<byte>, b: seq<byte>)
    requires |b| <= |was|
    ensures Splice(was, 0, b)[..|b|] == b
  {
  }
}
