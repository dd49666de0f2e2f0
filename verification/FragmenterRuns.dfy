/**
 Requests to the fragmenter, one after another: together they emit what the specification
 emits, and frames with enough room finish the datagram.
 */
module FragmenterRuns {
  import opened LowpanTypes
  import opened Sequences
  import opened FrameHeaders
  import opened FramePacking
  import opened Packets
  import opened Fragmenter
  import opened EndToEnd

  // ---------------------------------------------------------------------------
  // When a request succeeds
  // ---------------------------------------------------------------------------

  /** How many bytes of the datagram a frame has room for, behind the headers and the dispatch. */
  function Room(d: seq<byte>, h: Headers, tag: uint16, off: uint16, maxLen: nat): int
    requires |d| < 0x1_0000 && HeaderBytes(FragmentHeaders(h, tag, |d|, off)).Some?
  {
    maxLen - |HeaderBytes(FragmentHeaders(h, tag, |d|, off)).value| - |DispatchBytes(off)|
  }

  /** A request succeeds exactly when the headers have a serialized form, no compression is asked
      for, and what is left fits with a byte to spare or there is room for eight bytes. */
  lemma NextFragmentSucceedsIff(d: seq<byte>, h: Headers, tag: uint16, off: uint16, maxLen: nat, flags: byte)
    requires off <= |d| < 0x1_0000
    ensures NextFragment(d, h, tag, off, maxLen, flags).0.NoError? <==>
            && HeaderBytes(FragmentHeaders(h, tag, |d|, off)).Some?
            && !(off == 0 && flags % 2 == USE_IPHC)
            && off < |d| && (|d| - off < Room(d, h, tag, off, maxLen) || 8 <= Room(d, h, tag, off, maxLen))
    ensures NextFragment(d, h, tag, off, maxLen, flags).0.StateError? <==>
            && HeaderBytes(FragmentHeaders(h, tag, |d|, off)).Some?
            && |HeaderBytes(FragmentHeaders(h, tag, |d|, off)).value| <= maxLen
            && off == 0 && flags % 2 == 1
    ensures NextFragment(d, h, tag, off, maxLen, flags).0.SizeError? <==>
            && HeaderBytes(FragmentHeaders(h, tag, |d|, off)).Some?
            && |HeaderBytes(FragmentHeaders(h, tag, |d|, off)).value| < maxLen
            && !(off == 0 && flags % 2 == 1)
            && if |d| - off < Room(d, h, tag, off, maxLen) then off == |d| else Room(d, h, tag, off, maxLen) < 8
  {
    hide HeaderBytes;
  }

  /** Mesh headers without a serialized form are the only ones that stop the fragmenter. */
  lemma HeadersSerialize(d: seq<byte>, h: Headers, tag: uint16, off: uint16)
    requires |d| < 0x1_0000 && off % 8 == 0
    ensures HeaderBytes(FragmentHeaders(h, tag, |d|, off)).Some? <==> MeshPart(h).Some?
  {
  }

  function AddrLength(a: LinkAddr): nat {
    if a.Extended? then 8 else 2
  }

  /** The bytes in front of a slice: the mesh header, the broadcast header, and a fragmentation header of four
      bytes with the dispatch of the datagram behind it, or of five. */
  function Overhead(h: Headers): nat {
    (if h.hasMesh then
       1 + (if h.mesh.hopLimit >= 15 then 1 else 0) + AddrLength(h.mesh.src) + AddrLength(h.mesh.dst)
     else 0)
    + (if h.hasBc0 then 2 else 0) + 5
  }

  lemma RoomIs(d: seq<byte>, h: Headers, tag: uint16, off: uint16, maxLen: nat)
    requires |d| < 0x1_0000 && off % 8 == 0 && MeshPart(h).Some?
    ensures HeaderBytes(FragmentHeaders(h, tag, |d|, off)).Some?
    ensures Room(d, h, tag, off, maxLen) == maxLen - Overhead(h)
  {
    HeadersSerialize(d, h, tag, off);
    if h.hasMesh {
      assert |AddrBytes(h.mesh.src)| == AddrLength(h.mesh.src) && |AddrBytes(h.mesh.dst)| == AddrLength(h.mesh.dst);
    }
  }

  /** How many bytes a frame with this limit takes when there are enough. */
  function Capacity(h: Headers, limit: nat): nat {
    if limit < Overhead(h) then 0 else (limit - Overhead(h)) / 8 * 8
  }

  /** The most that a frame with this limit takes as the last one. */
  function LastCapacity(h: Headers, limit: nat): nat {
    if limit <= Overhead(h) then 0
    else if (limit - Overhead(h)) % 8 == 0 then limit - Overhead(h) else limit - Overhead(h) - 1
  }

  /** One request: it takes all that is left, if that fits, or the capacity, or nothing. */
  lemma RequestTakes(d: seq<byte>, h: Headers, tag: uint16, off: nat, limit: nat)
    requires off < |d| < 0x800 && off % 8 == 0 && MeshPart(h).Some?
    ensures var (status, slice) := NextFragment(d, h, tag, off, limit, 0);
            var left := |d| - off;
            && (status.NoError? <==> left <= LastCapacity(h, limit) || Capacity(h, limit) > 0)
            && (status.NoError? ==> slice.size == if left <= LastCapacity(h, limit) then left else Capacity(h, limit))
            && (Capacity(h, limit) < left || left <= LastCapacity(h, limit))
  {
    hide HeaderBytes, MeshPart, Overhead;
    RoomIs(d, h, tag, off, limit);
    NextFragmentSucceedsIff(d, h, tag, off, limit, 0);
    CapacityIs(h, limit, |d| - off);
  }

  /** The largest multiple of 8 in the room, and all that fits with a byte to spare or is such a multiple. */
  lemma CapacityIs(h: Headers, limit: nat, left: nat)
    ensures var room := limit - Overhead(h);
            && (Capacity(h, limit) > 0 <==> room >= 8)
            && (left > 0 ==> (left <= LastCapacity(h, limit) <==> left < room || (left == room && room % 8 == 0)))
            && (room > 0 && left < room ==> SliceLength(room, left) == left)
            && (room > 0 && left >= room ==> SliceLength(room, left) == Capacity(h, limit))
            && (left > Capacity(h, limit) || left == 0 || left <= LastCapacity(h, limit))
  {
    hide Overhead;
  }

  /** How much n frames with this limit can take in all: all but the last at their capacity. */
  function MostBytes(h: Headers, limit: nat, n: nat): nat
    requires n > 0
  {
    (n - 1) * Capacity(h, limit) + LastCapacity(h, limit)
  }

  lemma {:induction false} MostBytesStep(h: Headers, limit: nat, n: nat)
    requires n > 0
    ensures MostBytes(h, limit, n) >= LastCapacity(h, limit)
    ensures MostBytes(h, limit, 1) == LastCapacity(h, limit)
    ensures n > 1 ==> MostBytes(h, limit, n) == MostBytes(h, limit, n - 1) + Capacity(h, limit)
  {
    hide Capacity, LastCapacity;
    var c := Capacity(h, limit);
    MulNat(n - 1, c);
    assert n > 1 ==> (n - 1) * c == (n - 2) * c + c;
  }

  /** Frames with one and the same limit finish what is left of a datagram exactly when they can take it. */
  lemma {:induction false} FinishedIff(d: seq<byte>, h: Headers, tag: uint16, off: nat, limit: nat, n: nat)
    requires off <= |d| < 0x800 && (off % 8 == 0 || off == |d|) && MeshPart(h).Some? && n > 0
    ensures EmittedEnd(off, Emit(d, h, tag, off, Same(limit, n))) == |d| <==> |d| - off <= MostBytes(h, limit, n)
    decreases n
  {
    hide NextFragment, MeshPart, Capacity, LastCapacity, MostBytes, Emit, EmittedEnd;
    assert Same(limit, n) == [limit] + Same(limit, n - 1);
    EmitNext(d, h, tag, off, limit, Same(limit, n - 1));
    MostBytesStep(h, limit, n);
    if off == |d| {
      NothingLeft(d, h, tag, off, Same(limit, n));
    } else {
      RequestTakes(d, h, tag, off, limit);
      var (status, slice) := NextFragment(d, h, tag, off, limit, 0);
      if status.NoError? {
        EndOfMore(Emitted(off, slice.size, slice.payload), Emit(d, h, tag, off + slice.size, Same(limit, n - 1)));
      }
      if |d| - off <= LastCapacity(h, limit) {
        NothingLeft(d, h, tag, |d|, Same(limit, n - 1));
      } else if n == 1 {
        EmitNothing(d, h, tag, if status.NoError? then off + slice.size else off);
      } else {
        CapacityAligned(h, limit);
        FinishedIff(d, h, tag, if status.NoError? then off + slice.size else off, limit, n - 1);
      }
    }
  }

  function Same(limit: nat, n: nat): (limits: seq<nat>)
    ensures |limits| == n && forall i :: 0 <= i < n ==> limits[i] == limit
  {
    seq(n, _ => limit)
  }

  lemma MulNat(a: nat, b: nat)
    ensures a * b >= 0
  {
  }

  lemma CapacityAligned(h: Headers, limit: nat)
    ensures Capacity(h, limit) % 8 == 0
  {
  }

  lemma {:induction false} NothingLeft(d: seq<byte>, h: Headers, tag: uint16, off: nat, limits: seq<nat>)
    requires off == |d| < 0x800
    ensures EmittedEnd(off, Emit(d, h, tag, off, limits)) == |d|
  {
    EmitPartitions(d, h, tag, off, limits);
  }

  /** Over every run of requests, a frame that does not end the datagram has less than eight bytes of room left. */
  lemma {:induction false} EmitFills(d: seq<byte>, h: Headers, tag: uint16, off: nat, limit: nat, n: nat)
    requires off <= |d| < 0x800
    ensures forall e :: e in Emit(d, h, tag, off, Same(limit, n)) && e.offset + e.size < |d| ==>
              e.size % 8 == 0 && limit < |e.payload| + 8
    decreases n
  {
    hide NextFragment;
    if n > 0 {
      NextFragmentFills(d, h, tag, off, limit, 0);
      var (status, slice) := NextFragment(d, h, tag, off, limit, 0);
      assert Same(limit, n)[1..] == Same(limit, n - 1);
      EmitFills(d, h, tag, if status.NoError? then off + slice.size else off, limit, n - 1);
    }
  }

  /** Frames with room for the headers and eight bytes more finish the datagram when there are enough of them
      for what is left at the capacity of the smallest. */
  lemma {:induction false} EnoughFramesFinish(d: seq<byte>, h: Headers, tag: uint16, off: nat, limit: nat,
        limits: seq<nat>)
    requires off <= |d| < 0x800 && (off % 8 == 0 || off == |d|) && MeshPart(h).Some?
    requires (forall i :: 0 <= i < |limits| ==> limits[i] >= limit)
    requires limit >= Overhead(h) + 8 && |d| - off <= |limits| * Capacity(h, limit)
    ensures EmittedEnd(off, Emit(d, h, tag, off, limits)) == |d|
    decreases |limits|
  {
    hide NextFragment, MeshPart, Capacity, LastCapacity, Emit, EmittedEnd, Overhead;
    var c := Capacity(h, limit);
    if off == |d| {
      NothingLeft(d, h, tag, off, limits);
    } else if |limits| > 0 {
      RequestTakes(d, h, tag, off, limits[0]);
      MoreCapacity(h, limit, limits[0]);
      CapacityAligned(h, limits[0]);
      var (status, slice) := NextFragment(d, h, tag, off, limits[0], 0);
      assert limits == [limits[0]] + limits[1..];
      EmitNext(d, h, tag, off, limits[0], limits[1..]);
      EndOfMore(Emitted(off, slice.size, slice.payload), Emit(d, h, tag, off + slice.size, limits[1..]));
      assert |limits| * c == (|limits| - 1) * c + c;
      MulNat(|limits| - 1, c);
      EnoughFramesFinish(d, h, tag, off + slice.size, limit, limits[1..]);
    }
  }

  lemma MoreCapacity(h: Headers, limit: nat, limit': nat)
    requires Overhead(h) + 8 <= limit <= limit'
    ensures 8 <= Capacity(h, limit) <= Capacity(h, limit')
  {
    hide Overhead;
  }

  /** In particular, one frame with room for 34 bytes for every eight bytes of what is left. */
  lemma {:induction false} RoomyFramesFinish(d: seq<byte>, h: Headers, tag: uint16, off: nat, limits: seq<nat>)
    requires off <= |d| < 0x800 && (off % 8 == 0 || off == |d|) && MeshPart(h).Some?
    requires (forall i :: 0 <= i < |limits| ==> limits[i] >= 34) && |d| - off <= 8 * |limits|
    ensures EmittedEnd(off, Emit(d, h, tag, off, limits)) == |d|
  {
    hide Emit, Capacity, MeshPart;
    MoreCapacity(h, 34, 34);
    MulMonoCapacity(|limits|, 8, Capacity(h, 34));
    EnoughFramesFinish(d, h, tag, off, 34, limits);
  }

  lemma MulMonoCapacity(n: nat, a: nat, b: nat)
    requires a <= b
    ensures a * n <= n * b
  {
  }

  lemma EndOfMore(e: Emitted, es: seq<Emitted>)
    ensures EmittedEnd(e.offset, [e] + es) == EmittedEnd(e.offset + e.size, es)
  {
  }

  /** A frame with room for 34 bytes takes eight bytes, or all that is left. */
  lemma RoomyFrame(d: seq<byte>, h: Headers, tag: uint16, off: nat, maxLen: nat)
    requires off < |d| < 0x800 && off % 8 == 0 && MeshPart(h).Some? && maxLen >= 34
    ensures var (status, slice) := NextFragment(d, h, tag, off, maxLen, 0);
            && status.NoError? && (slice.size >= 8 || off + slice.size == |d|) && off + slice.size <= |d|
            && ((off + slice.size) % 8 == 0 || off + slice.size == |d|)
  {
    hide HeaderBytes, MeshPart;
    HeadersSerialize(d, h, tag, off);
    NextFragmentSucceedsIff(d, h, tag, off, maxLen, 0);
  }

  // ---------------------------------------------------------------------------
  // Many requests
  // ---------------------------------------------------------------------------

  /** Without its flag for compression, or past the first fragment, the fragmenter emits as without flags. */
  lemma FlagsDoNotMatter(d: seq<byte>, h: Headers, tag: uint16, off: uint16, maxLen: nat, flags: byte)
    requires off <= |d| < 0x1_0000 && (off > 0 || flags % 2 != USE_IPHC)
    ensures NextFragment(d, h, tag, off, maxLen, flags) == NextFragment(d, h, tag, off, maxLen, 0)
  {
    hide HeaderBytes;
  }

  function Payloads(es: seq<Emitted>): (ps: seq<seq<byte>>)
    ensures |ps| == |es| && forall i :: 0 <= i < |es| ==> ps[i] == es[i].payload
  {
    seq(|es|, i requires 0 <= i < |es| => es[i].payload)
  }

  function Limits(frames: seq<Frame>): (ls: seq<nat>)
    ensures |ls| == |frames| && forall i :: 0 <= i < |frames| ==> ls[i] == frames[i].buffer.Length
  {
    seq(|frames|, i requires 0 <= i < |frames| => frames[i].buffer.Length as nat)
  }

  ghost function Buffers(frames: seq<Frame>): set<array<byte>> {
    set f | f in frames :: f.buffer
  }

  lemma LimitsTail(frames: seq<Frame>, i: nat)
    requires i < |frames|
    ensures Limits(frames[i..]) == [frames[i].buffer.Length] + Limits(frames[i + 1..])
  {
  }

  lemma EmitNext(d: seq<byte>, h: Headers, tag: uint16, off: nat, limit: nat, limits: seq<nat>)
    requires off <= |d| < 0x800
    ensures var (status, slice) := NextFragment(d, h, tag, off, limit, 0);
            Emit(d, h, tag, off, [limit] + limits)
            == if status.NoError? then
                 [Emitted(off, slice.size, slice.payload)] + Emit(d, h, tag, off + slice.size, limits)
               else Emit(d, h, tag, off, limits)
  {
    hide NextFragment;
    assert ([limit] + limits)[1..] == limits;
  }

  /** What a fragmenter with these flags emits: with the flag for header compression no first fragment, and nothing. */
  function EmitWith(d: seq<byte>, h: Headers, tag: uint16, off: nat, limits: seq<nat>, flags: byte): seq<Emitted>
    requires off <= |d| < 0x800
  {
    if off == 0 && flags % 2 == USE_IPHC then [] else Emit(d, h, tag, off, limits)
  }

  /** What is emitted in all is what is done and what is emitted from here on for the other frames. */
  ghost predicate Emitting(d: seq<byte>, h: Headers, tag: uint16, off: nat, limits: seq<nat>, flags: byte,
                           done: seq<Emitted>, at: nat, rest: seq<nat>)
    requires off <= |d| < 0x800
  {
    && off <= at <= |d| && at == EmittedEnd(off, done)
    && EmitWith(d, h, tag, off, limits, flags) == done + EmitWith(d, h, tag, at, rest, flags)
    && (at == 0 ==> done == [] && off == 0)
  }

  lemma EmittingBegins(d: seq<byte>, h: Headers, tag: uint16, off: nat, limits: seq<nat>, flags: byte)
    requires off <= |d| < 0x800
    ensures Emitting(d, h, tag, off, limits, flags, [], off, limits)
  {
    hide Emit;
    EmitNothing(d, h, tag, off);
  }

  lemma EmittingGoesOn(d: seq<byte>, h: Headers, tag: uint16, off: nat, limits: seq<nat>, flags: byte,
                       done: seq<Emitted>, at: nat, limit: nat, rest: seq<nat>)
    requires off <= |d| < 0x800 && Emitting(d, h, tag, off, limits, flags, done, at, [limit] + rest)
    ensures at <= |d|
    ensures var (status, slice) := NextFragment(d, h, tag, at, limit, flags);
            if status.NoError? then
              Emitting(d, h, tag, off, limits, flags, done + [Emitted(at, slice.size, slice.payload)], at + slice.size,
                       rest)
            else Emitting(d, h, tag, off, limits, flags, done, at, rest)
  {
    hide Emit, NextFragment, EmittedEnd;
    if at == 0 && flags % 2 == USE_IPHC {
      NextFragmentSucceedsIff(d, h, tag, at, limit, flags);
    } else {
      FlagsDoNotMatter(d, h, tag, at, limit, flags);
      EmitNext(d, h, tag, at, limit, rest);
      var (status, slice) := NextFragment(d, h, tag, at, limit, 0);
      if status.NoError? {
        var e := Emitted(at, slice.size, slice.payload);
        var more := Emit(d, h, tag, at + slice.size, rest);
        EndOfOneMore(off, done, e);
        assert done + ([e] + more) == (done + [e]) + more;
      }
    }
  }

  lemma EmittingEnds(d: seq<byte>, h: Headers, tag: uint16, off: nat, limits: seq<nat>, flags: byte,
                     done: seq<Emitted>, at: nat)
    requires off <= |d| < 0x800 && Emitting(d, h, tag, off, limits, flags, done, at, [])
    ensures EmitWith(d, h, tag, off, limits, flags) == done && at == EmittedEnd(off, done)
  {
    EmitNothing(d, h, tag, at);
    assert done + [] == done;
  }

  /** One request, for headers whose mesh and broadcast parts are those of h. */
  method RequestOne(fragmenter: Fragmenter, token: Token, frame: Frame, ghost h: Headers)
    returns (got: Option<seq<byte>>)
    requires fragmenter.Valid() && token in fragmenter.currentPackets.members && token.lowpanHdrs != null
             && frame.Valid()
    requires SameExtras(token.lowpanHdrs.Value(), h)
    modifies token`fragOffset, token.lowpanHdrs, frame.buffer, frame`length
    ensures fragmenter.Valid() && frame.Valid() && token.Active() && old(token.Active())
    ensures SameExtras(token.lowpanHdrs.Value(), h)
    ensures var (status, slice) := NextFragment(token.packet.Datagram(), h, token.fragTag, old(token.fragOffset),
                                                frame.buffer.Length, fragmenter.fragFlags);
            && got == (if status.NoError? then Some(slice.payload) else None)
            && token.fragOffset == old(token.fragOffset) + if status.NoError? then slice.size else 0
  {
    hide TokenList.Valid, NextFragment, Ipv6Packet.Datagram;
    NextFragmentSame(token.packet.Datagram(), token.lowpanHdrs.Value(), h, token.fragTag, token.fragOffset,
                     frame.buffer.Length, fragmenter.fragFlags);
    var status := fragmenter.RequestNextFragmentOfIpv6Packet(token, frame);
    got := if status.NoError? then Some(frame.Payload()) else None;
  }

  /** Requests a fragment for each frame in turn; the payloads of the requests that succeed are those
      that the specification emits, and the token ends where they end. */
  method RequestFragments(fragmenter: Fragmenter, token: Token, frames: seq<Frame>) returns (sent: seq<seq<byte>>)
    requires fragmenter.Valid() && token in fragmenter.currentPackets.members && token.lowpanHdrs != null
    requires forall i :: 0 <= i < |frames| ==> frames[i].Valid()
    modifies token`fragOffset, token.lowpanHdrs, frames`length, Buffers(frames)
    ensures fragmenter.Valid()
    ensures token.Active() && old(token.Active()) && token.packet.TotalLength() < 0x800
    ensures SameExtras(token.lowpanHdrs.Value(), old(token.lowpanHdrs.Value()))
    ensures var es := EmitWith(token.packet.Datagram(), old(token.lowpanHdrs.Value()), token.fragTag,
                               old(token.fragOffset), Limits(frames), fragmenter.fragFlags);
            sent == Payloads(es) && token.fragOffset == EmittedEnd(old(token.fragOffset), es)
  {
    hide Fragmenter.Valid, NextFragment, Ipv6Packet.Datagram, Emitting, EmitWith, EmittedEnd, Frame.Valid, SameExtras;
    CurrentIsActive(fragmenter, token);
    ghost var d, h, tag, off := token.packet.Datagram(), token.lowpanHdrs.Value(), token.fragTag, token.fragOffset;
    ghost var done: seq<Emitted> := [];
    sent := [];
    SameAsItself(h);
    EmittingBegins(d, h, tag, off, Limits(frames), fragmenter.fragFlags);
    assert frames[0..] == frames;
    for k := 0 to |frames|
      invariant fragmenter.Valid() && forall i :: 0 <= i < |frames| ==> frames[i].Valid()
      invariant token.Active() && token.packet.Datagram() == d && SameExtras(token.lowpanHdrs.Value(), h)
      invariant sent == Payloads(done)
      invariant Emitting(d, h, tag, off, Limits(frames), fragmenter.fragFlags, done, token.fragOffset, Limits(frames[k..]))
    {
      ghost var at, limit := token.fragOffset, frames[k].buffer.Length;
      assert frames[k].buffer in Buffers(frames);
      var got := RequestOne(fragmenter, token, frames[k], h);
      LimitsTail(frames, k);
      EmittingGoesOn(d, h, tag, off, Limits(frames), fragmenter.fragFlags, done, at, limit, Limits(frames[k + 1..]));
      if got.Some? {
        sent := sent + [got.value];
        done := done + [Emitted(at, NextFragment(d, h, tag, at, limit, fragmenter.fragFlags).1.size, got.value)];
      }
    }
    assert frames[|frames|..] == [];
    EmittingEnds(d, h, tag, off, Limits(frames), fragmenter.fragFlags, done, token.fragOffset);
  }

  lemma SameAsItself(h: Headers)
    ensures SameExtras(h, h)
  {
  }

  lemma CurrentIsActive(fragmenter: Fragmenter, token: Token)
    requires fragmenter.Valid() && token in fragmenter.currentPackets.members
    ensures token.Active()
  {
  }

  lemma EmitNothing(d: seq<byte>, h: Headers, tag: uint16, off: nat)
    requires off <= |d| < 0x800
    ensures Emit(d, h, tag, off, []) == [] && EmittedEnd(off, []) == off
  {
  }

  lemma EndOfOneMore(start: nat, es: seq<Emitted>, e: Emitted)
    ensures EmittedEnd(start, es + [e]) == e.offset + e.size
  {
  }
}
