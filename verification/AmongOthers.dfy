/**
 Reassembly of a datagram among the frames of others: whatever else arrives between its
 fragments, as long as the pools suffice, it comes out as it went in, when its last
 missing fragment arrives and not before.
 */
module AmongOthers {
  import opened LowpanTypes
  import opened Sequences
  import opened FragmentSpecs
  import opened ReassemblyModel
  import opened FrameHeaders
  import opened DatagramKeys
  import opened Fragmenter
  import opened EndToEnd

  /** The packet under reassembly that a find for the key meets. */
  function PacketOf(packets: seq<Packet>, key: Key): (r: Option<Packet>)
    ensures r.Some? ==> r.value.key == key
  {
    var i := IndexOf(packets, key);
    if i < |packets| then Some(packets[i]) else None
  }

  lemma PacketOfPush(p: Packet, packets: seq<Packet>, key: Key)
    ensures PacketOf([p] + packets, key) == if p.key == key then Some(p) else PacketOf(packets, key)
  {
    assert ([p] + packets)[1..] == packets;
  }

  /** Taking out another packet does not change what is met. */
  lemma {:induction false} PacketOfWithout(packets: seq<Packet>, i: nat, key: Key)
    requires i < |packets| && packets[i].key != key
    ensures PacketOf(Without(packets, i), key) == PacketOf(packets, key)
    decreases i
  {
    var rest := packets[1..];
    assert packets == [packets[0]] + rest;
    PacketOfPush(packets[0], rest, key);
    if i == 0 {
      assert Without(packets, 0) == rest;
    } else {
      assert Without(packets, i) == [packets[0]] + Without(rest, i - 1);
      PacketOfPush(packets[0], Without(rest, i - 1), key);
      PacketOfWithout(rest, i - 1, key);
    }
  }

  // ---------------------------------------------------------------------------
  // Frames of others
  // ---------------------------------------------------------------------------

  /** The frame carries no fragment, or one of another datagram than a frame with the headers own over link:
      its tag, originator, final destination, or PAN differ. */
  ghost predicate Foreign(a: Arrival, own: Headers, link: Link) {
    || |a.payload| >= 0x100 || a.link.interPan
    || match Parse(a.payload, 0, EMPTY)
       case None => true
       case Some(h) => !h.hasFrag || DatagramOf(h, h.frag.tag, a.link) != DatagramOf(own, own.frag.tag, link)
  }

  lemma FindKeepsOthers(s: State, other: Key, total: nat, now: uint32, room: Option<seq<byte>>, key: Key)
    requires AllShaped(s) && other != key
    ensures var (s1, found) := Find(s, other, total, now, room);
            && PacketOf(s1.current, key) == PacketOf(s.current, key)
            && (found ==> |s1.locked| > 0 && s1.locked[0].key == other)
  {
    hide PacketOf;
    var i := IndexOf(s.current, other);
    if total >= IPV6_HEADER_LENGTH && i < |s.current| {
      PacketOfWithout(s.current, i, key);
    }
  }

  lemma PassKeepsOthers(s: State, off: nat, payload: seq<byte>, key: Key)
    requires AllShaped(s) && |s.locked| > 0 && s.locked[0].key != key
    ensures PacketOf(Pass(s, 0, off, payload).0.current, key) == PacketOf(s.current, key)
  {
    hide PacketOf, FragmentData, Absorb;
    var outcome := Accept(s.locked[0], off, payload, s.freeSpecs).0;
    if outcome.Pending? {
      PacketOfPush(outcome.packet, s.current, key);
    }
  }

  /** A foreign frame, well-formed or not, leaves the packet of the datagram alone. */
  lemma ForeignKeeps(s: State, a: Arrival, own: Headers, link: Link)
    requires AllShaped(s) && Foreign(a, own, link)
    ensures var key := FrameKey(own, link); PacketOf(Receive(s, a).0.current, key) == PacketOf(s.current, key)
  {
    hide Find, Pass, PacketOf, Parse, FrameKey;
    var key := FrameKey(own, link);
    if |a.payload| < 0x100 && !a.link.interPan && Parse(a.payload, 0, EMPTY).Some? {
      var h := Parse(a.payload, 0, EMPTY).value;
      if h.hasFrag {
        var other, room := FrameKey(h, a.link), RoomFor(a, h.frag.size);
        SameKeyIff(h, a.link, own, link);
        FindShaped(s, other, h.frag.size, a.now, room);
        FindKeepsOthers(s, other, h.frag.size, a.now, room, key);
        var (s1, found) := Find(s, other, h.frag.size, a.now, room);
        if found {
          PassKeepsOthers(s1, h.frag.offset, a.payload[h.nextOffset..], key);
        }
      }
    }
  }

  // ---------------------------------------------------------------------------
  // Fragments of the datagram
  // ---------------------------------------------------------------------------

  /** The receiver holds the slices that have arrived, in the packet that a find meets. */
  ghost predicate Tracks(s: State, key: Key, d: seq<byte>, cuts: seq<nat>, got: set<nat>) {
    match PacketOf(s.current, key)
    case None => got == {}
    case Some(p) => Holds(p, d, cuts, got)
  }

  /** There is a packet state for a first fragment, and a spec for a new one. */
  predicate PoolsSuffice(s: State, key: Key, got: set<nat>, k: nat) {
    (PacketOf(s.current, key).None? ==> s.freePackets > 0) && (k !in got ==> s.freeSpecs > 0)
  }

  lemma FindOwn(s: State, key: Key, d: seq<byte>, cuts: seq<nat>, got: set<nat>, now: uint32, room: seq<byte>)
    requires AllShaped(s) && Tracks(s, key, d, cuts, got) && IPV6_HEADER_LENGTH <= |d| == |room|
    requires PacketOf(s.current, key).None? ==> s.freePackets > 0
    ensures var (s1, found) := Find(s, key, |d|, now, Some(room));
            && found && |s1.locked| > 0 && s1.locked[0].key == key && Holds(s1.locked[0], d, cuts, got)
            && s1.freeSpecs == s.freeSpecs
  {
    hide Holds;
    var i := IndexOf(s.current, key);
    if i < |s.current| {
      HoldsShape(s.current[i], d, cuts, got);
    } else {
      NewPacketHoldsNothing(key, d, cuts, now, room);
    }
  }

  /** One fragment of the datagram among the packets of others. */
  lemma {:induction false} OwnArrives(s: State, key: Key, d: seq<byte>, cuts: seq<nat>, got: set<nat>, k: nat,
                                      now: uint32, room: seq<byte>, payload: seq<byte>)
    requires AllShaped(s) && Tracks(s, key, d, cuts, got) && PoolsSuffice(s, key, got, k)
    requires IPV6_HEADER_LENGTH <= |d| == |room| && |cuts| > 0
    requires Cuts(d, cuts) && k < Count(cuts) && cuts[k] < cuts[k + 1] <= |d|
    requires (forall j :: j in got ==> j < Count(cuts)) && !AllGot(cuts, got)
    requires FragmentData(cuts[k], |d|, payload) == Some(SliceData(d, cuts, k))
    ensures var (s1, found) := Find(s, key, |d|, now, Some(room));
            found && AllShaped(s1) &&
            var (s2, out) := Pass(s1, 0, cuts[k], payload);
            if AllGot(cuts, got + {k}) then out == Some(d)
            else out == None && Tracks(s2, key, d, cuts, got + {k})
  {
    hide Holds, Find, AllGot, Absorb, PacketOf, FragmentData;
    FindShaped(s, key, |d|, now, Some(room));
    FindOwn(s, key, d, cuts, got, now, room);
    var s1 := Find(s, key, |d|, now, Some(room)).0;
    var p := s1.locked[0];
    HoldsShape(p, d, cuts, got);
    AbsorbSlice(p, d, cuts, got, k, s1.freeSpecs);
    var outcome := Absorb(p, cuts[k], SliceData(d, cuts, k), s1.freeSpecs).0;
    if outcome.Pending? {
      PacketOfPush(outcome.packet, s1.current, key);
    }
  }

  // ---------------------------------------------------------------------------
  // Runs
  // ---------------------------------------------------------------------------

  /** The fragments among the first j arrivals; an arrival that is none of them is None. */
  function Own(mine: seq<Option<nat>>, j: nat): (got: set<nat>)
    requires j <= |mine|
  {
    if j == 0 then {}
    else Own(mine, j - 1) + (match mine[j - 1] case None => {} case Some(k) => {k})
  }

  /** Fragments of a datagram and frames of others arrive: allocation succeeds for the fragments, and
      the pools suffice when they arrive. */
  ghost predicate MixedDelivery(s: State, d: seq<byte>, h: Headers, tag: uint16, es: seq<Emitted>,
                                link: Link, arrivals: seq<Arrival>, mine: seq<Option<nat>>) {
    && AllShaped(s) && IPV6_HEADER_LENGTH <= |d| <= MAX_PACKET_LENGTH
    && Consecutive(es, 0, d) && EmittedEnd(0, es) == |d|
    && (forall i :: 0 <= i < |es| ==> Carries(es[i], d, h, tag) && |es[i].payload| < 0x100)
    && !link.interPan && |mine| == |arrivals|
    && NoPacketOf(s.current, DatagramOf(h, tag, link))
    && forall j: nat :: j < |arrivals| ==>
         ArrivalFits(s, es, FragmentHeaders(h, tag, |d|, 0), link, arrivals, mine, j)
  }

  ghost predicate ArrivalFits(s: State, es: seq<Emitted>, own: Headers, link: Link, arrivals: seq<Arrival>,
                              mine: seq<Option<nat>>, j: nat)
    requires AllShaped(s) && |mine| == |arrivals| && j < |arrivals|
  {
    match mine[j]
    case None => Foreign(arrivals[j], own, link)
    case Some(k) =>
      && k < |es| && arrivals[j].payload == es[k].payload && arrivals[j].link == link && arrivals[j].room.Some?
      && PoolsSuffice(StateAt(s, arrivals, j), FrameKey(own, link), Own(mine, j), k)
  }

  lemma {:induction false} OwnAreSlices(s: State, es: seq<Emitted>, own: Headers, link: Link,
                                        arrivals: seq<Arrival>, mine: seq<Option<nat>>, j: nat)
    requires AllShaped(s) && |mine| == |arrivals| && j <= |mine|
    requires forall i: nat :: i < |arrivals| ==> ArrivalFits(s, es, own, link, arrivals, mine, i)
    ensures forall k :: k in Own(mine, j) ==> k < |es|
  {
    hide Foreign, PoolsSuffice, StateAt;
    if j > 0 {
      OwnAreSlices(s, es, own, link, arrivals, mine, j - 1);
      assert ArrivalFits(s, es, own, link, arrivals, mine, j - 1);
    }
  }

  /** A fragment of the datagram is arrival j. */
  lemma {:induction false} OwnStep(s: State, d: seq<byte>, h: Headers, tag: uint16, es: seq<Emitted>,
                    link: Link, arrivals: seq<Arrival>, mine: seq<Option<nat>>, j: nat)
    requires MixedDelivery(s, d, h, tag, es, link, arrivals, mine) && j < |arrivals| && mine[j].Some?
    requires !AllGot(CutsOf(es, d), Own(mine, j))
    requires Tracks(StateAt(s, arrivals, j), FrameKey(FragmentHeaders(h, tag, |d|, 0), link), d, CutsOf(es, d), Own(mine, j))
    ensures var key := FrameKey(FragmentHeaders(h, tag, |d|, 0), link);
            var cuts, got := CutsOf(es, d), Own(mine, j + 1);
            var (next, out) := Receive(StateAt(s, arrivals, j), arrivals[j]);
            if AllGot(cuts, got) then out == Some(d)
            else out == None && Tracks(next, key, d, cuts, got)
  {
    hide Tracks, AllGot, Carries, Find, Pass, CutsOf, AllShaped, Receive, Parse, FragmentData, StateAt, PoolsSuffice,
         PacketOf;
    var cuts, k, a := CutsOf(es, d), mine[j].value, arrivals[j];
    var key := FrameKey(FragmentHeaders(h, tag, |d|, 0), link);
    var now := StateAt(s, arrivals, j);
    var own := FragmentHeaders(h, tag, |d|, 0);
    assert ArrivalFits(s, es, own, link, arrivals, mine, j);
    OwnAreSlices(s, es, own, link, arrivals, mine, j);
    var e := es[k];
    assert forall i :: 0 <= i < |es| ==> es[i].offset % 8 == 0 by {
      CarriedAreAligned(es, d, h, tag);
    }
    EmissionCuts(es, d);
    FrameUnpacks(e, d, h, tag);
    var found := Parse(a.payload, 0, EMPTY).value;
    SameKeyIff(found, link, own, link);
    OwnArrives(now, key, d, cuts, Own(mine, j), k, a.now, RoomFor(a, |d|).value, a.payload[found.nextOffset..]);
    ReceiveUnpacked(now, a, found);
  }

  lemma NothingTracked(s: State, own: Headers, link: Link, d: seq<byte>, cuts: seq<nat>)
    requires NoPacketOf(s.current, DatagramOf(own, own.frag.tag, link))
    ensures Tracks(s, FrameKey(own, link), d, cuts, {})
  {
    hide FrameKey, DatagramOf, NoPacketOf;
    NoPacketIff(s.current, own, link);
  }

  /** While slices are missing, the receiver holds those that have arrived. */
  lemma {:induction false} TracksAt(s: State, d: seq<byte>, h: Headers, tag: uint16, es: seq<Emitted>,
                                    link: Link, arrivals: seq<Arrival>, mine: seq<Option<nat>>, j: nat)
    requires MixedDelivery(s, d, h, tag, es, link, arrivals, mine) && j <= |arrivals|
    requires !AllGot(CutsOf(es, d), Own(mine, j))
    ensures Tracks(StateAt(s, arrivals, j), FrameKey(FragmentHeaders(h, tag, |d|, 0), link), d, CutsOf(es, d), Own(mine, j))
  {
    hide Receive, Holds, PacketOf, CutsOf, Carries, FrameKey;
    if j == 0 {
      NothingTracked(s, FragmentHeaders(h, tag, |d|, 0), link, d, CutsOf(es, d));
    } else {
      var key := FrameKey(FragmentHeaders(h, tag, |d|, 0), link);
      var own := FragmentHeaders(h, tag, |d|, 0);
      assert ArrivalFits(s, es, own, link, arrivals, mine, j - 1);
      assert Own(mine, j - 1) <= Own(mine, j);
      TracksAt(s, d, h, tag, es, link, arrivals, mine, j - 1);
      if mine[j - 1].Some? {
        OwnStep(s, d, h, tag, es, link, arrivals, mine, j - 1);
      } else {
        ForeignKeeps(StateAt(s, arrivals, j - 1), arrivals[j - 1], own, link);
        assert Own(mine, j) == Own(mine, j - 1);
      }
    }
  }

  /** End to end among others: as long as a fragment is missing, the arrival of one of the datagram's
      fragments brings nothing out, and with the last missing one the packet that comes out is the
      datagram; what else arrives does not matter. */
  lemma {:induction false} EndToEndAmongOthers(s: State, d: seq<byte>, h: Headers, tag: uint16, es: seq<Emitted>,
                                               link: Link, arrivals: seq<Arrival>, mine: seq<Option<nat>>, j: nat)
    requires MixedDelivery(s, d, h, tag, es, link, arrivals, mine) && j < |arrivals| && mine[j].Some?
    requires !AllBelow(|es|, Own(mine, j))
    ensures Output(s, arrivals, j) == if AllBelow(|es|, Own(mine, j + 1)) then Some(d) else None
  {
    hide Tracks, Receive;
    EmissionLength(es, d);
    TracksAt(s, d, h, tag, es, link, arrivals, mine, j);
    OwnStep(s, d, h, tag, es, link, arrivals, mine, j);
  }

  lemma EmissionLength(es: seq<Emitted>, d: seq<byte>)
    ensures |CutsOf(es, d)| == |es| + 1
  {
  }
}
