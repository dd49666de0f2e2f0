/**
 The reassembly state machine of uc6LoWPANDefragmentation.c on values.

 A packet under reassembly is its bytes (the 40 header bytes followed by the flattened
 payload), its list of received ranges, and, for specification only, everything written
 into it since it was allocated.  The state keeps the current and the locked packets in
 list order and counts what is left in the two pools.  Module Defragmenter proves that
 the linked structures of the source follow these steps.
 */
module ReassemblyModel {
  import opened LowpanTypes
  import opened Sequences
  import opened FragmentSpecs

  datatype Key = Key(tag: uint16, src: LinkAddr, dst: LinkAddr, pan: uint16)

  datatype Write = Write(offset: nat, data: seq<byte>)

  datatype Packet = Packet(
    key: Key,
    total: nat,
    start: uint32,
    bytes: seq<byte>,
    specs: seq<Range>,
    writes: seq<Write>)

  datatype State = State(
    current: seq<Packet>,
    locked: seq<Packet>,
    freePackets: nat,
    freeSpecs: nat)

  // ---------------------------------------------------------------------------
  // One packet
  // ---------------------------------------------------------------------------

  /** The last byte that the writes put at position x. */
  function LastWritten(writes: seq<Write>, x: nat): Option<byte> {
    if |writes| == 0 then
      None
    else
      var w := writes[|writes| - 1];
      if w.offset <= x < w.offset + |w.data| then Some(w.data[x - w.offset])
      else LastWritten(writes[..|writes| - 1], x)
  }

  /** Every byte of a stored range was written since the packet was allocated and is the last one written there. */
  ghost predicate Truthful(p: Packet)
    requires |p.bytes| == p.total && EndsBy(p.specs, p.total)
  {
    forall x: nat :: Covers(p.specs, x) ==> x < p.total && LastWritten(p.writes, x) == Some(p.bytes[x])
  }

  ghost predicate PacketOk(p: Packet) {
    && IPV6_HEADER_LENGTH <= p.total < 0x800
    && |p.bytes| == p.total
    && Ordered(p.specs) && EndsBy(p.specs, p.total)
    && Truthful(p)
  }

  /** All that the steps themselves need of a packet. */
  ghost predicate Shaped(p: Packet) {
    |p.specs| > 0 && |p.bytes| == p.total
  }

  ghost predicate AllShaped(s: State) {
    && (forall i :: 0 <= i < |s.current| ==> Shaped(s.current[i]))
    && (forall i :: 0 <= i < |s.locked| ==> Shaped(s.locked[i]))
  }

  function NewPacket(key: Key, total: nat, start: uint32, bytes: seq<byte>): Packet {
    Packet(key, total, start, bytes, [Range(0, 0)], [])
  }

  /** The datagram bytes that a frame's payload past its headers brings, if it may be a fragment at `off`. */
  function FragmentData(off: nat, size: nat, payload: seq<byte>): (data: Option<seq<byte>>)
    ensures data.Some? ==> |data.value| > 0
  {
    if |payload| == 0 then
      None
    else if off == 0 then
      var n := |payload| - 1;
      if payload[0] != DISPATCH_IPV6 || (n % 8 != 0 && size > n) || n == 0 then None else Some(payload[1..])
    else if |payload| % 8 != 0 && off + |payload| != size then
      None
    else
      Some(payload)
  }

  datatype Outcome =
    | Completed(bytes: seq<byte>)  // the whole datagram, handed to the caller
    | Pending(packet: Packet)      // back on the list of current packets
    | Dropped                      // destroyed

  /** Whether the fragment's bytes are the ones already in the packet; for the first
      fragment the source asks only if it has stored a first fragment before. */
  function Identical(p: Packet, off: nat, data: seq<byte>): bool
    requires |p.specs| > 0 && off + |data| <= |p.bytes|
  {
    (off == 0 ==> p.specs[0].size > 0) && p.bytes[off..off + |data|] == data
  }

  function Stored(p: Packet, off: nat, data: seq<byte>, freeSpecs: nat): MergeResult
    requires |p.specs| > 0 && off + |data| <= |p.bytes|
  {
    Store(p.specs, Range(off, |data|), Identical(p, off, data), freeSpecs)
  }

  function Written(p: Packet, off: nat, data: seq<byte>, specs: seq<Range>): Packet
    requires off + |data| <= |p.bytes|
  {
    p.(bytes := Splice(p.bytes, off, data), specs := specs, writes := p.writes + [Write(off, data)])
  }

  /** The fate of a packet that data arrives for, and the spec pool afterwards. */
  function Absorb(p: Packet, off: nat, data: seq<byte>, freeSpecs: nat): (r: (Outcome, nat))
    requires Shaped(p)
    ensures r.0.Pending? ==> r.0.packet.key == p.key && r.0.packet.total == p.total
  {
    if off + |data| > p.total then
      (Dropped, freeSpecs + |p.specs| - 1)
    else
      var res := Stored(p, off, data, freeSpecs);
      var next := Written(p, off, data, res.ranges);
      if !res.ok then
        (Dropped, freeSpecs + |p.specs| - 1)
      else if res.ranges[0] == Range(0, p.total) then
        (Completed(next.bytes), freeSpecs + |p.specs| - 1)
      else
        (Pending(next), res.free)
  }

  function Accept(p: Packet, off: nat, payload: seq<byte>, freeSpecs: nat): (r: (Outcome, nat))
    requires Shaped(p)
    ensures r.0.Pending? ==> r.0.packet.key == p.key && r.0.packet.total == p.total
  {
    match FragmentData(off, p.total, payload)
    case None => (Dropped, freeSpecs + |p.specs| - 1)
    case Some(data) => Absorb(p, off, data, freeSpecs)
  }

  // ---------------------------------------------------------------------------
  // The lists and the pools
  // ---------------------------------------------------------------------------

  /** The index of the first packet with the key, or |packets|. */
  function IndexOf(packets: seq<Packet>, key: Key): (i: nat)
    ensures i <= |packets|
    ensures i < |packets| ==> packets[i].key == key
    ensures forall j :: 0 <= j < i ==> packets[j].key != key
  {
    if |packets| == 0 || packets[0].key == key then 0 else 1 + IndexOf(packets[1..], key)
  }

  /** A state for a new packet, if there is one left and the allocator provides the bytes. */
  function Allocate(s: State, key: Key, total: nat, now: uint32, room: Option<seq<byte>>): (State, bool) {
    if s.freePackets == 0 || room.None? then
      (s, false)
    else
      (s.(freePackets := s.freePackets - 1, locked := [NewPacket(key, total, now, room.value)] + s.locked), true)
  }

  /** Finds the current packet with the key, or allocates one, and locks it. */
  function Find(s: State, key: Key, total: nat, now: uint32, room: Option<seq<byte>>): (State, bool)
    requires AllShaped(s)
  {
    if total < IPV6_HEADER_LENGTH then
      (s, false)
    else
      var i := IndexOf(s.current, key);
      if i == |s.current| then Allocate(s, key, total, now, room) else TakeOrReplace(s, i, key, total, now, room)
  }

  /** Locks current packet i, or replaces it by a new packet when the size differs. */
  function TakeOrReplace(s: State, i: nat, key: Key, total: nat, now: uint32, room: Option<seq<byte>>): (State, bool)
    requires AllShaped(s) && i < |s.current|
  {
    var p := s.current[i];
    if p.total == total then
      (s.(current := Without(s.current, i), locked := [p] + s.locked), true)
    else
      Allocate(Freed(s, i), key, total, now, room)
  }

  /** The state after current packet i is destroyed. */
  function Freed(s: State, i: nat): State
    requires AllShaped(s) && i < |s.current|
  {
    s.(current := Without(s.current, i),
       freePackets := s.freePackets + 1,
       freeSpecs := s.freeSpecs + (|s.current[i].specs| - 1))
  }

  /** Passes a frame's payload to locked packet i. */
  function Pass(s: State, i: nat, off: nat, payload: seq<byte>): (State, Option<seq<byte>>)
    requires AllShaped(s)
  {
    if i >= |s.locked| then
      (s, None)
    else
      var (outcome, freeSpecs) := Accept(s.locked[i], off, payload, s.freeSpecs);
      var rest := s.(locked := Without(s.locked, i), freeSpecs := freeSpecs);
      match outcome
      case Completed(bytes) => (rest.(freePackets := s.freePackets + 1), Some(bytes))
      case Dropped => (rest.(freePackets := s.freePackets + 1), None)
      case Pending(p) => (rest.(current := [p] + s.current), None)
  }

  function Unlock(s: State, i: nat): State {
    if i >= |s.locked| then s
    else s.(locked := Without(s.locked, i), current := [s.locked[i]] + s.current)
  }

  /** The packet's age on a 32-bit millisecond clock. */
  function Age(p: Packet, now: uint32): uint32 {
    (now - p.start) % 0x1_0000_0000
  }

  function Extra(p: Packet): nat {
    if |p.specs| == 0 then 0 else |p.specs| - 1
  }

  function ExtraSum(packets: seq<Packet>): nat {
    if |packets| == 0 then 0 else Extra(packets[0]) + ExtraSum(packets[1..])
  }

  /** The packets that have not timed out, in order. */
  function Young(packets: seq<Packet>, now: uint32, limit: uint32): (r: seq<Packet>)
    ensures |r| <= |packets|
    ensures ExtraSum(r) <= ExtraSum(packets)
  {
    if |packets| == 0 then
      []
    else
      var rest := Young(packets[1..], now, limit);
      if Age(packets[0], now) < limit then
        assert ([packets[0]] + rest)[1..] == rest;
        [packets[0]] + rest
      else
        rest
  }

  /** A timeout, which a locked packet forbids. */
  function Timeout(s: State, now: uint32, limit: uint32): State {
    if |s.locked| > 0 then
      s
    else
      var kept := Young(s.current, now, limit);
      s.(current := kept,
         freePackets := s.freePackets + (|s.current| - |kept|),
         freeSpecs := s.freeSpecs + (ExtraSum(s.current) - ExtraSum(kept)))
  }

  function Terminate(s: State): State {
    if |s.locked| > 0 then s
    else State([], [], s.freePackets + |s.current|, s.freeSpecs + ExtraSum(s.current))
  }

  // ---------------------------------------------------------------------------
  // Runs
  // ---------------------------------------------------------------------------

  datatype Event =
    | FindEvent(key: Key, total: nat, now: uint32, room: Option<seq<byte>>)
    | PassEvent(index: nat, offset: nat, payload: seq<byte>)
    | UnlockEvent(index: nat)
    | TimeoutEvent(now: uint32, limit: uint32)
    | TerminateEvent

  /** Sizes fit their 11-bit field and the allocator provides what it was asked for. */
  ghost predicate EventOk(e: Event) {
    e.FindEvent? && e.total >= IPV6_HEADER_LENGTH ==>
      e.total < 0x800 && (e.room.Some? ==> |e.room.value| == e.total)
  }

  ghost predicate StateOk(s: State) {
    && (forall i :: 0 <= i < |s.current| ==> PacketOk(s.current[i]))
    && (forall i :: 0 <= i < |s.locked| ==> PacketOk(s.locked[i]))
  }

  /** All packet states, whichever list they are on. */
  function PacketCount(s: State): nat {
    |s.current| + |s.locked| + s.freePackets
  }

  /** All additional specs, in the pool or in a packet's chain. */
  function SpecCount(s: State): nat {
    s.freeSpecs + ExtraSum(s.current) + ExtraSum(s.locked)
  }

  function Step(s: State, e: Event): (r: (State, Option<seq<byte>>))
    requires StateOk(s)
  {
    match e
    case FindEvent(key, total, now, room) => (Find(s, key, total, now, room).0, None)
    case PassEvent(index, offset, payload) => Pass(s, index, offset, payload)
    case UnlockEvent(index) => (Unlock(s, index), None)
    case TimeoutEvent(now, limit) => (Timeout(s, now, limit), None)
    case TerminateEvent => (Terminate(s), None)
  }

  // -- one packet ---------------------------------------------------------------

  /** Storing data keeps the packet truthful, however it overlaps what was there. */
  lemma {:induction false} WrittenOk(p: Packet, off: nat, data: seq<byte>, freeSpecs: nat)
    requires PacketOk(p) && |data| > 0 && off + |data| <= p.total
    ensures var res := Stored(p, off, data, freeSpecs);
            res.ok ==> PacketOk(Written(p, off, data, res.ranges))
  {
    hide Store;
    var res := Stored(p, off, data, freeSpecs);
    var n := Range(off, |data|);
    if res.ok {
      var next := Written(p, off, data, res.ranges);
      StoreSound(p.specs, n, Identical(p, off, data), freeSpecs, p.total);
      ExtendsPointwise(res.ranges, p.specs, n);
      assert next.writes[..|next.writes| - 1] == p.writes;
      forall x: nat | Covers(next.specs, x)
        ensures x < next.total && LastWritten(next.writes, x) == Some(next.bytes[x])
      {
        assert Covers(p.specs, x) || n.Has(x);
        SpliceAt(p.bytes, off, data, x);
      }
    }
  }

  /** A packet is handed over only when each of its bytes was written, and with the last byte written at each place. */
  lemma {:induction false} CompletedWasWritten(p: Packet, off: nat, payload: seq<byte>, freeSpecs: nat)
    requires PacketOk(p)
    ensures var outcome := Accept(p, off, payload, freeSpecs).0;
            && (outcome.Pending? ==> PacketOk(outcome.packet))
            && (outcome.Completed? ==>
                  var data := FragmentData(off, p.total, payload);
                  && data.Some?
                  && |outcome.bytes| == p.total
                  && forall x: nat :: x < p.total ==>
                       LastWritten(p.writes + [Write(off, data.value)], x) == Some(outcome.bytes[x]))
  {
    var data := FragmentData(off, p.total, payload);
    if data.Some? && off + |data.value| <= p.total {
      WrittenOk(p, off, data.value, freeSpecs);
      var res := Stored(p, off, data.value, freeSpecs);
      if res.ok && res.ranges[0] == Range(0, p.total) {
        forall x: nat | x < p.total
          ensures Covers(res.ranges, x)
        {
          assert res.ranges[0].Has(x);
        }
      }
    }
  }

  // -- the state ----------------------------------------------------------------

  lemma ExtraSumSplit(a: seq<Packet>, b: seq<Packet>)
    ensures ExtraSum(a + b) == ExtraSum(a) + ExtraSum(b)
  {
    if |a| == 0 {
      assert a + b == b;
    } else {
      assert (a + b)[1..] == a[1..] + b;
      ExtraSumSplit(a[1..], b);
    }
  }

  lemma {:induction false} ExtraSumWithout(s: seq<Packet>, i: nat)
    requires i < |s|
    ensures ExtraSum(Without(s, i)) == ExtraSum(s) - Extra(s[i])
  {
    ExtraSumSplit(s[..i], s[i + 1..]);
    ExtraSumSplit(s[..i], s[i..]);
    assert s[..i] + s[i..] == s;
    assert s[i..][1..] == s[i + 1..];
  }

  lemma ExtraSumPush(p: Packet, s: seq<Packet>)
    ensures ExtraSum([p] + s) == Extra(p) + ExtraSum(s)
  {
    assert ([p] + s)[1..] == s;
  }

  lemma AbsorbConserves(p: Packet, off: nat, data: seq<byte>, freeSpecs: nat)
    requires Shaped(p)
    ensures var (outcome, free) := Absorb(p, off, data, freeSpecs);
            if outcome.Pending? then free + Extra(outcome.packet) == freeSpecs + Extra(p)
            else free == freeSpecs + Extra(p)
  {
  }

  lemma PassConserves(s: State, i: nat, off: nat, payload: seq<byte>)
    requires StateOk(s)
    ensures var (s', _) := Pass(s, i, off, payload);
            StateOk(s') && PacketCount(s') == PacketCount(s) && SpecCount(s') == SpecCount(s)
  {
    if i < |s.locked| {
      var p := s.locked[i];
      CompletedWasWritten(p, off, payload, s.freeSpecs);
      ExtraSumWithout(s.locked, i);
      var data := FragmentData(off, p.total, payload);
      if data.Some? {
        AbsorbConserves(p, off, data.value, s.freeSpecs);
      }
      var outcome := Accept(p, off, payload, s.freeSpecs).0;
      if outcome.Pending? {
        ExtraSumPush(outcome.packet, s.current);
      }
    }
  }

  lemma AllocateConserves(s: State, key: Key, total: nat, now: uint32, room: Option<seq<byte>>)
    requires StateOk(s) && IPV6_HEADER_LENGTH <= total < 0x800
    requires room.Some? ==> |room.value| == total
    ensures var (s', _) := Allocate(s, key, total, now, room);
            StateOk(s') && PacketCount(s') == PacketCount(s) && SpecCount(s') == SpecCount(s)
  {
    if s.freePackets > 0 && room.Some? {
      var p := NewPacket(key, total, now, room.value);
      assert PacketOk(p);
      ExtraSumPush(p, s.locked);
    }
  }

  lemma TakeOutConserves(s: State, i: nat)
    requires StateOk(s) && i < |s.current|
    ensures var p := s.current[i];
            var rest := s.(current := Without(s.current, i));
            && PacketOk(p) && StateOk(rest)
            && PacketCount(rest) == PacketCount(s) - 1 && SpecCount(rest) == SpecCount(s) - Extra(p)
  {
    ExtraSumWithout(s.current, i);
  }

  lemma LockConserves(s: State, p: Packet)
    requires StateOk(s) && PacketOk(p)
    ensures var s' := s.(locked := [p] + s.locked);
            StateOk(s') && PacketCount(s') == PacketCount(s) + 1 && SpecCount(s') == SpecCount(s) + Extra(p)
  {
    ExtraSumPush(p, s.locked);
  }

  lemma {:induction false} TakeOrReplaceConserves(s: State, i: nat, key: Key, total: nat, now: uint32,
        room: Option<seq<byte>>)
    requires StateOk(s) && i < |s.current|
    requires AllShaped(s)
    requires IPV6_HEADER_LENGTH <= total < 0x800 && (room.Some? ==> |room.value| == total)
    ensures var s' := TakeOrReplace(s, i, key, total, now, room).0;
            StateOk(s') && PacketCount(s') == PacketCount(s) && SpecCount(s') == SpecCount(s)
  {
    hide PacketOk;
    TakeOutConserves(s, i);
    if s.current[i].total == total {
      LockConserves(s.(current := Without(s.current, i)), s.current[i]);
    } else {
      assert StateOk(Freed(s, i)) && SpecCount(Freed(s, i)) == SpecCount(s);
      AllocateConserves(Freed(s, i), key, total, now, room);
    }
  }

  lemma FindConserves(s: State, key: Key, total: nat, now: uint32, room: Option<seq<byte>>)
    requires StateOk(s) && EventOk(FindEvent(key, total, now, room))
    ensures var (s', _) := Find(s, key, total, now, room);
            StateOk(s') && PacketCount(s') == PacketCount(s) && SpecCount(s') == SpecCount(s)
  {
    if total >= IPV6_HEADER_LENGTH {
      var i := IndexOf(s.current, key);
      if i == |s.current| {
        AllocateConserves(s, key, total, now, room);
      } else {
        TakeOrReplaceConserves(s, i, key, total, now, room);
      }
    }
  }

  lemma TimeoutConserves(s: State, now: uint32, limit: uint32)
    requires StateOk(s)
    ensures var s' := Timeout(s, now, limit);
            StateOk(s') && PacketCount(s') == PacketCount(s) && SpecCount(s') == SpecCount(s)
  {
    YoungOk(s.current, now, limit);
    var s' := Timeout(s, now, limit);
    if |s.locked| == 0 {
      assert s'.current == Young(s.current, now, limit);
    }
  }

  lemma YoungOk(packets: seq<Packet>, now: uint32, limit: uint32)
    requires forall i :: 0 <= i < |packets| ==> PacketOk(packets[i])
    ensures var r := Young(packets, now, limit); forall i :: 0 <= i < |r| ==> PacketOk(r[i])
  {
  }

  /** Every step keeps the packets truthful and conserves both pools. */
  lemma StepConserves(s: State, e: Event)
    requires StateOk(s) && EventOk(e)
    ensures var s' := Step(s, e).0;
            StateOk(s') && PacketCount(s') == PacketCount(s) && SpecCount(s') == SpecCount(s)
  {
    match e
    case FindEvent(key, total, now, room) => FindConserves(s, key, total, now, room);
    case PassEvent(i, off, payload) => PassConserves(s, i, off, payload);
    case UnlockEvent(i) =>
      if i < |s.locked| {
        ExtraSumWithout(s.locked, i);
        ExtraSumPush(s.locked[i], s.current);
      }
    case TimeoutEvent(now, limit) => TimeoutConserves(s, now, limit);
    case TerminateEvent =>
  }

  /** The state after a run, or the state in which it stops when an event is not one that can occur. */
  ghost function Run(s: State, events: seq<Event>): (r: State)
    requires StateOk(s) && forall i :: 0 <= i < |events| ==> EventOk(events[i])
    ensures StateOk(r)
    decreases |events|
  {
    if |events| == 0 then s
    else
      StepConserves(s, events[0]);
      Run(Step(s, events[0]).0, events[1..])
  }

  function InitialState(packets: nat, specs: nat): State {
    State([], [], packets, specs)
  }

  /** Over every run from Init: packets stay truthful, and no packet state or spec is lost or gained. */
  lemma {:induction false} RunConserves(s: State, events: seq<Event>)
    requires StateOk(s) && forall i :: 0 <= i < |events| ==> EventOk(events[i])
    ensures PacketCount(Run(s, events)) == PacketCount(s)
    ensures SpecCount(Run(s, events)) == SpecCount(s)
    decreases |events|
  {
    if |events| > 0 {
      StepConserves(s, events[0]);
      RunConserves(Step(s, events[0]).0, events[1..]);
    }
  }

  /** At any point of any run from Init, whatever arrived before: a packet that Pass hands
      over had every byte of [0, total) written, and each byte is the last one written there. */
  lemma {:induction false} RunHandsOverOnlyWrittenPackets(packets: nat, specs: nat, events: seq<Event>, i: nat,
        off: nat, payload: seq<byte>)
    requires forall j :: 0 <= j < |events| ==> EventOk(events[j])
    ensures var s := Run(InitialState(packets, specs), events);
            var handed := Pass(s, i, off, payload).1;
            handed.Some? ==>
              && i < |s.locked|
              && var p := s.locked[i];
              var data := FragmentData(off, p.total, payload);
              && data.Some?
              && |handed.value| == p.total
              && forall x: nat :: x < p.total ==>
                   LastWritten(p.writes + [Write(off, data.value)], x) == Some(handed.value[x])
  {
    var s := Run(InitialState(packets, specs), events);
    if i < |s.locked| {
      CompletedWasWritten(s.locked[i], off, payload, s.freeSpecs);
    }
  }

  /** In order, all the positions from `from` on whose packets have not timed out. */
  ghost predicate KeptPositions(packets: seq<Packet>, now: uint32, limit: uint32, from: nat, at: seq<nat>) {
    && (forall i :: 0 <= i < |at| ==> from <= at[i] < |packets| && Age(packets[at[i]], now) < limit)
    && (forall i, j :: 0 <= i < j < |at| ==> at[i] < at[j])
    && (forall k: nat :: from <= k < |packets| && Age(packets[k], now) < limit ==> k in at)
  }

  ghost function YoungAt(packets: seq<Packet>, now: uint32, limit: uint32, from: nat): (at: seq<nat>)
    requires from <= |packets|
    ensures KeptPositions(packets, now, limit, from, at)
    ensures forall i :: 0 <= i < |at| ==> at[i] < |packets|
    decreases |packets| - from
  {
    if from == |packets| then
      []
    else
      var later := YoungAt(packets, now, limit, from + 1);
      if Age(packets[from], now) < limit then [from] + later else later
  }

  /** A timeout keeps, in order, exactly the packets at the positions of the young ones. */
  lemma {:induction false} YoungIsSubsequence(packets: seq<Packet>, now: uint32, limit: uint32, from: nat)
    requires from <= |packets|
    ensures var r, at := Young(packets[from..], now, limit), YoungAt(packets, now, limit, from);
            |r| == |at| && forall i :: 0 <= i < |at| ==> r[i] == packets[at[i]]
    decreases |packets| - from
  {
    hide Age, KeptPositions;
    if from < |packets| {
      assert packets[from..][1..] == packets[from + 1..];
      YoungIsSubsequence(packets, now, limit, from + 1);
    }
  }

  // -- keys ---------------------------------------------------------------------

  ghost predicate HasKey(packets: seq<Packet>, key: Key) {
    exists i :: 0 <= i < |packets| && packets[i].key == key
  }

  ghost predicate UniqueKeys(packets: seq<Packet>) {
    forall i, j :: 0 <= i < j < |packets| ==> packets[i].key != packets[j].key
  }

  /** No two packets under reassembly, current or locked, have the same key. */
  ghost predicate KeysUnique(s: State) {
    && UniqueKeys(s.current) && UniqueKeys(s.locked)
    && forall i :: 0 <= i < |s.current| ==> !HasKey(s.locked, s.current[i].key)
  }

  /** A successful Find keeps the keys unique exactly when no locked packet had the key:
      locked packets are not searched. */
  lemma FindKeepsKeysUniqueIff(s: State, key: Key, total: nat, now: uint32, room: Option<seq<byte>>)
    requires AllShaped(s) && KeysUnique(s)
    ensures var (s', found) := Find(s, key, total, now, room);
            found ==> (KeysUnique(s') <==> !HasKey(s.locked, key))
  {
    var (s', found) := Find(s, key, total, now, room);
    if found {
      var i := IndexOf(s.current, key);
      assert s'.locked[0].key == key && s'.locked[1..] == s.locked;
      assert forall j :: 0 <= j < |s.locked| ==> s'.locked[j + 1] == s.locked[j];
      if HasKey(s.locked, key) {
        var j :| 0 <= j < |s.locked| && s.locked[j].key == key;
        assert s'.locked[j + 1].key == key;
      } else {
        forall a | 0 <= a < |s'.current|
          ensures !HasKey(s'.locked, s'.current[a].key)
        {
          assert s'.current[a] == s.current[if a < i then a else a + 1];
        }
      }
    }
  }

  /** Passing to a packet and unlocking it keep the keys unique; module ReassemblyRuns says which runs do. */
  lemma PassKeepsKeysUnique(s: State, i: nat, off: nat, payload: seq<byte>)
    requires AllShaped(s) && KeysUnique(s)
    ensures KeysUnique(Pass(s, i, off, payload).0) && KeysUnique(Unlock(s, i))
  {
    hide Accept;
    if i < |s.locked| {
      assert HasKey(s.locked, s.locked[i].key);
    }
  }
}
