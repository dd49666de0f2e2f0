/**
 What holds in every state of a run of the reassembler exactly when each step meets a
 condition: that no two packets have the same key, and that all lists of ranges are canonical.
 */
module ReassemblyRuns {
  import opened LowpanTypes
  import opened Sequences
  import opened FragmentSpecs
  import opened ReassemblyModel

  ghost predicate AllOk(events: seq<Event>) {
    forall i :: 0 <= i < |events| ==> EventOk(events[i])
  }

  /** The state before event k. */
  ghost function StateBefore(s: State, events: seq<Event>, k: nat): (r: State)
    requires StateOk(s) && AllOk(events) && k <= |events|
    ensures StateOk(r)
  {
    Run(s, events[..k])
  }

  lemma StateBeforeNext(s: State, events: seq<Event>, k: nat)
    requires StateOk(s) && AllOk(events) && k < |events|
    ensures StateOk(Step(s, events[0]).0) && AllOk(events[1..])
    ensures StateBefore(s, events, 0) == s
    ensures StateBefore(s, events, k + 1) == StateBefore(Step(s, events[0]).0, events[1..], k)
  {
    StepConserves(s, events[0]);
    assert events[..k + 1][0] == events[0] && events[..k + 1][1..] == events[1..][..k];
  }

  ghost predicate AlwaysGood(s: State, events: seq<Event>, good: State -> bool)
    requires StateOk(s) && AllOk(events)
  {
    forall k: nat :: k <= |events| ==> good(StateBefore(s, events, k))
  }

  ghost predicate AlwaysClear(s: State, events: seq<Event>, clear: (State, Event) -> bool)
    requires StateOk(s) && AllOk(events)
  {
    forall k: nat :: k < |events| ==> clear(StateBefore(s, events, k), events[k])
  }

  lemma {:induction false} AlwaysSplit(s: State, events: seq<Event>, good: State -> bool, clear: (State, Event) -> bool)
    requires StateOk(s) && AllOk(events) && |events| > 0
    ensures StateOk(Step(s, events[0]).0) && AllOk(events[1..])
    ensures AlwaysGood(s, events, good) <==> good(s) && AlwaysGood(Step(s, events[0]).0, events[1..], good)
    ensures AlwaysClear(s, events, clear) <==>
            clear(s, events[0]) && AlwaysClear(Step(s, events[0]).0, events[1..], clear)
  {
    hide StateBefore;
    StateBeforeNext(s, events, 0);
    var next := Step(s, events[0]).0;
    forall k: nat | k < |events|
      ensures StateBefore(s, events, k + 1) == StateBefore(next, events[1..], k)
      ensures k + 1 < |events| ==> events[k + 1] == events[1..][k]
    {
      StateBeforeNext(s, events, k);
    }
    if good(s) && AlwaysGood(next, events[1..], good) {
      forall k: nat | k <= |events|
        ensures good(StateBefore(s, events, k))
      {
        if k > 0 {
          assert good(StateBefore(next, events[1..], k - 1));
        }
      }
    }
    if AlwaysGood(s, events, good) {
      forall k: nat | k <= |events[1..]|
        ensures good(StateBefore(next, events[1..], k))
      {
        assert good(StateBefore(s, events, k + 1));
      }
    }
    if clear(s, events[0]) && AlwaysClear(next, events[1..], clear) {
      forall k: nat | k < |events|
        ensures clear(StateBefore(s, events, k), events[k])
      {
        if k > 0 {
          assert clear(StateBefore(next, events[1..], k - 1), events[1..][k - 1]);
        }
      }
    }
    if AlwaysClear(s, events, clear) {
      forall k: nat | k < |events[1..]|
        ensures clear(StateBefore(next, events[1..], k), events[1..][k])
      {
        assert clear(StateBefore(s, events, k + 1), events[k + 1]);
      }
    }
  }

  /** What a step keeps exactly when it is clear holds all along exactly the runs of clear steps. */
  lemma {:induction false} RunKeepsIff(s: State, events: seq<Event>, good: State -> bool, clear: (State, Event) -> bool)
    requires StateOk(s) && AllOk(events) && good(s)
    requires forall t: State, e: Event {:trigger clear(t, e)} ::
               StateOk(t) && EventOk(e) && good(t) ==> (good(Step(t, e).0) <==> clear(t, e))
    ensures AlwaysGood(s, events, good) <==> AlwaysClear(s, events, clear)
    decreases |events|
  {
    hide Step, StateOk;
    if |events| > 0 {
      hide AlwaysGood, AlwaysClear;
      AlwaysSplit(s, events, good, clear);
      var next := Step(s, events[0]).0;
      if clear(s, events[0]) {
        RunKeepsIff(next, events[1..], good, clear);
      } else {
        StartIsGood(next, events[1..], good);
      }
    } else {
      assert events[..0] == [];
      assert StateBefore(s, events, 0) == s;
    }
  }

  lemma StartIsGood(s: State, events: seq<Event>, good: State -> bool)
    requires StateOk(s) && AllOk(events)
    ensures AlwaysGood(s, events, good) ==> good(s)
  {
    if AlwaysGood(s, events, good) {
      assert good(StateBefore(s, events, 0));
    }
  }

  // ---------------------------------------------------------------------------
  // Keys
  // ---------------------------------------------------------------------------

  /** A find that succeeds does so when no locked packet has its key. */
  ghost predicate FindsUnlocked(s: State, e: Event) {
    StateOk(s) && (e.FindEvent? && Find(s, e.key, e.total, e.now, e.room).1 ==> !HasKey(s.locked, e.key))
  }

  lemma StepKeepsKeysUniqueIff(s: State, e: Event)
    requires StateOk(s) && KeysUnique(s)
    ensures KeysUnique(Step(s, e).0) <==> FindsUnlocked(s, e)
  {
    match e
    case FindEvent(key, total, now, room) =>
      if Find(s, key, total, now, room).1 {
        FindKeepsKeysUniqueIff(s, key, total, now, room);
      } else {
        FailedFindDrops(s, key, total, now, room);
      }
    case PassEvent(i, off, payload) => PassKeepsKeysUnique(s, i, off, payload);
    case UnlockEvent(i) => PassKeepsKeysUnique(s, i, 0, []);
    case TimeoutEvent(now, limit) => YoungAreSome(s.current, now, limit);
    case TerminateEvent =>
  }

  /** A find that fails leaves the state, or drops a packet of another size. */
  lemma FailedFindDrops(s: State, key: Key, total: nat, now: uint32, room: Option<seq<byte>>)
    requires AllShaped(s) && KeysUnique(s) && !Find(s, key, total, now, room).1
    ensures KeysUnique(Find(s, key, total, now, room).0)
  {
    hide HasKey;
    var i := IndexOf(s.current, key);
    if total >= IPV6_HEADER_LENGTH && i < |s.current| {
      WithoutAt(s.current, i);
    }
  }

  /** A timeout keeps keys different. */
  lemma {:induction false} YoungAreSome(packets: seq<Packet>, now: uint32, limit: uint32)
    ensures UniqueKeys(packets) ==> UniqueKeys(Young(packets, now, limit))
    ensures forall i :: 0 <= i < |Young(packets, now, limit)| ==> Young(packets, now, limit)[i] in packets
  {
    if |packets| > 0 {
      YoungAreSome(packets[1..], now, limit);
      var rest := Young(packets[1..], now, limit);
      assert UniqueKeys(packets) ==>
               UniqueKeys(packets[1..]) && forall p :: p in packets[1..] ==> p.key != packets[0].key;
    }
  }

  /** In a run, keys are unique all along exactly when every find that succeeds does so when no
      locked packet has its key: locked packets are not searched. */
  lemma RunKeepsKeysUniqueIff(s: State, events: seq<Event>)
    requires StateOk(s) && AllOk(events) && KeysUnique(s)
    ensures AlwaysGood(s, events, KeysUnique) <==> AlwaysClear(s, events, FindsUnlocked)
  {
    forall t: State, e: Event | StateOk(t) && EventOk(e) && KeysUnique(t)
      ensures KeysUnique(Step(t, e).0) <==> FindsUnlocked(t, e)
    {
      StepKeepsKeysUniqueIff(t, e);
    }
    RunKeepsIff(s, events, KeysUnique, FindsUnlocked);
  }

  function Blank(n: nat): seq<byte> {
    seq(n, _ => 0)
  }

  /** Two finds for one key, without a pass or an unlock between them, lock two packets with the key. */
  lemma KeysCanClash(key: Key)
    ensures var find := FindEvent(key, 40, 0, Some(Blank(40)));
            && AllOk([find, find])
            && var s := Run(InitialState(2, 0), [find, find]);
            && |s.locked| == 2 && s.locked[0].key == key == s.locked[1].key && !KeysUnique(s)
  {
    var find := FindEvent(key, 40, 0, Some(Blank(40)));
    var p := NewPacket(key, 40, 0, Blank(40));
    var s1 := State([], [p], 1, 0);
    assert Step(InitialState(2, 0), find).0 == s1;
    StepConserves(InitialState(2, 0), find);
    var s2 := State([], [p, p], 0, 0);
    assert Step(s1, find).0 == s2;
    StepConserves(s1, find);
    assert [find, find][1..] == [find] && [find][1..] == [];
    assert Run(s1, [find]) == Run(s2, []);
    assert Run(InitialState(2, 0), [find, find]) == Run(s1, [find]);
    assert s2.locked[0].key == s2.locked[1].key;
  }

  // ---------------------------------------------------------------------------
  // The canonical form
  // ---------------------------------------------------------------------------

  ghost predicate CanonicalState(s: State) {
    && (forall i :: 0 <= i < |s.current| ==> Canonical(s.current[i].specs))
    && (forall i :: 0 <= i < |s.locked| ==> Canonical(s.locked[i].specs))
  }

  /** The data of a fragment reaches further than one swallowed spec accounts for. */
  ghost predicate DataReachesTooFar(p: Packet, off: nat, data: seq<byte>)
    requires Shaped(p) && off + |data| <= p.total
  {
    ReachesTooFar(p.specs, Range(off, |data|), Identical(p, off, data))
  }

  /** A fragment that leaves its packet pending does not reach too far. */
  ghost predicate KeepsForm(s: State, e: Event) {
    && StateOk(s)
    && (e.PassEvent? && e.index < |s.locked| ==>
          var p := s.locked[e.index];
          Accept(p, e.offset, e.payload, s.freeSpecs).0.Pending? ==>
            !DataReachesTooFar(p, e.offset, FragmentData(e.offset, p.total, e.payload).value))
  }

  lemma StepKeepsFormIff(s: State, e: Event)
    requires StateOk(s) && EventOk(e) && CanonicalState(s)
    ensures CanonicalState(Step(s, e).0) <==> KeepsForm(s, e)
  {
    match e
    case FindEvent(key, total, now, room) =>
      StateIsShaped(s);
      FindKeepsForm(s, key, total, now, room);
    case PassEvent(i, off, payload) => PassKeepsFormIff(s, i, off, payload);
    case UnlockEvent(i) =>
    case TimeoutEvent(now, limit) => YoungAreSome(s.current, now, limit);
    case TerminateEvent =>
  }

  lemma FindKeepsForm(s: State, key: Key, total: nat, now: uint32, room: Option<seq<byte>>)
    requires AllShaped(s) && CanonicalState(s)
    ensures CanonicalState(Find(s, key, total, now, room).0)
  {
    hide Canonical, IndexOf;
    assert Canonical([Range(0, 0)]) by {
      NothingIsCanonical();
    }
    var i := IndexOf(s.current, key);
    if total >= IPV6_HEADER_LENGTH && i < |s.current| {
      WithoutAt(s.current, i);
    }
  }

  lemma NothingIsCanonical()
    ensures Canonical([Range(0, 0)])
  {
  }

  lemma PassKeepsFormIff(s: State, i: nat, off: nat, payload: seq<byte>)
    requires StateOk(s) && CanonicalState(s)
    ensures CanonicalState(Pass(s, i, off, payload).0) <==> KeepsForm(s, PassEvent(i, off, payload))
  {
    StateIsShaped(s);
    hide Canonical, Store, ReachesTooFar, FragmentData, PacketOk;
    if i < |s.locked| {
      var p := s.locked[i];
      var next := Pass(s, i, off, payload).0;
      var outcome := Accept(p, off, payload, s.freeSpecs).0;
      if outcome.Pending? {
        var data := FragmentData(off, p.total, payload).value;
        StoreCanonicalIff(p.specs, Range(off, |data|), Identical(p, off, data), s.freeSpecs);
        assert next.current[0] == outcome.packet && next.current[1..] == s.current;
        assert forall k :: 0 <= k < |s.current| ==> next.current[k + 1] == s.current[k];
      }
    }
  }

  lemma StateIsShaped(s: State)
    requires StateOk(s)
    ensures AllShaped(s)
  {
  }

  /** In a run, all lists are canonical all along exactly when no fragment that leaves its packet
      pending reaches too far. */
  lemma RunKeepsFormIff(s: State, events: seq<Event>)
    requires StateOk(s) && AllOk(events) && CanonicalState(s)
    ensures AlwaysGood(s, events, CanonicalState) <==> AlwaysClear(s, events, KeepsForm)
  {
    forall t: State, e: Event | StateOk(t) && EventOk(e) && CanonicalState(t)
      ensures CanonicalState(Step(t, e).0) <==> KeepsForm(t, e)
    {
      StepKeepsFormIff(t, e);
    }
    RunKeepsIff(s, events, CanonicalState, KeepsForm);
  }

  /** A fragment that is accepted and does not reach too far completes its packet exactly when
      everything is covered then. */
  lemma CompletesIff(p: Packet, off: nat, payload: seq<byte>, freeSpecs: nat)
    requires PacketOk(p) && Canonical(p.specs)
    requires var data := FragmentData(off, p.total, payload);
             data.Some? && off + |data.value| <= p.total ==> !DataReachesTooFar(p, off, data.value)
    ensures var data := FragmentData(off, p.total, payload);
            Accept(p, off, payload, freeSpecs).0.Completed? <==>
            && data.Some? && off + |data.value| <= p.total && Stored(p, off, data.value, freeSpecs).ok
            && forall x :: 0 <= x < p.total ==> Covers(Stored(p, off, data.value, freeSpecs).ranges, x)
  {
    hide Canonical, Store, ReachesTooFar, FragmentData, Truthful;
    var data := FragmentData(off, p.total, payload);
    if data.Some? && off + |data.value| <= p.total {
      var n, res := Range(off, |data.value|), Stored(p, off, data.value, freeSpecs);
      if res.ok {
        DataIsNonempty(off, p.total, payload);
        StoreSound(p.specs, n, Identical(p, off, data.value), freeSpecs, p.total);
        StoreCanonicalIff(p.specs, n, Identical(p, off, data.value), freeSpecs);
        CompleteIff(res.ranges, p.total);
        CanonicalStartsAtZero(res.ranges);
      }
    }
  }

  lemma DataIsNonempty(off: nat, size: nat, payload: seq<byte>)
    ensures FragmentData(off, size, payload).Some? ==> |FragmentData(off, size, payload).value| > 0
  {
  }

  lemma CanonicalStartsAtZero(rs: seq<Range>)
    requires Canonical(rs)
    ensures |rs| > 0 && rs[0].offset == 0
  {
  }

  /** After any run from Init in which no fragment that left its packet pending reached too far, a
      fragment that does not either makes Pass return the packet exactly when it is accepted and
      [0, total) is covered then. */
  lemma RunHandsOverIff(packets: nat, specs: nat, events: seq<Event>, i: nat, off: nat, payload: seq<byte>)
    requires AllOk(events) && AlwaysClear(InitialState(packets, specs), events, KeepsForm)
    requires var s := Run(InitialState(packets, specs), events);
             i < |s.locked| && var p := s.locked[i];
             var data := FragmentData(off, p.total, payload);
             data.Some? && off + |data.value| <= p.total ==> !DataReachesTooFar(p, off, data.value)
    ensures var s := Run(InitialState(packets, specs), events);
            i < |s.locked| && var p := s.locked[i];
            var data := FragmentData(off, p.total, payload);
            Pass(s, i, off, payload).1.Some? <==>
            && data.Some? && off + |data.value| <= p.total && Stored(p, off, data.value, s.freeSpecs).ok
            && forall x :: 0 <= x < p.total ==> Covers(Stored(p, off, data.value, s.freeSpecs).ranges, x)
  {
    hide Accept, FragmentData, DataReachesTooFar, Canonical;
    var start := InitialState(packets, specs);
    RunKeepsFormIff(start, events);
    assert events[..|events|] == events;
    assert CanonicalState(StateBefore(start, events, |events|));
    var s := Run(start, events);
    CompletesIff(s.locked[i], off, payload, s.freeSpecs);
  }

  // -- a run in which everything arrives and nothing comes out --------------------

  /** A packet of 64 bytes, all zero, under reassembly alone. */
  ghost predicate Lonely(s: State, key: Key, specs: seq<Range>, free: nat) {
    && |s.current| == 1 && s.locked == [] && s.freeSpecs == free
    && var p := s.current[0];
    && p.key == key && p.total == 64 && p.bytes == Blank(64) && p.specs == specs
  }

  /** Zeros that arrive for it, in two events. */
  ghost function Arrives(key: Key, off: nat, size: nat): seq<Event> {
    [FindEvent(key, 64, 0, Some(Blank(64))),
     PassEvent(0, off, if off == 0 then [DISPATCH_IPV6] + Blank(size) else Blank(size))]
  }

  lemma ArrivesAlone(s: State, key: Key, specs: seq<Range>, free: nat, off: nat, size: nat, res: MergeResult)
    requires StateOk(s) && Lonely(s, key, specs, free)
    requires 0 < size && size % 8 == 0 && 0 < off && off + size <= 64 && |specs| > 0
    requires res == Store(specs, Range(off, size), true, free) && res.ok && res.ranges[0] != Range(0, 64)
    ensures AllOk(Arrives(key, off, size)) && Lonely(Run(s, Arrives(key, off, size)), key, res.ranges, res.free)
  {
    hide Store, PacketOk;
    var events := Arrives(key, off, size);
    var p := s.current[0];
    var s1 := s.(current := [], locked := [p]);
    StepConserves(s, events[0]);
    assert Without(s.current, 0) == [];
    assert Step(s, events[0]).0 == s1;
    StepConserves(s1, events[1]);
    assert FragmentData(off, 64, Blank(size)) == Some(Blank(size));
    assert Blank(64)[off..off + size] == Blank(size) && Splice(Blank(64), off, Blank(size)) == Blank(64);
    assert Identical(p, off, Blank(size)) && |Blank(size)| == size;
    assert Without(s1.locked, 0) == [];
    TwoSteps(s, events[0], events[1]);
  }

  lemma TwoSteps(s: State, a: Event, b: Event)
    requires StateOk(s) && EventOk(a) && EventOk(b)
    ensures StateOk(Step(s, a).0) && StateOk(Step(Step(s, a).0, b).0)
    ensures Run(s, [a, b]) == Step(Step(s, a).0, b).0
  {
    StepConserves(s, a);
    StepConserves(Step(s, a).0, b);
    var next := Step(s, a).0;
    assert [a, b][1..] == [b] && [b][1..] == [];
    assert Run(next, [b]) == Run(Step(next, b).0, []);
  }

  lemma {:induction false} RunAppend(s: State, a: seq<Event>, b: seq<Event>)
    requires StateOk(s) && AllOk(a) && AllOk(b)
    ensures AllOk(a + b) && Run(s, a + b) == Run(Run(s, a), b)
    decreases |a|
  {
    hide Step, StateOk;
    if |a| == 0 {
      assert a + b == b;
    } else {
      StepConserves(s, a[0]);
      RunAppend(Step(s, a[0]).0, a[1..], b);
      assert (a + b)[0] == a[0] && (a + b)[1..] == a[1..] + b;
    }
  }

  lemma FindsFirst(key: Key)
    ensures Step(InitialState(1, 3), FindEvent(key, 64, 0, Some(Blank(64)))).0
            == State([], [NewPacket(key, 64, 0, Blank(64))], 0, 3)
  {
  }

  lemma FirstStored(identical: bool)
    ensures Store([Range(0, 0)], Range(0, 8), identical, 3) == MergeResult(true, [Range(0, 8)], 3)
  {
    assert [Range(0, 0)][0 := Range(0, 8)] == [Range(0, 8)];
  }

  lemma FirstArrives(key: Key)
    ensures AllOk(Arrives(key, 0, 8)) && Lonely(Run(InitialState(1, 3), Arrives(key, 0, 8)), key, [Range(0, 8)], 3)
  {
    hide PacketOk, Store;
    var events := Arrives(key, 0, 8);
    var p := NewPacket(key, 64, 0, Blank(64));
    var s1 := State([], [p], 0, 3);
    FindsFirst(key);
    StepConserves(InitialState(1, 3), events[0]);
    var data := Blank(8);
    assert ([DISPATCH_IPV6] + data)[1..] == data && FragmentData(0, 64, [DISPATCH_IPV6] + data) == Some(data);
    assert Splice(Blank(64), 0, data) == Blank(64);
    FirstStored(false);
    assert Stored(p, 0, data, 3) == MergeResult(true, [Range(0, 8)], 3);
    assert Without(s1.locked, 0) == [];
    TwoSteps(InitialState(1, 3), events[0], events[1]);
  }

  /** Five fragments of a datagram of 64 zeros arrive, one of them overlapping two that are there:
      every byte has been received, and the packet is still pending. */
  lemma AllCanArriveAndNothingComeOut(key: Key)
    ensures var events := Arrives(key, 0, 8) + Arrives(key, 16, 8) + Arrives(key, 32, 8) + Arrives(key, 8, 40)
                          + Arrives(key, 48, 16);
            && AllOk(events) && !AlwaysClear(InitialState(1, 3), events, KeepsForm)
            && var s := Run(InitialState(1, 3), events);
            && |s.current| == 1
            && s.current[0].specs == [Range(0, 48), Range(32, 8), Range(48, 16)]
            && (forall x :: 0 <= x < 64 ==> Covers(s.current[0].specs, x))
            && !CanonicalState(s)
  {
    hide PacketOk, Run, Store, Arrives, KeepsForm, Canonical;
    var start := InitialState(1, 3);
    var e1, e2, e3, e4, e5 := Arrives(key, 0, 8), Arrives(key, 16, 8), Arrives(key, 32, 8), Arrives(key, 8, 40),
                              Arrives(key, 48, 16);
    FirstArrives(key);
    StoreResults();
    var s1 := Run(start, e1);
    ArrivesAlone(s1, key, [Range(0, 8)], 3, 16, 8, MergeResult(true, [Range(0, 8), Range(16, 8)], 2));
    var s2 := Run(s1, e2);
    ArrivesAlone(s2, key, [Range(0, 8), Range(16, 8)], 2, 32, 8,
                 MergeResult(true, [Range(0, 8), Range(16, 8), Range(32, 8)], 1));
    var s3 := Run(s2, e3);
    ArrivesAlone(s3, key, [Range(0, 8), Range(16, 8), Range(32, 8)], 1, 8, 40,
                 MergeResult(true, [Range(0, 48), Range(32, 8)], 2));
    var s4 := Run(s3, e4);
    ArrivesAlone(s4, key, [Range(0, 48), Range(32, 8)], 2, 48, 16,
                 MergeResult(true, [Range(0, 48), Range(32, 8), Range(48, 16)], 1));
    var s5 := Run(s4, e5);
    RunAppend(start, e1, e2);
    RunAppend(start, e1 + e2, e3);
    RunAppend(start, e1 + e2 + e3, e4);
    RunAppend(start, e1 + e2 + e3 + e4, e5);
    var events := e1 + e2 + e3 + e4 + e5;
    var rs := s5.current[0].specs;
    forall x | 0 <= x < 64
      ensures Covers(rs, x)
    {
      assert rs[if x < 48 then 0 else 2].Has(x);
    }
    FormIsLost(rs);
    RunKeepsFormIff(start, events);
    assert events[..|events|] == events;
    assert !CanonicalState(StateBefore(start, events, |events|));
  }

  lemma FormIsLost(rs: seq<Range>)
    requires |rs| > 1 && rs[0] == Range(0, 48) && rs[1] == Range(32, 8)
    ensures !Canonical(rs)
  {
    assert !(rs[0].End() < rs[1].offset);
  }

  lemma StoreResults()
    ensures Store([Range(0, 8)], Range(16, 8), true, 3) == MergeResult(true, [Range(0, 8), Range(16, 8)], 2)
    ensures Store([Range(0, 8), Range(16, 8)], Range(32, 8), true, 2)
            == MergeResult(true, [Range(0, 8), Range(16, 8), Range(32, 8)], 1)
    ensures Store([Range(0, 8), Range(16, 8), Range(32, 8)], Range(8, 40), true, 1)
            == MergeResult(true, [Range(0, 48), Range(32, 8)], 2)
    ensures Store([Range(0, 48), Range(32, 8)], Range(48, 16), true, 2)
            == MergeResult(true, [Range(0, 48), Range(32, 8), Range(48, 16)], 1)
  {
    assert FindAfter([Range(0, 8)], 16, 0) == 0;
    assert FindAfter([Range(0, 8), Range(16, 8)], 32, 0) == 1;
    CanonicalFormCanBeLost(1);
    assert FindAfter([Range(0, 48), Range(32, 8)], 48, 0) == 1;
  }
}
