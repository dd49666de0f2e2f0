/**
 What becomes of a packet under reassembly when a frame's payload is passed to it: destroyed, put back,
 or handed over, and with which bytes and which coverage, in every case.
 */
module PacketFates {
  import opened LowpanTypes
  import opened Sequences
  import opened FragmentSpecs
  import opened ReassemblyModel
  import opened ReassemblyRuns

  /** The bytes in front of the datagram's: the dispatch of an uncompressed IPv6 header, in the first fragment. */
  function Front(off: nat): nat {
    if off == 0 then 1 else 0
  }

  /** The payload may be a fragment at off of a datagram of this size: it is not empty, lies within the datagram, and
      has a length that is a multiple of 8 unless it ends the datagram. */
  ghost predicate Acceptable(off: nat, total: nat, payload: seq<byte>) {
    && |payload| > Front(off) && (off == 0 ==> payload[0] == 0x41)
    && var end := off + |payload| - Front(off);
       end <= total && ((|payload| - Front(off)) % 8 == 0 || end == total)
  }

  /** The bytes are those before, but the data from off on. */
  ghost predicate Overwritten(was: seq<byte>, off: nat, data: seq<byte>, bytes: seq<byte>) {
    && |bytes| == |was|
    && forall x :: 0 <= x < |was| ==> bytes[x] == if off <= x < off + |data| then data[x - off] else was[x]
  }

  /** The data are in the packet already; a first fragment counts as such only once one was stored. */
  ghost predicate IsThere(p: Packet, off: nat, data: seq<byte>)
    requires |p.specs| > 0
  {
    && off + |data| <= |p.bytes| && (forall x :: 0 <= x < |data| ==> p.bytes[off + x] == data[x])
    && (off == 0 ==> p.specs[0].size > 0)
  }

  /** The same packet, with the data written and everything covered that is covered now. */
  ghost predicate Updated(p: Packet, off: nat, data: seq<byte>, now: Packet)
    requires Canonical(p.specs) && |data| > 0
  {
    && now.key == p.key && now.total == p.total && now.start == p.start
    && Overwritten(p.bytes, off, data, now.bytes) && now.writes == p.writes + [Write(off, data)]
    && forall x :: Covers(now.specs, x)
                   <==> CoversAfter(p.specs, PlaceOf(p.specs, Range(off, |data|)), Range(off, |data|), IsThere(p,
                         off, data), x)
  }

  /** What n covers once it is stored is all of the datagram. */
  ghost predicate CoversAll(p: Packet, off: nat, data: seq<byte>)
    requires Canonical(p.specs) && |data| > 0
  {
    forall x :: 0 <= x < p.total ==>
      CoversAfter(p.specs, PlaceOf(p.specs, Range(off, |data|)), Range(off, |data|), IsThere(p, off, data), x)
  }

  lemma IdenticalIff(p: Packet, off: nat, data: seq<byte>)
    requires |p.specs| > 0 && off + |data| <= |p.bytes|
    ensures Identical(p, off, data) <==> IsThere(p, off, data)
  {
    var part := p.bytes[off..off + |data|];
    if IsThere(p, off, data) {
      assert part == data;
    } else if part == data {
      assert forall x :: 0 <= x < |data| ==> part[x] == p.bytes[off + x];
    }
  }

  lemma FragmentDataIs(off: nat, total: nat, payload: seq<byte>)
    ensures var data := FragmentData(off, total, payload);
            && (data.Some? && off + |data.value| <= total <==> Acceptable(off, total, payload))
            && (data.Some? ==> |payload| > Front(off) && data.value == payload[Front(off)..])
  {
  }

  lemma SpliceOverwrites(bytes: seq<byte>, off: nat, data: seq<byte>)
    requires off + |data| <= |bytes|
    ensures Overwritten(bytes, off, data, Splice(bytes, off, data))
  {
    forall x | 0 <= x < |bytes|
      ensures Splice(bytes, off, data)[x] == if off <= x < off + |data| then data[x - off] else bytes[x]
    {
      SpliceAt(bytes, off, data, x);
    }
  }

  /** A packet with a canonical list is destroyed exactly when the payload is not acceptable or no spec is left
      for it.  Otherwise the bytes are written and covered, and the packet is handed over only when
      all of it is covered, and then always, unless the fragment reaches too far. */
  lemma {:induction false} FateIs(p: Packet, off: nat, payload: seq<byte>, free: nat)
    requires PacketOk(p) && Canonical(p.specs)
    ensures var (outcome, free') := Accept(p, off, payload, free);
            if !Acceptable(off, p.total, payload) then outcome == Dropped && free' == free + |p.specs| - 1
            else
              var data := payload[Front(off)..];
              var n := Range(off, |data|);
              if LacksSpec(p.specs, PlaceOf(p.specs, n), n, IsThere(p, off, data), free)
              then outcome == Dropped && free' == free + |p.specs| - 1
              else match outcome
                case Dropped => false
                case Completed(bytes) =>
                  Overwritten(p.bytes, off, data, bytes) && CoversAll(p, off, data) && free' == free + |p.specs| - 1
                case Pending(now) =>
                  && Updated(p, off, data, now) && free' + |now.specs| == free + |p.specs|
                  && (CoversAll(p, off, data) ==> ReachesTooFar(p.specs, n, IsThere(p, off, data)))
  {
    hide FragmentData, Acceptable, Store, Canonical, Truthful, CoversAfter, LacksSpec, Covers, Splice, Overwritten,
         ReachesTooFar, IsThere, Identical;
    FragmentDataIs(off, p.total, payload);
    if Acceptable(off, p.total, payload) {
      var data := payload[Front(off)..];
      var n := Range(off, |data|);
      var same := Identical(p, off, data);
      IdenticalIff(p, off, data);
      SpliceOverwrites(p.bytes, off, data);
      StoreCovers(p.specs, n, same, free);
      StoreSound(p.specs, n, same, free, p.total);
      StoreCanonicalIff(p.specs, n, same, free);
      var res := Store(p.specs, n, same, free);
      WholeIsCovered(res.ranges, p.total);
      if res.ok && Canonical(res.ranges) {
        CompleteIff(res.ranges, p.total);
        CanonicalStartsAtZero(res.ranges);
      }
    }
  }

  lemma WholeIsCovered(rs: seq<Range>, total: nat)
    requires |rs| > 0
    ensures rs[0] == Range(0, total) ==> forall x :: 0 <= x < total ==> Covers(rs, x)
  {
    if rs[0] == Range(0, total) {
      assert forall x :: 0 <= x < total ==> rs[0].Has(x);
    }
  }

  /** Passing to locked packet i: the others stay locked in their order; the packet goes to the front of the
      current ones or its state becomes free, and it is returned exactly when it is handed over. */
  lemma PassMoves(s: State, i: nat, off: nat, payload: seq<byte>)
    requires AllShaped(s) && i < |s.locked|
    ensures var (outcome, free') := Accept(s.locked[i], off, payload, s.freeSpecs);
            var (s', out) := Pass(s, i, off, payload);
            && |s'.locked| == |s.locked| - 1
            && (forall j :: 0 <= j < i ==> s'.locked[j] == s.locked[j])
            && (forall j :: i < j < |s.locked| ==> s'.locked[j - 1] == s.locked[j])
            && s'.freeSpecs == free'
            && s'.current == (if outcome.Pending? then [outcome.packet] else []) + s.current
            && s'.freePackets == (if outcome.Pending? then s.freePackets else s.freePackets + 1)
            && out == (if outcome.Completed? then Some(outcome.bytes) else None)
  {
    hide Accept;
  }

  /** Unlocking packet i puts it to the front of the current ones and changes nothing else. */
  lemma UnlockMoves(s: State, i: nat)
    requires i < |s.locked|
    ensures var s' := Unlock(s, i);
            && |s'.locked| == |s.locked| - 1
            && (forall j :: 0 <= j < i ==> s'.locked[j] == s.locked[j])
            && (forall j :: i < j < |s.locked| ==> s'.locked[j - 1] == s.locked[j])
            && s'.current == [s.locked[i]] + s.current
            && s'.freePackets == s.freePackets && s'.freeSpecs == s.freeSpecs
  {
  }

  // ---------------------------------------------------------------------------
  // Timeouts and termination
  // ---------------------------------------------------------------------------

  /** The age of a packet is the time that takes a 32-bit clock from its start to now. */
  lemma AgeIs(p: Packet, now: uint32)
    ensures (p.start + Age(p, now)) % 0x1_0000_0000 == now
  {
  }

  /** Terminating frees every packet state and every spec, exactly when no packet is locked; otherwise it
      changes nothing. */
  lemma TerminateFrees(s: State)
    ensures var r := Terminate(s);
            if |s.locked| > 0 then r == s
            else r.current == [] && r.locked == [] && r.freePackets == PacketCount(s) && r.freeSpecs == SpecCount(s)
  {
  }
}
