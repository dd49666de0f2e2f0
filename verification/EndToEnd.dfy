/**
 From the fragmenter of one node to the defragmenter of another: whatever the frame
 sizes, the order of arrival and the duplicates, the datagram comes out as it went in,
 when its last missing fragment arrives and not before.
 */
module EndToEnd {
  import opened LowpanTypes
  import opened Sequences
  import opened FragmentSpecs
  import opened ReassemblyModel
  import opened FrameHeaders
  import opened DatagramKeys
  import opened Fragmenter

  // ---------------------------------------------------------------------------
  // Slices of a datagram
  // ---------------------------------------------------------------------------

  /** Where a datagram is cut: at multiples of 8, from 0 to its end. */
  ghost predicate Cuts(d: seq<byte>, cuts: seq<nat>) {
    && |cuts| >= 2 && cuts[0] == 0 && cuts[|cuts| - 1] == |d|
    && (forall k :: 0 <= k < |cuts| - 1 ==> cuts[k] % 8 == 0)
    && (forall j, k :: 0 <= j < k < |cuts| ==> cuts[j] < cuts[k])
  }

  function Count(cuts: seq<nat>): nat
    requires |cuts| > 0
  {
    |cuts| - 1
  }

  function RangeOf(cuts: seq<nat>, k: nat): Range
    requires k + 1 < |cuts| && cuts[k] <= cuts[k + 1]
  {
    Range(cuts[k], cuts[k + 1] - cuts[k])
  }

  predicate InSlice(cuts: seq<nat>, k: nat, x: int) {
    k + 1 < |cuts| && cuts[k] <= x < cuts[k + 1]
  }

  ghost predicate IsIn(cuts: seq<nat>, got: set<nat>, x: int) {
    exists k :: k in got && InSlice(cuts, k, x)
  }

  /** The packet holds exactly the slices in `got`. */
  ghost predicate Holds(p: Packet, d: seq<byte>, cuts: seq<nat>, got: set<nat>) {
    && p.total == |d| == |p.bytes|
    && Canonical(p.specs) && EndsBy(p.specs, |d|)
    && (forall x: nat :: Covers(p.specs, x) <==> IsIn(cuts, got, x))
    && (forall x: nat :: x < |d| && IsIn(cuts, got, x) ==> p.bytes[x] == d[x])
    && |p.specs| <= |got| + 1
  }

  lemma OneSliceOnly(d: seq<byte>, cuts: seq<nat>, j: nat, k: nat, x: int)
    requires Cuts(d, cuts) && j < Count(cuts) && k < Count(cuts) && j != k
    requires InSlice(cuts, k, x)
    ensures !InSlice(cuts, j, x)
  {
    assert j < k ==> j + 1 == k || cuts[j + 1] < cuts[k];
    assert k < j ==> k + 1 == j || cuts[k + 1] < cuts[j];
  }

  lemma MissingSlice(d: seq<byte>, cuts: seq<nat>, got: set<nat>, k: nat)
    requires Cuts(d, cuts) && k < Count(cuts) && k !in got
    requires forall j :: j in got ==> j < Count(cuts)
    ensures forall x :: InSlice(cuts, k, x) ==> !IsIn(cuts, got, x)
  {
    forall x, j | InSlice(cuts, k, x) && j in got
      ensures !InSlice(cuts, j, x)
    {
      OneSliceOnly(d, cuts, j, k, x);
    }
  }

  /** Every position is in some slice. */
  lemma SliceOf(d: seq<byte>, cuts: seq<nat>, x: nat) returns (k: nat)
    requires Cuts(d, cuts) && x < |d|
    ensures k < Count(cuts) && InSlice(cuts, k, x)
  {
    k := 0;
    while cuts[k + 1] <= x
      invariant k < Count(cuts) && cuts[k] <= x
      decreases |cuts| - k
    {
      assert k + 1 < Count(cuts);
      k := k + 1;
    }
  }

  lemma AllSlicesIff(d: seq<byte>, cuts: seq<nat>, got: set<nat>)
    requires Cuts(d, cuts)
    requires forall j :: j in got ==> j < Count(cuts)
    ensures (forall x: nat :: x < |d| ==> IsIn(cuts, got, x)) <==> (forall k: nat :: k < Count(cuts) ==> k in got)
  {
    if forall k: nat :: k < Count(cuts) ==> k in got {
      forall x: nat | x < |d|
        ensures IsIn(cuts, got, x)
      {
        var k := SliceOf(d, cuts, x);
        assert k in got;
      }
    } else {
      var k: nat :| k < Count(cuts) && k !in got;
      MissingSlice(d, cuts, got, k);
      CutsInRange(d, cuts, k);
      assert InSlice(cuts, k, cuts[k]);
    }
  }

  lemma CutsInRange(d: seq<byte>, cuts: seq<nat>, k: nat)
    requires Cuts(d, cuts) && k < Count(cuts)
    ensures cuts[k] < cuts[k + 1] <= |d|
  {
    assert k + 1 < Count(cuts) ==> cuts[k + 1] < cuts[Count(cuts)];
  }

  // ---------------------------------------------------------------------------
  // One slice arrives
  // ---------------------------------------------------------------------------

  function SliceData(d: seq<byte>, cuts: seq<nat>, k: nat): seq<byte>
    requires k + 1 < |cuts| && cuts[k] <= cuts[k + 1] <= |d|
  {
    d[cuts[k]..cuts[k + 1]]
  }

  lemma HeldSlice(p: Packet, d: seq<byte>, cuts: seq<nat>, got: set<nat>, k: nat)
    requires Cuts(d, cuts) && k < Count(cuts) && k in got
    requires cuts[k] < cuts[k + 1] <= |d|
    requires Holds(p, d, cuts, got)
    ensures Contains(p.specs, RangeOf(cuts, k))
    ensures p.bytes[cuts[k]..cuts[k + 1]] == SliceData(d, cuts, k)
    ensures cuts[k] == 0 ==> p.specs[0].size > 0
  {
    var n := RangeOf(cuts, k);
    forall x | n.Has(x)
      ensures Covers(p.specs, x) && p.bytes[x] == d[x]
    {
      assert InSlice(cuts, k, x);
    }
    CoveredIsContained(p.specs, n);
    if cuts[k] == 0 {
      assert n.Has(0);
      FirstIsCovered(p.specs);
    }
  }

  /** A slice that is held already changes nothing but the record of writes. */
  lemma KnownSlice(p: Packet, d: seq<byte>, cuts: seq<nat>, got: set<nat>, k: nat, free: nat)
    requires Cuts(d, cuts) && k < Count(cuts) && k in got
    requires cuts[k] < cuts[k + 1] <= |d|
    requires Holds(p, d, cuts, got)
    ensures Stored(p, cuts[k], SliceData(d, cuts, k), free) == MergeResult(true, p.specs, free)
    ensures Splice(p.bytes, cuts[k], SliceData(d, cuts, k)) == p.bytes
  {
    hide Store, Contains;
    HeldSlice(p, d, cuts, got, k);
    StoreKnown(p.specs, RangeOf(cuts, k), free);
    SpliceOfSame(p.bytes, cuts[k], SliceData(d, cuts, k));
  }

  lemma SpliceOfSame(bytes: seq<byte>, off: nat, data: seq<byte>)
    requires off + |data| <= |bytes| && bytes[off..off + |data|] == data
    ensures Splice(bytes, off, data) == bytes
  {
  }

  lemma FirstIsCovered(rs: seq<Range>)
    requires Canonical(rs) && Covers(rs, 0)
    ensures rs[0].size > 0
  {
    forall i | 0 < i < |rs|
      ensures !rs[i].Has(0)
    {
      assert rs[0].End() < rs[i].offset;
    }
  }

  /** A slice that is missing is added, given a spec for it. */
  lemma {:induction false} NewSlice(p: Packet, d: seq<byte>, cuts: seq<nat>, got: set<nat>, k: nat, free: nat)
    requires Cuts(d, cuts) && k < Count(cuts) && k !in got
    requires forall j :: j in got ==> j < Count(cuts)
    requires cuts[k] < cuts[k + 1] <= |d|
    requires Holds(p, d, cuts, got) && free > 0
    ensures var res := Stored(p, cuts[k], SliceData(d, cuts, k), free);
            res.ok && Holds(Written(p, cuts[k], SliceData(d, cuts, k), res.ranges), d, cuts, got + {k})
  {
    hide Store, Splice, Cuts;
    var n, data := RangeOf(cuts, k), SliceData(d, cuts, k);
    var res := Stored(p, cuts[k], data, free);
    MissingSlice(d, cuts, got, k);
    assert forall x :: n.Has(x) <==> InSlice(cuts, k, x);
    assert Uncovered(p.specs, n);
    StoreUncovered(p.specs, n, Identical(p, cuts[k], data), free, |d|);
    assert |res.ranges| <= |p.specs| + 1;
    assert |got + {k}| == |got| + 1;
    WithSlice(cuts, got, k);
    SpliceOfSlice(p, d, cuts, got, k);
  }

  lemma WithSlice(cuts: seq<nat>, got: set<nat>, k: nat)
    ensures forall x :: IsIn(cuts, got + {k}, x) <==> IsIn(cuts, got, x) || InSlice(cuts, k, x)
  {
    hide InSlice;
    assert k in got + {k};
    forall x | IsIn(cuts, got, x)
      ensures IsIn(cuts, got + {k}, x)
    {
      var j :| j in got && InSlice(cuts, j, x);
      assert j in got + {k};
    }
  }

  lemma SpliceOfSlice(p: Packet, d: seq<byte>, cuts: seq<nat>, got: set<nat>, k: nat)
    requires k + 1 < |cuts| && cuts[k] < cuts[k + 1] <= |d| == |p.bytes|
    requires forall x: nat :: x < |d| && IsIn(cuts, got, x) ==> p.bytes[x] == d[x]
    ensures forall x: nat :: x < |d| && IsIn(cuts, got + {k}, x) ==>
              Splice(p.bytes, cuts[k], SliceData(d, cuts, k))[x] == d[x]
  {
    WithSlice(cuts, got, k);
    forall x: nat | x < |d| && IsIn(cuts, got + {k}, x)
      ensures Splice(p.bytes, cuts[k], SliceData(d, cuts, k))[x] == d[x]
    {
      SpliceAt(p.bytes, cuts[k], SliceData(d, cuts, k), x);
    }
  }

  /** A packet that holds all slices is the datagram, and only then is it complete. */
  lemma CompleteIffAll(p: Packet, d: seq<byte>, cuts: seq<nat>, got: set<nat>)
    requires Cuts(d, cuts) && Holds(p, d, cuts, got)
    requires forall j :: j in got ==> j < Count(cuts)
    ensures var all := forall k: nat :: k < Count(cuts) ==> k in got;
            (p.specs[0] == Range(0, p.total) <==> all) && (all ==> p.bytes == d)
  {
    CompleteIff(p.specs, |d|);
    AllSlicesIff(d, cuts, got);
  }

  ghost predicate AllBelow(n: nat, got: set<nat>) {
    forall k: nat :: k < n ==> k in got
  }

  ghost predicate AllGot(cuts: seq<nat>, got: set<nat>)
    requires |cuts| > 0
  {
    AllBelow(Count(cuts), got)
  }

  /** What one more slice does to a packet that is not complete: it is complete exactly when
      that was the last missing one, and otherwise holds one slice more. */
  lemma {:induction false} AbsorbSlice(p: Packet, d: seq<byte>, cuts: seq<nat>, got: set<nat>, k: nat, free: nat)
    requires Cuts(d, cuts) && k < Count(cuts)
    requires forall j :: j in got ==> j < Count(cuts)
    requires cuts[k] < cuts[k + 1] <= |d|
    requires Holds(p, d, cuts, got) && !AllGot(cuts, got) && (k !in got ==> free > 0)
    ensures |p.specs| > 0
    ensures var (outcome, free') := Absorb(p, cuts[k], SliceData(d, cuts, k), free);
            if AllGot(cuts, got + {k}) then outcome == Completed(d) && free' == free + |p.specs| - 1
            else outcome.Pending? && Holds(outcome.packet, d, cuts, got + {k})
                 && outcome.packet.key == p.key && free' + |outcome.packet.specs| == free + |p.specs|
  {
    hide Store, Holds;
    assert Shaped(p) && p.total == |d| by {
      HoldsShape(p, d, cuts, got);
    }
    var data := SliceData(d, cuts, k);
    var res := Stored(p, cuts[k], data, free);
    var next := Written(p, cuts[k], data, res.ranges);
    if k in got {
      KnownSlice(p, d, cuts, got, k, free);
      assert got + {k} == got;
      SameContent(p, next, d, cuts, got);
    } else {
      NewSlice(p, d, cuts, got, k, free);
    }
    HoldsShape(next, d, cuts, got + {k});
    CompleteIffAll(next, d, cuts, got + {k});
  }

  lemma HoldsShape(p: Packet, d: seq<byte>, cuts: seq<nat>, got: set<nat>)
    requires Holds(p, d, cuts, got)
    ensures Shaped(p) && p.total == |d|
  {
  }

  lemma SameContent(p: Packet, next: Packet, d: seq<byte>, cuts: seq<nat>, got: set<nat>)
    requires Holds(p, d, cuts, got)
    requires next.total == p.total && next.bytes == p.bytes && next.specs == p.specs
    ensures Holds(next, d, cuts, got)
  {
  }

  // ---------------------------------------------------------------------------
  // The defragmenter's state while the slices of one datagram arrive
  // ---------------------------------------------------------------------------

  /** s is s0 with, once a slice has arrived, one more current packet that holds what arrived
      and took its packet state and its specs from the pools. */
  ghost predicate Underway(s0: State, s: State, key: Key, d: seq<byte>, cuts: seq<nat>, got: set<nat>) {
    if got == {} then
      s == s0
    else
      && |s.current| > 0 && s.current[1..] == s0.current && s.locked == s0.locked
      && var p := s.current[0];
      && p.key == key && Holds(p, d, cuts, got)
      && s.freePackets + 1 == s0.freePackets
      && s.freeSpecs + (|p.specs| - 1) == s0.freeSpecs
  }

  lemma NewPacketHoldsNothing(key: Key, d: seq<byte>, cuts: seq<nat>, now: uint32, room: seq<byte>)
    requires |room| == |d|
    ensures Holds(NewPacket(key, |d|, now, room), d, cuts, {})
  {
  }

  /** Finding the packet of an arriving slice: it is locked, at the front. */
  lemma FindUnderway(s0: State, s: State, key: Key, d: seq<byte>, cuts: seq<nat>, got: set<nat>,
                     now: uint32, room: seq<byte>)
    requires AllShaped(s0) && AllShaped(s)
    requires IndexOf(s0.current, key) == |s0.current| && s0.freePackets > 0
    requires IPV6_HEADER_LENGTH <= |d| == |room|
    requires Underway(s0, s, key, d, cuts, got)
    ensures var (s1, found) := Find(s, key, |d|, now, Some(room));
            && found && |s1.locked| > 0 && s1.locked[1..] == s0.locked && s1.current == s0.current
            && var p := s1.locked[0];
            && p.key == key && Holds(p, d, cuts, got)
            && s1.freePackets + 1 == s0.freePackets && s1.freeSpecs + (|p.specs| - 1) == s0.freeSpecs
  {
    hide Holds;
    if got == {} {
      NewPacketHoldsNothing(key, d, cuts, now, room);
    } else {
      var p := s.current[0];
      HoldsShape(p, d, cuts, got);
      LocksFirst(s, key, |d|, now, Some(room));
    }
  }

  lemma LocksFirst(s: State, key: Key, total: nat, now: uint32, room: Option<seq<byte>>)
    requires AllShaped(s) && |s.current| > 0 && s.current[0].key == key && s.current[0].total == total
    requires total >= IPV6_HEADER_LENGTH
    ensures Find(s, key, total, now, room)
            == (s.(current := s.current[1..], locked := [s.current[0]] + s.locked), true)
  {
    assert IndexOf(s.current, key) == 0;
    assert Without(s.current, 0) == s.current[1..];
  }

  /** One arrival: nothing comes out unless it is the last missing slice; then the datagram
      does, and the state is what it was before the first slice. */
  lemma {:induction false} SliceArrives(s0: State, s: State, key: Key, d: seq<byte>, cuts: seq<nat>, got: set<nat>,
        k: nat,
                     now: uint32, room: seq<byte>, payload: seq<byte>)
    requires AllShaped(s0) && AllShaped(s) && |cuts| > 0
    requires IndexOf(s0.current, key) == |s0.current| && s0.freePackets > 0 && s0.freeSpecs >= Count(cuts)
    requires IPV6_HEADER_LENGTH <= |d| == |room|
    requires Cuts(d, cuts) && k < Count(cuts) && cuts[k] < cuts[k + 1] <= |d|
    requires forall j :: j in got ==> j < Count(cuts)
    requires !AllGot(cuts, got) && Underway(s0, s, key, d, cuts, got)
    requires FragmentData(cuts[k], |d|, payload) == Some(SliceData(d, cuts, k))
    ensures var (s1, _) := Find(s, key, |d|, now, Some(room));
            AllShaped(s1) &&
            var (s2, out) := Pass(s1, 0, cuts[k], payload);
            && AllShaped(s2)
            && if AllGot(cuts, got + {k}) then out == Some(d) && s2 == s0
               else out == None && Underway(s0, s2, key, d, cuts, got + {k})
  {
    hide Holds, Find, AllGot, Absorb;
    FindUnderway(s0, s, key, d, cuts, got, now, room);
    var s1 := Find(s, key, |d|, now, Some(room)).0;
    var p := s1.locked[0];
    HoldsShape(p, d, cuts, got);
    assert s1.freeSpecs > 0 by {
      FewerSlices(cuts, got);
      HoldsFewSpecs(p, d, cuts, got);
    }
    AbsorbSlice(p, d, cuts, got, k, s1.freeSpecs);
    assert Without(s1.locked, 0) == s0.locked;
    var outcome := Absorb(p, cuts[k], SliceData(d, cuts, k), s1.freeSpecs).0;
    if outcome.Pending? {
      HoldsShape(outcome.packet, d, cuts, got + {k});
    }
  }

  lemma HoldsFewSpecs(p: Packet, d: seq<byte>, cuts: seq<nat>, got: set<nat>)
    requires Holds(p, d, cuts, got)
    ensures |p.specs| <= |got| + 1
  {
  }

  /** Some slice is missing, so fewer than all have arrived. */
  lemma FewerSlices(cuts: seq<nat>, got: set<nat>)
    requires |cuts| > 0 && !AllGot(cuts, got)
    requires forall j :: j in got ==> j < Count(cuts)
    ensures |got| < Count(cuts)
  {
    var k: nat :| k < Count(cuts) && k !in got;
    SmallerSet(got, Below(Count(cuts)) - {k});
  }

  ghost function Below(n: nat): (s: set<nat>)
    ensures |s| == n && forall j: nat :: j in s <==> j < n
  {
    if n == 0 then {} else Below(n - 1) + {n - 1}
  }

  lemma SmallerSet(a: set<nat>, b: set<nat>)
    requires a <= b
    ensures |a| <= |b|
  {
    assert b == a + (b - a);
  }

  // ---------------------------------------------------------------------------
  // Frames
  // ---------------------------------------------------------------------------

  /** A fragment that the fragmenter put into a frame. */
  datatype Emitted = Emitted(offset: nat, size: nat, payload: seq<byte>)

  /** The fragments of d from `off` on that requests for frames with these payload limits yield;
      a request that fails yields none and leaves the offset. */
  function Emit(d: seq<byte>, h: Headers, tag: uint16, off: nat, limits: seq<nat>): seq<Emitted>
    requires off <= |d| < 0x800
    decreases |limits|
  {
    if |limits| == 0 then
      []
    else
      var (status, slice) := NextFragment(d, h, tag, off, limits[0], 0);
      if status.NoError? then
        [Emitted(off, slice.size, slice.payload)] + Emit(d, h, tag, off + slice.size, limits[1..])
      else
        Emit(d, h, tag, off, limits[1..])
  }

  function EmittedEnd(start: nat, es: seq<Emitted>): nat {
    if |es| == 0 then start else es[|es| - 1].offset + es[|es| - 1].size
  }

  /** The payload of the frame that carries d[off..off + size]. */
  ghost predicate Carries(e: Emitted, d: seq<byte>, h: Headers, tag: uint16)
    requires |d| < 0x800
  {
    && 0 < e.size && e.offset + e.size <= |d|
    && (e.offset % 8 == 0 && (e.size % 8 == 0 || e.offset + e.size == |d|))
    && var front := HeaderBytes(FragmentHeaders(h, tag, |d|, e.offset));
    && front.Some?
    && e.payload == front.value + DispatchBytes(e.offset) + d[e.offset..e.offset + e.size]
  }

  /** The fragmenter partitions the datagram: each fragment starts where the one before it ended,
      at a multiple of 8, is not empty, and is carried by a frame within its limit. */
  lemma {:induction false} EmitPartitions(d: seq<byte>, h: Headers, tag: uint16, off: nat, limits: seq<nat>)
    requires off <= |d| < 0x800 && (off % 8 == 0 || off == |d|)
    ensures var es := Emit(d, h, tag, off, limits);
            && (|es| > 0 ==> es[0].offset == off)
            && (forall i :: 0 <= i < |es| ==> Carries(es[i], d, h, tag))
            && (forall i :: 0 < i < |es| ==> es[i].offset == es[i - 1].offset + es[i - 1].size)
            && off <= EmittedEnd(off, es) <= |d|
    decreases |limits|
  {
    hide Carries, NextFragment;
    if |limits| > 0 {
      var (status, slice) := NextFragment(d, h, tag, off, limits[0], 0);
      if status.NoError? {
        NextFragmentCarries(d, h, tag, off, limits[0]);
        EmitPartitions(d, h, tag, off + slice.size, limits[1..]);
      } else {
        EmitPartitions(d, h, tag, off, limits[1..]);
      }
    }
  }

  lemma NextFragmentCarries(d: seq<byte>, h: Headers, tag: uint16, off: nat, limit: nat)
    requires off <= |d| < 0x800 && (off % 8 == 0 || off == |d|)
    ensures var (status, slice) := NextFragment(d, h, tag, off, limit, 0);
            status.NoError? ==>
              && Carries(Emitted(off, slice.size, slice.payload), d, h, tag)
              && 0 < slice.size <= |d| - off && ((off + slice.size) % 8 == 0 || off + slice.size == |d|)
  {
  }

  function Joined(es: seq<Emitted>, d: seq<byte>): seq<byte>
    requires forall i :: 0 <= i < |es| ==> es[i].offset + es[i].size <= |d|
  {
    if |es| == 0 then [] else d[es[0].offset..es[0].offset + es[0].size] + Joined(es[1..], d)
  }

  ghost predicate Consecutive(es: seq<Emitted>, off: nat, d: seq<byte>) {
    && (|es| > 0 ==> es[0].offset == off)
    && (forall i :: 0 <= i < |es| ==> 0 < es[i].size && es[i].offset + es[i].size <= |d|)
    && (forall i :: 0 < i < |es| ==> es[i].offset == es[i - 1].offset + es[i - 1].size)
  }

  lemma ConsecutiveTail(es: seq<Emitted>, off: nat, d: seq<byte>)
    requires Consecutive(es, off, d) && |es| > 0
    ensures es[0].offset == off && off + es[0].size <= |d|
    ensures Consecutive(es[1..], off + es[0].size, d)
    ensures EmittedEnd(off + es[0].size, es[1..]) == EmittedEnd(off, es)
  {
  }

  /** The slices, in order, are the datagram from the first offset to the last end. */
  lemma {:induction false} JoinedIsDatagram(es: seq<Emitted>, off: nat, d: seq<byte>)
    requires Consecutive(es, off, d) && off <= |d|
    requires forall i :: 0 <= i < |es| ==> es[i].offset + es[i].size <= |d|
    ensures off <= EmittedEnd(off, es) <= |d| && Joined(es, d) == d[off..EmittedEnd(off, es)]
    decreases |es|
  {
    hide Consecutive, EmittedEnd;
    if |es| > 0 {
      ConsecutiveTail(es, off, d);
      JoinedIsDatagram(es[1..], off + es[0].size, d);
    } else {
      assert EmittedEnd(off, es) == off by {
        EmittedNothing(off);
      }
    }
  }

  lemma EmittedNothing(off: nat)
    ensures EmittedEnd(off, []) == off
  {
  }

  /** The cuts of a complete emission. */
  ghost function CutsOf(es: seq<Emitted>, d: seq<byte>): (cuts: seq<nat>)
    ensures |cuts| == |es| + 1
  {
    seq(|es| + 1, i requires 0 <= i <= |es| => if i < |es| then es[i].offset else |d|)
  }

  lemma {:induction false} CutsGrow(es: seq<Emitted>, off: nat, d: seq<byte>, j: nat, k: nat)
    requires Consecutive(es, off, d) && EmittedEnd(off, es) == |d| && j < k <= |es|
    ensures CutsOf(es, d)[j] < CutsOf(es, d)[k]
    decreases k - j
  {
    assert k < |es| ==> es[k - 1].offset + es[k - 1].size == es[k].offset;
    assert CutsOf(es, d)[k - 1] < CutsOf(es, d)[k];
    if j + 1 < k {
      CutsGrow(es, off, d, j, k - 1);
    }
  }

  lemma EmissionCuts(es: seq<Emitted>, d: seq<byte>)
    requires Consecutive(es, 0, d) && EmittedEnd(0, es) == |d| && |d| > 0
    requires forall i :: 0 <= i < |es| ==> es[i].offset % 8 == 0
    ensures Cuts(d, CutsOf(es, d)) && Count(CutsOf(es, d)) == |es|
    ensures forall k: nat :: k < |es| ==>
              CutsOf(es, d)[k] == es[k].offset && CutsOf(es, d)[k + 1] == es[k].offset + es[k].size
  {
    var cuts := CutsOf(es, d);
    forall j: nat, k: nat | j < k < |cuts|
      ensures cuts[j] < cuts[k]
    {
      CutsGrow(es, 0, d, j, k);
    }
  }

  // ---------------------------------------------------------------------------
  // The receiving node
  // ---------------------------------------------------------------------------

  /** A received frame, the time, and what a newly allocated packet would contain, if allocation succeeds. */
  datatype Arrival = Arrival(payload: seq<byte>, link: Link, now: uint32, room: Option<nat -> byte>)

  function RoomFor(a: Arrival, size: nat): (r: Option<seq<byte>>)
    ensures r.Some? ==> |r.value| == size
  {
    if a.room.None? then None else Some(seq(size, (i: nat) => a.room.value(i)))
  }

  lemma FindShaped(s: State, key: Key, total: nat, now: uint32, room: Option<seq<byte>>)
    requires AllShaped(s) && (room.Some? ==> |room.value| == total)
    ensures AllShaped(Find(s, key, total, now, room).0)
  {
  }

  lemma PassShaped(s: State, i: nat, off: nat, payload: seq<byte>)
    requires AllShaped(s)
    ensures AllShaped(Pass(s, i, off, payload).0)
  {
  }

  /** A frame with a fragmentation header goes through unpacking, finding its packet, and passing. */
  function Receive(s: State, a: Arrival): (r: (State, Option<seq<byte>>))
    requires AllShaped(s)
    ensures AllShaped(r.0)
  {
    if |a.payload| >= 0x100 || a.link.interPan then
      (s, None)
    else
      match Parse(a.payload, 0, EMPTY)
      case None => (s, None)
      case Some(h) =>
        if !h.hasFrag then
          (s, None)
        else
          FindShaped(s, FrameKey(h, a.link), h.frag.size, a.now, RoomFor(a, h.frag.size));
          var (s1, found) := Find(s, FrameKey(h, a.link), h.frag.size, a.now, RoomFor(a, h.frag.size));
          PassShaped(s1, 0, h.frag.offset, a.payload[h.nextOffset..]);
          if found then Pass(s1, 0, h.frag.offset, a.payload[h.nextOffset..]) else (s1, None)
  }

  /** The state before arrival j. */
  function StateAt(s: State, arrivals: seq<Arrival>, j: nat): (r: State)
    requires AllShaped(s) && j <= |arrivals|
    ensures AllShaped(r)
  {
    if j == 0 then s else Receive(StateAt(s, arrivals, j - 1), arrivals[j - 1]).0
  }

  function Output(s: State, arrivals: seq<Arrival>, j: nat): Option<seq<byte>>
    requires AllShaped(s) && j < |arrivals|
  {
    Receive(StateAt(s, arrivals, j), arrivals[j]).1
  }

  /** The fragments among the first j arrivals. */
  function Arrived(order: seq<nat>, j: nat): (got: set<nat>)
    requires j <= |order|
    ensures forall k :: k in got ==> exists i :: 0 <= i < j && order[i] == k
  {
    if j == 0 then {} else Arrived(order, j - 1) + {order[j - 1]}
  }

  /** An emitted frame unpacks to its fragmentation header and its slice. */
  lemma {:induction false} FrameUnpacks(e: Emitted, d: seq<byte>, h: Headers, tag: uint16)
    requires 0 < |d| < 0x800 && Carries(e, d, h, tag) && |e.payload| < 0x100
    ensures var r := Parse(e.payload, 0, EMPTY);
            && r.Some? && r.value.hasFrag && r.value.frag == FragHeader(tag, |d|, e.offset)
            && r.value.hasMesh == h.hasMesh && (h.hasMesh ==> r.value.mesh == h.mesh)
            && FragmentData(e.offset, |d|, e.payload[r.value.nextOffset..]) == Some(d[e.offset..e.offset + e.size])
  {
    hide Parse, HeaderBytes;
    var hf := FragmentHeaders(h, tag, |d|, e.offset);
    var front := HeaderBytes(hf).value;
    var rest := DispatchBytes(e.offset) + d[e.offset..e.offset + e.size];
    assert e.payload == front + rest;
    RoundTrip(hf, rest, EMPTY);
    assert e.payload[|front|..] == rest;
    assert e.offset == 0 ==> rest[1..] == d[e.offset..e.offset + e.size];
  }

  /** The premises of an end-to-end run: the emission is complete, the frames arrive over one
      link, allocation succeeds, and the receiver has a packet state, enough specs, and no packet with the
      datagram's tag, originator, final destination, and PAN. */
  ghost predicate Delivery(s: State, d: seq<byte>, h: Headers, tag: uint16, es: seq<Emitted>,
                           link: Link, arrivals: seq<Arrival>, order: seq<nat>) {
    && AllShaped(s) && IPV6_HEADER_LENGTH <= |d| <= MAX_PACKET_LENGTH
    && Consecutive(es, 0, d) && EmittedEnd(0, es) == |d|
    && (forall i :: 0 <= i < |es| ==> Carries(es[i], d, h, tag) && |es[i].payload| < 0x100)
    && !link.interPan
    && NoPacketOf(s.current, DatagramOf(h, tag, link))
    && s.freePackets > 0 && s.freeSpecs >= |es|
    && |order| == |arrivals|
    && forall i :: 0 <= i < |arrivals| ==>
         && order[i] < |es| && arrivals[i].payload == es[order[i]].payload
         && arrivals[i].link == link && arrivals[i].room.Some?
  }

  lemma DeliveryStarts(s: State, d: seq<byte>, h: Headers, tag: uint16, es: seq<Emitted>,
                       link: Link, arrivals: seq<Arrival>, order: seq<nat>)
    requires Delivery(s, d, h, tag, es, link, arrivals, order)
    ensures AllShaped(s) && |order| == |arrivals|
    ensures Underway(s, s, FrameKey(FragmentHeaders(h, tag, |d|, 0), link), d, CutsOf(es, d), {})
  {
  }

  /** While slices are missing, the state is the first one plus the packet under way. */
  lemma {:induction false} UnderwayAt(s: State, d: seq<byte>, h: Headers, tag: uint16, es: seq<Emitted>,
                                      link: Link, arrivals: seq<Arrival>, order: seq<nat>, j: nat)
    requires Delivery(s, d, h, tag, es, link, arrivals, order) && j <= |arrivals|
    requires !AllGot(CutsOf(es, d), Arrived(order, j))
    ensures Underway(s, StateAt(s, arrivals, j), FrameKey(FragmentHeaders(h, tag, |d|, 0), link), d, CutsOf(es, d), Arrived(order, j))
  {
    hide Underway, Delivery, Receive;
    DeliveryStarts(s, d, h, tag, es, link, arrivals, order);
    if j > 0 {
      assert Arrived(order, j - 1) <= Arrived(order, j);
      UnderwayAt(s, d, h, tag, es, link, arrivals, order, j - 1);
      ArrivalStep(s, d, h, tag, es, link, arrivals, order, j - 1);
    }
  }

  lemma ArrivedAreSlices(s: State, d: seq<byte>, h: Headers, tag: uint16, es: seq<Emitted>,
                         link: Link, arrivals: seq<Arrival>, order: seq<nat>, j: nat)
    requires Delivery(s, d, h, tag, es, link, arrivals, order) && j <= |arrivals|
    ensures forall k :: k in Arrived(order, j) ==> k < |es|
  {
  }

  /** What receiving a frame comes to once it is unpacked and its packet is found. */
  lemma ReceiveUnpacked(s: State, a: Arrival, h: Headers)
    requires AllShaped(s) && |a.payload| < 0x100 && !a.link.interPan
    requires Parse(a.payload, 0, EMPTY) == Some(h) && h.hasFrag
    requires Find(s, FrameKey(h, a.link), h.frag.size, a.now, RoomFor(a, h.frag.size)).1
    ensures var (s1, _) := Find(s, FrameKey(h, a.link), h.frag.size, a.now, RoomFor(a, h.frag.size));
            AllShaped(s1) && Receive(s, a) == Pass(s1, 0, h.frag.offset, a.payload[h.nextOffset..])
  {
    hide Find, Pass, Parse;
    FindShaped(s, FrameKey(h, a.link), h.frag.size, a.now, RoomFor(a, h.frag.size));
  }

  /** Arrival j, when slices are missing before it. */
  lemma {:induction false} ArrivalStep(s: State, d: seq<byte>, h: Headers, tag: uint16, es: seq<Emitted>,
                    link: Link, arrivals: seq<Arrival>, order: seq<nat>, j: nat)
    requires Delivery(s, d, h, tag, es, link, arrivals, order) && j < |arrivals|
    requires !AllGot(CutsOf(es, d), Arrived(order, j))
    requires var key := FrameKey(FragmentHeaders(h, tag, |d|, 0), link);
             Underway(s, StateAt(s, arrivals, j), key, d, CutsOf(es, d), Arrived(order, j))
    ensures var key := FrameKey(FragmentHeaders(h, tag, |d|, 0), link);
            var cuts, got := CutsOf(es, d), Arrived(order, j + 1);
            var (next, out) := Receive(StateAt(s, arrivals, j), arrivals[j]);
            if AllGot(cuts, got) then out == Some(d) && next == s
            else out == None && Underway(s, next, key, d, cuts, got)
  {
    hide Underway, AllGot, Carries, Find, Pass, CutsOf, AllShaped, Receive, Parse, FragmentData;
    var cuts, k, a := CutsOf(es, d), order[j], arrivals[j];
    var key := FrameKey(FragmentHeaders(h, tag, |d|, 0), link);
    var now := StateAt(s, arrivals, j);
    var e := es[k];
    assert forall i :: 0 <= i < |es| ==> es[i].offset % 8 == 0 by {
      CarriedAreAligned(es, d, h, tag);
    }
    EmissionCuts(es, d);
    FrameUnpacks(e, d, h, tag);
    var found := Parse(a.payload, 0, EMPTY).value;
    SameKeyIff(found, link, FragmentHeaders(h, tag, |d|, 0), link);
    NoPacketIff(s.current, FragmentHeaders(h, tag, |d|, 0), link);
    ArrivedAreSlices(s, d, h, tag, es, link, arrivals, order, j);
    SliceArrives(s, now, key, d, cuts, Arrived(order, j), k, a.now, RoomFor(a, |d|).value,
                 a.payload[found.nextOffset..]);
    FindUnderway(s, now, key, d, cuts, Arrived(order, j), a.now, RoomFor(a, |d|).value);
    ReceiveUnpacked(now, a, found);
  }

  lemma CarriedAreAligned(es: seq<Emitted>, d: seq<byte>, h: Headers, tag: uint16)
    requires |d| < 0x800 && forall i :: 0 <= i < |es| ==> Carries(es[i], d, h, tag)
    ensures forall i :: 0 <= i < |es| ==> es[i].offset % 8 == 0
  {
  }

  lemma {:induction false} MoreArrived(order: seq<nat>, i: nat, j: nat)
    requires i <= j <= |order|
    ensures Arrived(order, i) <= Arrived(order, j)
    decreases j - i
  {
    if i < j {
      MoreArrived(order, i, j - 1);
    }
  }

  /** End to end.  As long as a fragment is missing, no packet comes out; with the arrival of the
      last missing one the packet that comes out is the datagram, and the receiver is back in the
      state before the first arrival.  The order, the duplicates and the old contents of the
      allocated packet do not matter. */
  lemma {:induction false} EndToEndIdentity(s: State, d: seq<byte>, h: Headers, tag: uint16, es: seq<Emitted>,
                         link: Link, arrivals: seq<Arrival>, order: seq<nat>, j: nat)
    requires Delivery(s, d, h, tag, es, link, arrivals, order) && j < |arrivals|
    requires !AllBelow(|es|, Arrived(order, j))
    ensures if AllBelow(|es|, Arrived(order, j + 1))
            then Output(s, arrivals, j) == Some(d) && StateAt(s, arrivals, j + 1) == s
            else Output(s, arrivals, j) == None
  {
    UnderwayAt(s, d, h, tag, es, link, arrivals, order, j);
    ArrivalStep(s, d, h, tag, es, link, arrivals, order, j);
  }

  /** The same for what the fragmenter emits for any payload limits of its frames, once it is done. */
  lemma {:induction false} FragmentThenReassemble(s: State, d: seq<byte>, h: Headers, tag: uint16, limits: seq<nat>,
                               link: Link, arrivals: seq<Arrival>, order: seq<nat>, j: nat)
    requires AllShaped(s) && IPV6_HEADER_LENGTH <= |d| <= MAX_PACKET_LENGTH && !link.interPan
    requires forall i :: 0 <= i < |limits| ==> limits[i] < 0x100
    requires var es := Emit(d, h, tag, 0, limits);
             && EmittedEnd(0, es) == |d| && s.freePackets > 0 && s.freeSpecs >= |es|
             && |order| == |arrivals| && j < |arrivals|
             && (forall i :: 0 <= i < |arrivals| ==>
                   && order[i] < |es| && arrivals[i].payload == es[order[i]].payload
                   && arrivals[i].link == link && arrivals[i].room.Some?)
             && !AllBelow(|es|, Arrived(order, j))
    requires NoPacketOf(s.current, DatagramOf(h, tag, link))
    ensures var es := Emit(d, h, tag, 0, limits);
            if AllBelow(|es|, Arrived(order, j + 1))
            then Output(s, arrivals, j) == Some(d) && StateAt(s, arrivals, j + 1) == s
            else Output(s, arrivals, j) == None
  {
    hide Carries;
    var es := Emit(d, h, tag, 0, limits);
    EmitPartitions(d, h, tag, 0, limits);
    EmitWithin(d, h, tag, 0, limits);
    assert Consecutive(es, 0, d) by {
      CarriedIsConsecutive(es, 0, d, h, tag);
    }
    EndToEndIdentity(s, d, h, tag, es, link, arrivals, order, j);
  }

  lemma CarriedIsConsecutive(es: seq<Emitted>, off: nat, d: seq<byte>, h: Headers, tag: uint16)
    requires |d| < 0x800 && (forall i :: 0 <= i < |es| ==> Carries(es[i], d, h, tag))
    requires |es| > 0 ==> es[0].offset == off
    requires forall i :: 0 < i < |es| ==> es[i].offset == es[i - 1].offset + es[i - 1].size
    ensures Consecutive(es, off, d)
  {
  }

  ghost predicate ShortFrames(es: seq<Emitted>) {
    forall i :: 0 <= i < |es| ==> |es[i].payload| < 0x100
  }

  lemma OneMoreShort(e: Emitted, es: seq<Emitted>)
    requires ShortFrames(es) && |e.payload| < 0x100
    ensures ShortFrames([e] + es)
  {
  }

  lemma {:induction false} EmitWithin(d: seq<byte>, h: Headers, tag: uint16, off: nat, limits: seq<nat>)
    requires off <= |d| < 0x800
    requires forall i :: 0 <= i < |limits| ==> limits[i] < 0x100
    ensures ShortFrames(Emit(d, h, tag, off, limits))
    decreases |limits|
  {
    hide NextFragment;
    if |limits| > 0 {
      hide ShortFrames;
      var (status, slice) := NextFragment(d, h, tag, off, limits[0], 0);
      assert limits[0] < 0x100 && forall i :: 0 <= i < |limits[1..]| ==> limits[1..][i] < 0x100;
      if status.NoError? {
        EmitWithin(d, h, tag, off + slice.size, limits[1..]);
        OneMoreShort(Emitted(off, slice.size, slice.payload), Emit(d, h, tag, off + slice.size, limits[1..]));
      } else {
        EmitWithin(d, h, tag, off, limits[1..]);
      }
    }
  }
}
