/**
 The 6LoWPAN defragmenter (uc6LoWPANDefragmentation.c) over its linked structures: three
 lists of packet states and the pool of fragment specs.
 Each operation is one step of the state machine of module ReassemblyModel, and keeps every
 packet state on exactly one list and every spec in the pool or on exactly one chain.
 */
module Defragmenter {
  import opened LowpanTypes
  import opened Sequences
  import opened FragmentSpecs
  import opened FrameHeaders
  import opened FramePacking
  import opened DatagramKeys
  import opened Packets
  import opened PacketBytes
  import opened ReassemblyModel
  import opened SpecChains

  /** Puts the addresses of the link into the fields of the mesh header, if the frame has none, so that
      they name the two ends of the frame's datagram; the header stays absent. */
  method CreateVirtualMeshHeaderIfNecessary(headers: LowpanHeaders, link: Link)
    modifies headers`mesh
    ensures headers.Value() == WithVirtualMesh(old(headers.Value()), link.src, link.dst)
    ensures var g := DatagramOf(old(headers.Value()), headers.frag.tag, link);
            && headers.mesh.src == g.originator && headers.mesh.dst == g.destination
            && headers.mesh.hopLimit == if headers.hasMesh then old(headers.mesh).hopLimit else 1
    ensures KeyOf(headers.Value(), link.pan) == FrameKey(old(headers.Value()), link)
  {
    if !headers.hasMesh {
      headers.mesh := MeshHeader(1, link.src, link.dst);
    }
  }

  ghost function Members(ps: seq<PacketState>): set<PacketState> {
    set p | p in ps
  }

  /** A list of packet states. */
  class PacketList {
    var first: PacketState?
    ghost var nodes: seq<PacketState>
    ghost var members: set<PacketState>

    ghost predicate Valid()
      reads this, nodes`next
      ensures Valid() ==> (first == null <==> |nodes| == 0) && members == Members(nodes)
    {
      && first == (if |nodes| == 0 then null else nodes[0])
      && (forall i {:trigger nodes[i].next} :: 0 <= i < |nodes| ==>
            nodes[i].next == if i + 1 < |nodes| then nodes[i + 1] else null)
      && (forall i, j :: 0 <= i < j < |nodes| ==> nodes[i] != nodes[j])
      && members == Members(nodes)
    }

    constructor ()
      ensures Valid() && nodes == [] && members == {}
    {
      first, nodes, members := null, [], {};
    }

    /** The list of an array's packet states, in order. */
    constructor FromArray(states: seq<PacketState>)
      requires NoRepeats(states)
      modifies states`next
      ensures Valid() && nodes == states && members == Members(states)
    {
      first := if |states| > 0 then states[0] else null;
      nodes := states;
      members := Members(states);
      new;
      for k := 0 to |states|
        invariant nodes == states && first == if |states| > 0 then states[0] else null
        invariant members == Members(states)
        invariant forall i :: 0 <= i < k ==>
                    states[i].next == if i + 1 < |states| then states[i + 1] else null
      {
        states[k].next := if k + 1 < |states| then states[k + 1] else null;
      }
    }

    method PushFront(x: PacketState)
      requires Valid() && x !in members
      modifies this, x`next
      ensures Valid() && nodes == [x] + old(nodes) && members == old(members) + {x}
    {
      x.next := first;
      first := x;
      nodes := [x] + nodes;
      members := members + {x};
    }

    method PopFront() returns (x: PacketState)
      requires Valid() && |nodes| > 0
      modifies this
      ensures Valid() && [x] + nodes == old(nodes)
      ensures x in old(members) && members == old(members) - {x}
    {
      x := first;
      assert x == nodes[0];
      first := x.next;
      nodes := nodes[1..];
      members := members - {x};
    }

    lemma Links()
      requires Valid()
      ensures first == if |nodes| > 0 then nodes[0] else null
      ensures forall i {:trigger nodes[i].next} :: 0 <= i < |nodes| ==>
                nodes[i].next == if i + 1 < |nodes| then nodes[i + 1] else null
    {
    }

    /** The element at position k, with the one before it. */
    ghost predicate At(prev: PacketState?, x: PacketState, k: nat)
      reads `nodes
    {
      k < |nodes| && nodes[k] == x && prev == if k > 0 then nodes[k - 1] else null
    }

    /** Unlinks x, which follows prev. */
    method Unlink(prev: PacketState?, x: PacketState, ghost k: nat)
      requires Valid() && At(prev, x, k)
      modifies this, members`next
      ensures Valid()
      ensures nodes == Without(old(nodes), k) && members == old(members) - {x} && x in old(members)
    {
      if prev == null {
        first := x.next;
      } else {
        prev.next := x.next;
      }
      nodes := nodes[..k] + nodes[k + 1..];
      members := members - {x};
    }
  }

  // ---------------------------------------------------------------------------
  // One packet
  // ---------------------------------------------------------------------------

  /** The pool and the packet's chain are apart, and whoever owns a spec of theirs is recorded. */
  ghost predicate PoolApart(pool: SpecPool, p: PacketState)
    reads pool, p`chain, pool.members`owner
  {
    pool.members !! Nodes(p.chain) && forall n :: n in pool.members ==> n.owner == null
  }

  lemma {:induction false} SizedIfOk(p: PacketState)
    requires PacketOk(p.View())
    ensures Sized(p.chain)
  {
    hide Truthful, LastWritten;
    var rs := Ranges(p.chain);
    assert p.View().specs == rs;
    forall i {:trigger p.chain[i].Extent()} | 0 <= i < |p.chain|
      ensures p.chain[i].offset + p.chain[i].size < 0x8000 && (i > 0 ==> p.chain[i].size > 0)
    {
      assert rs[i] == p.chain[i].Extent();
    }
  }

  /** Records whose the specs are after a chain changed. */
  ghost method Settle(pool: SpecPool, p: PacketState, chain: seq<FragSpec>)
    requires pool.members !! Nodes(chain)
    modifies p`chain, pool.members`owner, Nodes(chain)`owner
    ensures p.chain == chain && forall n :: n in Nodes(chain) ==> n.owner == p
    ensures forall n :: n in pool.members ==> n.owner == null
  {
    forall n | n in pool.members {
      n.owner := null;
    }
    forall n | n in Nodes(chain) {
      n.owner := p;
    }
    p.chain := chain;
  }

  /** Merges the range of data copied into the packet into its chain of specs. */
  method StoreSpec(pool: SpecPool, p: PacketState, off: nat, len: nat, identical: bool) returns (ok: bool)
    requires pool.Valid() && p.Active() && PoolApart(pool, p) && Sized(p.chain) && off + len < 0x8000 && len > 0
    modifies pool, pool.members`next, pool.members`offset, pool.members`size, pool.members`owner
    modifies Nodes(p.chain)`next, Nodes(p.chain)`offset, Nodes(p.chain)`size, Nodes(p.chain)`owner
    modifies p`chain
    ensures pool.Valid() && p.Active() && PoolApart(pool, p)
    ensures pool.members + Nodes(p.chain) == old(pool.members + Nodes(p.chain))
    ensures Store(old(Ranges(p.chain)), Range(off, len), identical, |old(pool.nodes)|)
            == MergeResult(ok, Ranges(p.chain), |pool.nodes|)
  {
    hide Chained, Ranges, Nodes, Merge, Sized;
    ghost var s := p.chain;
    var prev: FragSpec? := null;
    ghost var k := -1;
    if off > 0 {
      prev, k := FindWhereNewFragSpecShouldBeInserted(p.firstFragSpec, off, s);
    }
    var failed: bool;
    ghost var s': seq<FragSpec>;
    failed, s' := MergeNewFragSpecIntoPacket(pool, p.firstFragSpec, prev, off, len, identical, s, k);
    ok := !failed;
    Settle(pool, p, s');
  }

  /** Copies a fragment's bytes into the packet: how many, and whether they were there already;
      zero when the frame holds no acceptable fragment for the packet. */
  method CopyFragment(p: PacketState, off: nat, rest: seq<byte>) returns (len: nat, identical: bool)
    requires p.Active() && off < 0x800
    modifies p.packet`header, p.packet`payload
    ensures p.Active()
    ensures var was, data := old(p.View()), FragmentData(off, old(p.View()).total, rest);
            && (len > 0 <==> data.Some? && off + |data.value| <= was.total)
            && (len > 0 ==> len == |data.value|
                            && p.View() == was.(bytes := Splice(was.bytes, off, data.value))
                            && identical == Identical(was, off, data.value))
  {
    hide Splice, Ranges;
    assert p.firstFragSpec.Extent() == Ranges(p.chain)[0];
    if off == 0 {
      len, identical := RawIpv6HeaderUnpack(rest, p.totalSize, p.packet);
      identical := identical && p.firstFragSpec.size > 0;
    } else if |rest| == 0 || (|rest| % 8 != 0 && off + |rest| != p.totalSize) {
      len, identical := 0, false;
    } else {
      var fits: bool;
      fits, identical := CopyIntoPacket(p.packet, off, rest);
      len := if fits then |rest| else 0;
    }
  }

  /** Copies a fragment's bytes into the packet and records where they are. */
  method AcceptFragment(pool: SpecPool, p: PacketState, off: nat, rest: seq<byte>) returns (ok: bool)
    requires pool.Valid() && p.Active() && PoolApart(pool, p) && PacketOk(p.View()) && off < 0x800
    modifies pool, pool.members`next, pool.members`offset, pool.members`size, pool.members`owner
    modifies Nodes(p.chain)`next, Nodes(p.chain)`offset, Nodes(p.chain)`size, Nodes(p.chain)`owner
    modifies p`chain, p`writes, p.packet`header, p.packet`payload
    ensures pool.Valid() && p.Active() && PoolApart(pool, p)
    ensures pool.members + Nodes(p.chain) == old(pool.members + Nodes(p.chain))
    ensures |pool.nodes| + |p.chain| == old(|pool.nodes| + |p.chain|)
    ensures Took(old(p.View()), off, rest, old(|pool.nodes|), ok, p.View(), |pool.nodes|)
  {
    hide Nodes, Chained, Truthful, LastWritten, Store, FragmentData, Ranges, Splice, Identical, Ipv6Packet.Bytes,
          PoolApart, Ordered, EndsBy;
    ghost var was := p.View();
    SizedIfOk(p);
    var len, identical := CopyFragment(p, off, rest);
    if len == 0 {
      return false;
    }
    ok := StoreSpec(pool, p, off, len, identical);
    p.writes := p.writes + [Write(off, FragmentData(off, was.total, rest).value)];
  }

  /** What accepting a fragment does to a packet and to the number of free specs. */
  ghost predicate Took(p: Packet, off: nat, rest: seq<byte>, free: nat, ok: bool, p': Packet, free': nat)
    requires Shaped(p)
  {
    var data := FragmentData(off, p.total, rest);
    if data.None? || off + |data.value| > p.total then
      !ok
    else
      var res := Stored(p, off, data.value, free);
      ok == res.ok && p' == Written(p, off, data.value, res.ranges) && free' == res.free
  }

  /** The state after a locked packet took a fragment and was freed or put back. */
  ghost predicate Concluded(s: State, i: nat, ok: bool, p': Packet, free': nat, s': State, handed: Option<seq<byte>>)
    requires i < |s.locked|
  {
    var rest := s.(locked := Without(s.locked, i), freeSpecs := free');
    && |p'.specs| > 0
    && (if !ok || p'.specs[0] == Range(0, s.locked[i].total) then
          s' == rest.(freePackets := rest.freePackets + 1, freeSpecs := free' + (|p'.specs| - 1))
        else
          s' == rest.(current := [p'] + rest.current))
    && handed == if ok && p'.specs[0] == Range(0, s.locked[i].total) then Some(p'.bytes) else None
  }

  lemma LockedOk(s: State, i: nat)
    requires StateOk(s) && i < |s.locked|
    ensures PacketOk(s.locked[i]) && AllShaped(s)
  {
    hide Truthful, EndsBy;
  }

  lemma StateShaped(s: State)
    requires StateOk(s)
    ensures AllShaped(s)
  {
    hide Truthful, EndsBy;
  }

  lemma TakeOrReplaceIs(s: State, i: nat, key: Key, total: nat, now: uint32, room: Option<seq<byte>>)
    requires AllShaped(s) && i < |s.current|
    ensures TakeOrReplace(s, i, key, total, now, room)
            == if s.current[i].total == total
               then (s.(current := Without(s.current, i), locked := [s.current[i]] + s.locked), true)
               else Allocate(Freed(s, i), key, total, now, room)
    ensures var rest := s.(current := Without(s.current, i));
            Freed(s, i) == rest.(freePackets := rest.freePackets + 1,
                                 freeSpecs := rest.freeSpecs + (|s.current[i].specs| - 1))
  {
  }

  lemma TookNothing(p: Packet, off: nat, free: nat)
    requires Shaped(p)
    ensures Took(p, off, [], free, false, p, free)
  {
  }

  lemma PassNowhere(s: State, i: nat, off: nat, rest: seq<byte>)
    requires StateOk(s) && i >= |s.locked|
    ensures Pass(s, i, off, rest) == (s, None)
  {
  }

  lemma ConcludedIsPass(s: State, i: nat, off: nat, rest: seq<byte>, ok: bool, p': Packet, free': nat, s': State,
                        handed: Option<seq<byte>>)
    requires AllShaped(s) && i < |s.locked|
    requires Took(s.locked[i], off, rest, s.freeSpecs, ok, p', free') && Concluded(s, i, ok, p', free', s', handed)
    requires free' + |p'.specs| == s.freeSpecs + |s.locked[i].specs|
    ensures Pass(s, i, off, rest) == (s', handed)
  {
    hide Store, FragmentData, Identical, Splice;
  }

  /** A timeout has come as far as current packet k. */
  ghost predicate Sifting(was: State, s: State, k: nat, now: uint32, limit: uint32) {
    && k <= |s.current| && s.locked == was.locked
    && Young(was.current, now, limit) == s.current[..k] + Young(s.current[k..], now, limit)
    && PacketCount(s) == PacketCount(was) && SpecCount(s) == SpecCount(was)
  }

  lemma SiftKept(was: State, s: State, k: nat, now: uint32, limit: uint32)
    requires Sifting(was, s, k, now, limit) && k < |s.current| && Age(s.current[k], now) < limit
    ensures Sifting(was, s, k + 1, now, limit)
  {
    hide Age, PacketCount, SpecCount;
    var rest := Young(s.current[k + 1..], now, limit);
    assert s.current[k..][1..] == s.current[k + 1..];
    assert Young(s.current[k..], now, limit) == [s.current[k]] + rest;
    assert s.current[..k] + ([s.current[k]] + rest) == s.current[..k + 1] + rest;
  }

  lemma SiftDropped(was: State, s: State, k: nat, now: uint32, limit: uint32)
    requires StateOk(s) && AllShaped(s)
    requires Sifting(was, s, k, now, limit) && k < |s.current| && Age(s.current[k], now) >= limit
    ensures Sifting(was, Freed(s, k), k, now, limit) && StateOk(Freed(s, k))
  {
    hide PacketOk, Age;
    var s' := Freed(s, k);
    FreedConserves(s, k);
    assert s.current[k..][1..] == s.current[k + 1..];
    assert s'.current[k..] == s.current[k + 1..];
    assert s'.current[..k] == s.current[..k];
  }

  lemma SiftEnds(was: State, s: State, now: uint32, limit: uint32)
    requires Sifting(was, s, |s.current|, now, limit) && |was.locked| == 0
    ensures s == Timeout(was, now, limit)
  {
    assert s.current[..|s.current|] == s.current;
    assert s.current[|s.current|..] == [];
  }

  lemma LockedForbids(s: State)
    requires |s.locked| > 0
    ensures Terminate(s) == s && forall now, limit :: Timeout(s, now, limit) == s
  {
  }

  lemma FreedConserves(s: State, k: nat)
    requires StateOk(s) && AllShaped(s) && k < |s.current|
    ensures var s' := Freed(s, k);
            && StateOk(s') && s'.locked == s.locked && |s'.current| == |s.current| - 1
            && PacketCount(s') == PacketCount(s) && SpecCount(s') == SpecCount(s)
  {
    hide PacketOk;
    TakeOutConserves(s, k);
  }

  lemma Emptied(was: State, s: State)
    requires |was.locked| == 0 && s.locked == [] && |s.current| == 0
    requires PacketCount(s) == PacketCount(was) && SpecCount(s) == SpecCount(was)
    ensures s == Terminate(was)
  {
  }

  lemma SiftBegins(was: State, now: uint32, limit: uint32)
    ensures Sifting(was, was, 0, now, limit)
  {
    assert was.current[0..] == was.current;
  }

  // ---------------------------------------------------------------------------
  // All packets
  // ---------------------------------------------------------------------------

  ghost function Views(ps: seq<PacketState>): (vs: seq<Packet>)
    reads ps, Footprints(ps)
    ensures |vs| == |ps|
    ensures forall i :: 0 <= i < |ps| ==> vs[i] == ps[i].View()
  {
    if |ps| == 0 then [] else [ps[0].View()] + Views(ps[1..])
  }

  twostate lemma SameViews(ps: seq<PacketState>)
    requires forall i :: 0 <= i < |ps| ==> ps[i].View() == old(ps[i].View())
    ensures Views(ps) == old(Views(ps))
  {
    hide Views, PacketState.View;
  }

  lemma ViewsPush(p: PacketState, ps: seq<PacketState>)
    ensures Views([p] + ps) == [p.View()] + Views(ps)
  {
    hide Views, PacketState.View;
  }

  lemma ViewsWithout(ps: seq<PacketState>, k: nat)
    requires k < |ps|
    ensures Views(Without(ps, k)) == Without(Views(ps), k)
  {
    hide Views, PacketState.View, Without;
    var rest, vs := Without(ps, k), Views(ps);
    WithoutAt(ps, k);
    WithoutAt(vs, k);
    forall i | 0 <= i < |rest|
      ensures Views(rest)[i] == Without(vs, k)[i]
    {
      assert rest[i] == ps[if i < k then i else i + 1];
      assert Without(vs, k)[i] == vs[if i < k then i else i + 1];
    }
  }

  /** What the views of the packets depend on beside their states. */
  ghost function Footprints(ps: seq<PacketState>): set<object>
    reads ps
  {
    if |ps| == 0 then {} else ps[0].Footprint() + Footprints(ps[1..])
  }

  /** The first specs belong to their packet states for good and are not among the additional ones. */
  ghost predicate FirstSpecsFixed(packets: set<PacketState>, firsts: set<FragSpec>, specs: set<FragSpec>)
    reads firsts`owner
  {
    && firsts !! specs
    && forall p :: p in packets ==> p.firstFragSpec in firsts && p.firstFragSpec.owner == p
  }

  /** Each of the packet states is in exactly one of the four sets. */
  ghost predicate Partition(a: set<PacketState>, b: set<PacketState>, c: set<PacketState>, d: set<PacketState>,
                            all: set<PacketState>) {
    a + b + c + d == all && a !! b !! c !! d
  }

  lemma PartitionOut(a: set<PacketState>, b: set<PacketState>, c: set<PacketState>, all: set<PacketState>,
        x: PacketState)
    requires Partition(a, b, c, {}, all)
    ensures x in a ==> Partition(a - {x}, b, c, {x}, all) && x !in b && (a - {x}) + b == a + b - {x}
    ensures x in b ==> Partition(a, b - {x}, c, {x}, all) && x !in a && a + (b - {x}) == a + b - {x}
    ensures x in a || x in b ==> a + b + {} == a + b - {x} + {x}
    ensures x in c ==> Partition(a, b, c - {x}, {x}, all) && x !in a + b
    ensures a !! b && a !! c && b !! c
  {
  }

  lemma PartitionIn(a: set<PacketState>, b: set<PacketState>, c: set<PacketState>, all: set<PacketState>,
        x: PacketState)
    requires Partition(a, b, c, {x}, all)
    ensures Partition(a + {x}, b, c, {}, all) && (a + {x}) + b == a + b + {x} == a + b + {x} + {}
    ensures Partition(a, b + {x}, c, {}, all) && a + (b + {x}) == a + b + {x}
    ensures Partition(a, b, c + {x}, {}, all) && a + b + {} == a + b
    ensures x !in a && x !in b && x !in c
  {
  }

  /** Every additional spec is either in the pool or on the chain of one packet in use. */
  ghost predicate SpecsPartitioned(used: set<PacketState>, pool: SpecPool, specs: set<FragSpec>)
    reads pool, used`chain, specs`owner
  {
    && pool.members <= specs
    && (forall n :: n in pool.members ==> n.owner == null)
    && (forall n :: n in specs && n.owner == null ==> n in pool.members)
    && (forall n :: n in specs && n.owner != null ==> n.owner in used && n in Nodes(n.owner.chain))
    && (forall p, n :: p in used && n in Nodes(p.chain) ==> n == p.firstFragSpec || n in specs)
  }

  lemma SpecsClaimed(used: set<PacketState>, p: PacketState, pool: SpecPool, specs: set<FragSpec>)
    requires SpecsPartitioned(used, pool, specs) && p.chain == [p.firstFragSpec] && p !in used
    ensures SpecsPartitioned(used + {p}, pool, specs)
  {
  }

  lemma SpecsReleased(used: set<PacketState>, p: PacketState, pool: SpecPool, specs: set<FragSpec>)
    requires SpecsPartitioned(used + {p}, pool, specs) && p.chain == [p.firstFragSpec] && p.firstFragSpec !in specs
    ensures SpecsPartitioned(used, pool, specs)
  {
    forall n | n in specs && n.owner != null
      ensures n.owner in used && n in Nodes(n.owner.chain)
    {
      assert n.owner == p ==> n in Nodes(p.chain);
    }
  }

  ghost predicate AllActive(used: set<PacketState>, nodes: set<FragSpec>, buffers: set<Ipv6Packet>)
    reads used`packet, used`totalSize, used`chain, nodes`next, nodes`owner, buffers
  {
    forall p :: p in used ==>
      p.packet != null && p.packet in buffers && Nodes(p.chain) <= nodes && p.Active()
  }

  ghost predicate AllLinked(loose: set<PacketState>, nodes: set<FragSpec>)
    reads loose`chain, nodes`next, nodes`owner
  {
    forall p :: p in loose ==> Nodes(p.chain) <= nodes && p.Linked()
  }

  lemma ActiveSplit(used: set<PacketState>, x: PacketState, nodes: set<FragSpec>, buffers: set<Ipv6Packet>)
    requires AllActive(used, nodes, buffers) && x in used
    ensures AllActive(used - {x}, nodes, buffers) && AllLinked({x}, nodes)
    ensures x.Active() && x.packet in buffers
  {
  }

  lemma ActiveJoin(used: set<PacketState>, x: PacketState, nodes: set<FragSpec>, buffers: set<Ipv6Packet>)
    requires AllActive(used, nodes, buffers) && AllLinked({x}, nodes)
    requires x.Active() && x.packet in buffers
    ensures AllActive(used + {x}, nodes, buffers) && AllLinked({}, nodes)
  {
  }

  /** No two packet states share their first spec, and it is not an element of the array of specs. */
  ghost predicate OwnSpecs(states: seq<PacketState>, fragSpecs: seq<FragSpec>) {
    && (forall i, j :: 0 <= i < j < |states| ==> states[i].firstFragSpec != states[j].firstFragSpec)
    && (forall i :: 0 <= i < |states| ==> states[i].firstFragSpec !in fragSpecs)
  }

  ghost function FirstSpecs(states: seq<PacketState>): set<FragSpec> {
    set p | p in states :: p.firstFragSpec
  }

  /** Records that each packet state owns the spec embedded in it. */
  ghost method Adopt(states: seq<PacketState>, fragSpecs: seq<FragSpec>)
    requires NoRepeats(states) && OwnSpecs(states, fragSpecs)
    modifies FirstSpecs(states)`owner, Nodes(fragSpecs)`owner
    ensures FirstSpecsFixed(Members(states), FirstSpecs(states), Nodes(fragSpecs))
    ensures forall n :: n in Nodes(fragSpecs) ==> n.owner == null
  {
    for k := 0 to |states|
      invariant forall i :: 0 <= i < k ==> states[i].firstFragSpec.owner == states[i]
    {
      states[k].firstFragSpec.owner := states[k];
    }
    forall n | n in Nodes(fragSpecs) {
      n.owner := null;
    }
  }

  class Defragmenter {
    const currentPackets: PacketList
    const lockedPackets: PacketList
    const freePackets: PacketList
    const freeAdditionalFragSpecs: SpecPool
    ghost const packets: set<PacketState>  // all packet states
    ghost const specs: set<FragSpec>       // all additional specs
    ghost const firsts: set<FragSpec>      // the specs embedded in the packet states
    ghost var buffers: set<Ipv6Packet>     // the packets under reassembly

    ghost function InUse(): set<PacketState>
      reads currentPackets`members, lockedPackets`members
    {
      currentPackets.members + lockedPackets.members
    }

    /** The lists hold each packet state once, except `loose`, which is on none. */
    ghost predicate ListsPartition(loose: set<PacketState>)
      reads currentPackets, lockedPackets, freePackets
      reads currentPackets.nodes`next, lockedPackets.nodes`next, freePackets.nodes`next
    {
      && currentPackets != lockedPackets && currentPackets != freePackets && lockedPackets != freePackets
      && Partition(currentPackets.members, lockedPackets.members, freePackets.members, loose, packets)
      && currentPackets.Valid() && lockedPackets.Valid() && freePackets.Valid()
    }

    /** The structure of the whole state while `loose` is being worked on. */
    ghost predicate Structured(loose: set<PacketState>)
      reads `buffers, currentPackets, lockedPackets, freePackets, freeAdditionalFragSpecs
      reads currentPackets.nodes`next, lockedPackets.nodes`next, freePackets.nodes`next
      reads freeAdditionalFragSpecs.nodes`next, specs`owner, specs`next, firsts`owner, firsts`next, buffers
      reads InUse()`packet, InUse()`totalSize, InUse()`chain, loose`chain
    {
      && ListsPartition(loose)
      && freeAdditionalFragSpecs.Valid()
      && FirstSpecsFixed(packets, firsts, specs)
      && SpecsPartitioned(InUse() + loose, freeAdditionalFragSpecs, specs)
      && AllActive(InUse(), firsts + specs, buffers)
      && AllLinked(loose, firsts + specs)
    }

    /** The state as a value. */
    ghost function Abs(): State
      reads currentPackets, lockedPackets, freePackets, freeAdditionalFragSpecs
      reads currentPackets.nodes, Footprints(currentPackets.nodes)
      reads lockedPackets.nodes, Footprints(lockedPackets.nodes)
    {
      State(Views(currentPackets.nodes), Views(lockedPackets.nodes), |freePackets.nodes|,
            |freeAdditionalFragSpecs.nodes|)
    }

    ghost predicate Valid()
      reads `buffers, currentPackets, lockedPackets, freePackets, freeAdditionalFragSpecs
      reads currentPackets.nodes`next, lockedPackets.nodes`next, freePackets.nodes`next
      reads freeAdditionalFragSpecs.nodes`next, specs`owner, specs`next, firsts`owner, firsts`next, buffers
      reads InUse(), currentPackets.nodes, Footprints(currentPackets.nodes)
      reads lockedPackets.nodes, Footprints(lockedPackets.nodes)
    {
      Structured({}) && StateOk(Abs())
    }

    constructor (states: seq<PacketState>, fragSpecs: seq<FragSpec>)
      requires NoRepeats(states) && NoRepeats(fragSpecs) && OwnSpecs(states, fragSpecs)
      modifies states`next, fragSpecs`next, Nodes(fragSpecs)`owner
      modifies FirstSpecs(states)`owner
      ensures Valid()
      ensures Abs() == InitialState(|states|, |fragSpecs|)
      ensures packets == Members(states) && specs == Nodes(fragSpecs)
    {
      hide NoRepeats, OwnSpecs, PacketState.Active, PacketList.Valid, SpecPool.Valid, Nodes, Members, FirstSpecs;
      currentPackets := new PacketList();
      lockedPackets := new PacketList();
      freePackets := new PacketList.FromArray(states);
      freeAdditionalFragSpecs := new SpecPool.FromArray(fragSpecs);
      packets := Members(states);
      specs := Nodes(fragSpecs);
      firsts := FirstSpecs(states);
      buffers := {};
      new;
      hide FirstSpecsFixed, Defragmenter.Abs, Defragmenter.Valid, ListsPartition;
      ListsStart();
      Adopt(states, fragSpecs);
      EmptyIsValid();
    }

    lemma ListsStart()
      requires currentPackets != lockedPackets && currentPackets != freePackets && lockedPackets != freePackets
      requires currentPackets.Valid() && lockedPackets.Valid() && freePackets.Valid()
      requires currentPackets.members == {} && lockedPackets.members == {} && freePackets.members == packets
      ensures ListsPartition({})
    {
      hide PacketList.Valid;
    }

    lemma EmptyIsValid()
      requires ListsPartition({}) && freeAdditionalFragSpecs.Valid() && FirstSpecsFixed(packets, firsts, specs)
      requires currentPackets.nodes == [] && lockedPackets.nodes == []
      requires freeAdditionalFragSpecs.members == specs && forall n :: n in specs ==> n.owner == null
      ensures Valid() && Abs() == InitialState(|freePackets.nodes|, |freeAdditionalFragSpecs.nodes|)
    {
      hide PacketState.Active, PacketState.Footprint, SpecPool.Valid, Views;
      assert InUse() + {} == {};
      assert Views([]) == [];
      assert StateOk(InitialState(|freePackets.nodes|, |freeAdditionalFragSpecs.nodes|));
    }

    // -- moving packet states between the lists ------------------------------------

    /** The packet state p is on no list and complete. */
    ghost predicate Working(p: PacketState)
      reads `buffers, currentPackets, lockedPackets, freePackets, freeAdditionalFragSpecs
      reads currentPackets.nodes`next, lockedPackets.nodes`next, freePackets.nodes`next
      reads freeAdditionalFragSpecs.nodes`next, specs`owner, specs`next, firsts`owner, firsts`next, buffers
      reads InUse()`packet, InUse()`totalSize, InUse()`chain, p`packet, p`totalSize, p`chain
    {
      Structured({p}) && p.packet != null && p.packet in buffers && p.Active()
    }

    /** Puts the loose packet in front of the current ones. */
    method PushCurrent(p: PacketState)
      requires Working(p)
      modifies currentPackets, p`next
      ensures Structured({})
      ensures Abs() == old(Abs()).(current := [old(p.View())] + old(Abs()).current)
    {
      hide PacketState.Active, PacketList.Valid, SpecPool.Valid, PacketState.View, Views, Footprints, Nodes;
      hide FirstSpecsFixed, SpecsPartitioned, AllActive, AllLinked, Without, Partition;
      ActiveJoin(InUse(), p, firsts + specs, buffers);
      PartitionIn(currentPackets.members, lockedPackets.members, freePackets.members, packets, p);
      ViewsPush(p, currentPackets.nodes);
      currentPackets.PushFront(p);
      SameViews(currentPackets.nodes);
      SameViews(lockedPackets.nodes);
    }

    /** Puts the loose packet in front of the locked ones. */
    method PushLocked(p: PacketState)
      requires Working(p)
      modifies lockedPackets, p`next
      ensures Structured({})
      ensures Abs() == old(Abs()).(locked := [old(p.View())] + old(Abs()).locked)
      ensures |lockedPackets.nodes| > 0 && lockedPackets.nodes[0] == p
    {
      hide PacketState.Active, PacketList.Valid, SpecPool.Valid, PacketState.View, Views, Footprints, Nodes;
      hide FirstSpecsFixed, SpecsPartitioned, AllActive, AllLinked, Without, Partition;
      ActiveJoin(InUse(), p, firsts + specs, buffers);
      PartitionIn(currentPackets.members, lockedPackets.members, freePackets.members, packets, p);
      ViewsPush(p, lockedPackets.nodes);
      lockedPackets.PushFront(p);
      SameViews(currentPackets.nodes);
      SameViews(lockedPackets.nodes);
    }

    /** Takes the current packet x, which follows prev, off its list. */
    method UnlinkCurrent(prev: PacketState?, x: PacketState, ghost k: nat)
      requires Structured({}) && currentPackets.At(prev, x, k)
      modifies currentPackets, currentPackets.members`next
      ensures Working(x) && x.View() == old(Abs()).current[k]
      ensures Abs() == old(Abs()).(current := Without(old(Abs()).current, k))
      ensures currentPackets.nodes == Without(old(currentPackets.nodes), k)
    {
      hide PacketState.Active, PacketList.Valid, SpecPool.Valid, PacketState.View, Views, Footprints, Nodes;
      hide FirstSpecsFixed, SpecsPartitioned, AllActive, AllLinked, Without, Partition;
      ActiveSplit(InUse(), x, firsts + specs, buffers);
      PartitionOut(currentPackets.members, lockedPackets.members, freePackets.members, packets, x);
      ViewsWithout(currentPackets.nodes, k);
      currentPackets.Unlink(prev, x, k);
      SameViews(currentPackets.nodes);
      SameViews(lockedPackets.nodes);
    }

    /** Takes the locked packet x, which follows prev, off its list. */
    method UnlinkLocked(prev: PacketState?, x: PacketState, ghost k: nat)
      requires Structured({}) && lockedPackets.At(prev, x, k)
      modifies lockedPackets, lockedPackets.members`next
      ensures Working(x) && x.View() == old(Abs()).locked[k]
      ensures Abs() == old(Abs()).(locked := Without(old(Abs()).locked, k))
    {
      hide PacketState.Active, PacketList.Valid, SpecPool.Valid, PacketState.View, Views, Footprints, Nodes;
      hide FirstSpecsFixed, SpecsPartitioned, AllActive, AllLinked, Without, Partition;
      ActiveSplit(InUse(), x, firsts + specs, buffers);
      PartitionOut(currentPackets.members, lockedPackets.members, freePackets.members, packets, x);
      ViewsWithout(lockedPackets.nodes, k);
      lockedPackets.Unlink(prev, x, k);
      SameViews(currentPackets.nodes);
      SameViews(lockedPackets.nodes);
    }

    lemma ListsValid()
      requires Structured({})
      ensures currentPackets.Valid() && lockedPackets.Valid() && freePackets.Valid() && freeAdditionalFragSpecs.Valid()
      ensures Abs().current == Views(currentPackets.nodes) && Abs().locked == Views(lockedPackets.nodes)
      ensures Abs().freePackets == |freePackets.nodes| && Abs().freeSpecs == |freeAdditionalFragSpecs.nodes|
    {
    }

    /** Takes a locked packet off its list; finds none when the packet is not locked. */
    method UnlockDefragPacket(x: PacketState) returns (found: bool, ghost k: nat)
      requires Structured({})
      modifies lockedPackets, lockedPackets.members`next
      ensures found <==> x in old(lockedPackets.members)
      ensures found ==> Working(x) && k < |old(Abs()).locked| && x.View() == old(Abs()).locked[k]
                        && old(lockedPackets.nodes)[k] == x
                        && Abs() == old(Abs()).(locked := Without(old(Abs()).locked, k))
      ensures !found ==> Structured({}) && Abs() == old(Abs())
    {
      hide Abs, Structured, Working, PacketList.Valid, PacketState.View;
      ListsValid();
      assert lockedPackets.members == Members(lockedPackets.nodes);
      lockedPackets.Links();
      var prev: PacketState? := null;
      var curr := lockedPackets.first;
      k := 0;
      while curr != null && curr != x
        invariant 0 <= k <= |lockedPackets.nodes|
        invariant curr == if k < |lockedPackets.nodes| then lockedPackets.nodes[k] else null
        invariant prev == if k > 0 then lockedPackets.nodes[k - 1] else null
        invariant forall i :: 0 <= i < k ==> lockedPackets.nodes[i] != x
        decreases |lockedPackets.nodes| - k
      {
        assert curr == lockedPackets.nodes[k];
        prev := curr;
        curr := curr.next;
        k := k + 1;
      }
      found := curr != null;
      if found {
        UnlinkLocked(prev, x, k);
      }
    }

    /** No other packet's specs are in the pool or on p's chain. */
    lemma OthersApart(p: PacketState)
      requires Structured({p})
      ensures PoolApart(freeAdditionalFragSpecs, p)
      ensures forall q :: q in InUse() ==>
                Nodes(q.chain) !! Nodes(p.chain) && Nodes(q.chain) !! freeAdditionalFragSpecs.members
      ensures p !in InUse() && p.Linked() && |p.chain| > 0 && p.chain[0] == p.firstFragSpec && Chained(p.chain)
      ensures freeAdditionalFragSpecs.Valid() && ListsPartition({p})
    {
      hide PacketList.Valid, SpecPool.Valid;
    }

    /** Specs moved between the pool and p's chain, and nothing that other packets depend on changed. */
    twostate predicate OnlyMoved(p: PacketState)
      reads `buffers, currentPackets, lockedPackets, freeAdditionalFragSpecs, p`chain, InUse(), buffers
      reads firsts + specs
    {
      && unchanged(currentPackets, lockedPackets) && buffers == old(buffers)
      && freeAdditionalFragSpecs.members + Nodes(p.chain) == old(freeAdditionalFragSpecs.members + Nodes(p.chain))
      && (forall n :: n in firsts + specs && n !in freeAdditionalFragSpecs.members + Nodes(p.chain) ==>
            n.owner == old(n.owner) && n.next == old(n.next) && n.offset == old(n.offset) && n.size == old(n.size))
      && (forall q :: q in InUse() ==> unchanged(q`chain, q`packet, q`key, q`totalSize, q`defragStartTime, q`writes))
      && (forall b :: b in buffers ==> unchanged(b) || old(b.holder) == p)
    }

    twostate lemma FirstSpecsStay(p: PacketState)
      requires old(Structured({p}))
      requires OnlyMoved(p) && p.Linked()
      ensures FirstSpecsFixed(packets, firsts, specs) && AllLinked({p}, firsts + specs)
    {
      hide PacketList.Valid, SpecPool.Valid, ListsPartition, Chained, AllActive;
      assert old(p.Linked());
      assert p.firstFragSpec in Nodes(p.chain);
    }

    /** The partition holds again. */
    twostate lemma SpecsStayPartitioned(p: PacketState)
      requires old(SpecsPartitioned(InUse() + {p}, freeAdditionalFragSpecs, specs))
      requires p !in InUse() && p.firstFragSpec !in specs
      requires OnlyMoved(p) && p.Linked() && PoolApart(freeAdditionalFragSpecs, p)
      ensures SpecsPartitioned(InUse() + {p}, freeAdditionalFragSpecs, specs)
    {
      hide Chained;
      var moved := old(freeAdditionalFragSpecs.members + Nodes(p.chain));
      assert p.firstFragSpec in Nodes(p.chain);
      forall n | n in specs
        ensures n.owner == null ==> n in freeAdditionalFragSpecs.members
        ensures n.owner != null ==> n.owner in InUse() + {p} && n in Nodes(n.owner.chain)
      {
        assert n !in moved ==> old(n.owner) != null && old(n.owner) != p;
      }
    }

    /** Another packet, and all that belongs to it, is as it was. */
    twostate lemma OtherStays(p: PacketState, new q: PacketState)
      requires old(Structured({p}))
      requires OnlyMoved(p) && q in InUse() && p !in InUse()
      ensures q.View() == old(q.View()) && q.Active() && q.packet in buffers && Nodes(q.chain) <= firsts + specs
    {
      hide PacketList.Valid, SpecPool.Valid, ListsPartition, FirstSpecsFixed, Chained;
      assert old(q.Active() && p.Linked());
      assert forall n :: n in Nodes(q.chain) ==> n !in old(freeAdditionalFragSpecs.members + Nodes(p.chain));
    }

    twostate lemma StructuredAgain(p: PacketState)
      requires old(Structured({p}))
      requires OnlyMoved(p) && p.Linked() && PoolApart(freeAdditionalFragSpecs, p)
      requires freeAdditionalFragSpecs.Valid() && ListsPartition({p})
      ensures Structured({p})
      ensures Views(currentPackets.nodes) == old(Views(currentPackets.nodes))
      ensures Views(lockedPackets.nodes) == old(Views(lockedPackets.nodes))
    {
      hide PacketList.Valid, SpecPool.Valid, ListsPartition, Views, Footprints, Chained, SpecsPartitioned,
            PacketState.View, PacketState.Active;
      NotInUse(p);
      FirstSpecsStay(p);
      SpecsStayPartitioned(p);
      forall q | q in InUse()
        ensures q.View() == old(q.View()) && q.Active() && q.packet in buffers && Nodes(q.chain) <= firsts + specs
      {
        OtherStays(p, q);
      }
      SameViews(currentPackets.nodes);
      SameViews(lockedPackets.nodes);
    }

    lemma NotInUse(p: PacketState)
      requires ListsPartition({p})
      ensures p !in InUse() && p in packets
      ensures forall q :: q in currentPackets.nodes || q in lockedPackets.nodes ==> q in InUse()
      ensures InUse() <= packets
    {
      hide PacketList.Valid;
    }

    /** Gives the additional specs of a packet state, which is on no list, back to the pool. */
    method DestroyFragSpecsOfPacket(p: PacketState)
      requires Structured({p})
      modifies freeAdditionalFragSpecs, p`chain
      modifies Nodes(p.chain)`next, Nodes(p.chain)`owner, freeAdditionalFragSpecs.members`owner
      ensures Structured({p}) && p.chain == [p.firstFragSpec]
      ensures Abs() == old(Abs()).(freeSpecs := old(Abs()).freeSpecs + (|old(p.chain)| - 1))
    {
      hide PacketList.Valid, SpecPool.Valid, PacketState.View, Views, Footprints, Chained, Structured,
            ListsPartition, Nodes;
      OthersApart(p);
      freeAdditionalFragSpecs.TakeBackAfter(p.firstFragSpec, p.chain, 0);
      Settle(freeAdditionalFragSpecs, p, p.chain[..1]);
      StructuredAgain(p);
    }

    /** Puts the loose packet state in front of the free ones. */
    method PushFree(p: PacketState)
      requires Structured({p}) && p.chain == [p.firstFragSpec]
      modifies freePackets, p`next
      ensures Structured({})
      ensures Abs() == old(Abs()).(freePackets := old(Abs()).freePackets + 1)
    {
      hide PacketList.Valid, SpecPool.Valid, PacketState.View, PacketState.Active, Views, Footprints, Nodes;
      hide AllActive, Partition, SpecsPartitioned;
      PartitionIn(currentPackets.members, lockedPackets.members, freePackets.members, packets, p);
      SpecsReleased(InUse(), p, freeAdditionalFragSpecs, specs);
      freePackets.PushFront(p);
      SameViews(currentPackets.nodes);
      SameViews(lockedPackets.nodes);
    }

    /** Frees a packet state, which is on no list, and all that belongs to it. */
    method DestroyDefragPacket(p: PacketState)
      requires Structured({p})
      modifies freePackets, freeAdditionalFragSpecs, p`next, p`packet, p`chain, specs, firsts
      ensures Structured({})
      ensures Abs() == old(Abs()).(freePackets := old(Abs()).freePackets + 1,
                                   freeSpecs := old(Abs()).freeSpecs + (|old(p.chain)| - 1))
    {
      hide Structured, PacketState.View, Views, Footprints, Nodes, ListsPartition;
      OthersApart(p);
      NotInUse(p);
      NodesKnown(p);
      p.packet := null;
      SameViews(currentPackets.nodes);
      SameViews(lockedPackets.nodes);
      DestroyFragSpecsOfPacket(p);
      PushFree(p);
    }

    // -- a fragment arrives ---------------------------------------------------------

    /** Stores a fragment in a packet that is on no list. */
    method Accept(p: PacketState, off: nat, rest: seq<byte>) returns (ok: bool)
      requires Working(p) && PacketOk(p.View()) && off < 0x800
      modifies freeAdditionalFragSpecs, specs, firsts, p`chain, p`writes, p.packet`header, p.packet`payload
      ensures Working(p)
      ensures Took(old(p.View()), off, rest, old(Abs()).freeSpecs, ok, p.View(), Abs().freeSpecs)
      ensures Abs() == old(Abs()).(freeSpecs := Abs().freeSpecs)
      ensures Abs().freeSpecs + |p.chain| == old(Abs().freeSpecs + |p.chain|)
    {
      hide Structured, PacketState.View, Views, Footprints, ListsPartition, PacketOk, Took, PoolApart, Nodes;
      OthersApart(p);
      NotInUse(p);
      NodesKnown(p);
      ok := AcceptFragment(freeAdditionalFragSpecs, p, off, rest);
      StructuredAgain(p);
    }

    lemma NodesKnown(p: PacketState)
      requires Structured({p})
      ensures Nodes(p.chain) <= firsts + specs && freeAdditionalFragSpecs.members <= specs
    {
    }

    /** Takes the packet out of its state, to hand it over. */
    method TakePacket(p: PacketState) returns (r: Ipv6Packet)
      requires Working(p)
      modifies p`packet, p.packet`holder, `buffers
      ensures r == old(p.packet) && r.holder == null && r.Bytes() == old(r.Bytes())
      ensures Structured({p}) && Abs() == old(Abs())
      ensures unchanged(p`chain)
    {
      hide PacketState.View, Views, Footprints, ListsPartition, Chained, Nodes, SpecPool.Valid, SpecsPartitioned,
            FirstSpecsFixed;
      NotInUse(p);
      r := p.packet;
      p.packet := null;
      r.holder := null;
      buffers := buffers - {r};
      SameViews(currentPackets.nodes);
      SameViews(lockedPackets.nodes);
    }

    lemma WorkingParts(p: PacketState)
      requires Working(p)
      ensures Structured({p}) && p.packet != null && Shaped(p.View()) && p.View().total == p.totalSize
      ensures |p.chain| > 0 && p.View().specs[0] == p.firstFragSpec.Extent() && |p.View().specs| == |p.chain|
      ensures p.View().bytes == p.packet.Bytes()
    {
    }

    /** Hands a packet over if it is complete, puts it back on the list of current packets if
        it is not, and frees its state if it is complete or no use. */
    method Conclude(p: PacketState, ok: bool, size: nat) returns (r: Ipv6Packet?)
      requires Working(p) && size == p.totalSize
      modifies currentPackets, freePackets, freeAdditionalFragSpecs
      modifies specs, firsts, p, p.packet`holder, `buffers
      ensures Structured({})
      ensures var s, v := old(Abs()), old(p.View());
              |v.specs| > 0 &&
              if !ok || v.specs[0] == Range(0, size) then
                Abs() == s.(freePackets := s.freePackets + 1, freeSpecs := s.freeSpecs + (|v.specs| - 1))
              else
                Abs() == s.(current := [v] + s.current)
      ensures if ok && old(p.View()).specs[0] == Range(0, size)
              then r == old(p.packet) && r != null && r.holder == null && r.Bytes() == old(p.View()).bytes
              else r == null
    {
      hide Structured, Working, PacketState.View, Views, Footprints, ListsPartition, Nodes, PacketState.Active,
            SpecPool.Valid;
      r := null;
      WorkingParts(p);
      if !ok {
        DestroyDefragPacket(p);
      } else if p.firstFragSpec.offset == 0 && p.firstFragSpec.size == size {
        r := TakePacket(p);
        DestroyDefragPacket(p);
      } else {
        PushCurrent(p);
      }
    }

    /** The bytes of a frame's payload past its headers. */
    static function PastHeaders(payload: seq<byte>, nextOffset: nat): seq<byte> {
      if nextOffset < |payload| then payload[nextOffset..] else []
    }

    /** Stores a frame's fragment in p, which was locked packet i of state s. */
    method PassToUnlocked(payload: seq<byte>, nextOffset: nat, frag: FragHeader, p: PacketState, ghost s: State,
          ghost i: nat)
      returns (r: Ipv6Packet?)
      requires Working(p) && frag.size == p.totalSize && FitsFragFields(frag)
      requires StateOk(s) && i < |s.locked| && s.locked[i] == p.View() && Abs() == s.(locked := Without(s.locked, i))
      modifies currentPackets, freePackets, freeAdditionalFragSpecs, specs, firsts, p, p.packet, `buffers
      ensures Structured({})
      ensures AllShaped(s) && Pass(s, i, frag.offset, PastHeaders(payload, nextOffset))
                              == (Abs(), if r == null then None else Some(r.Bytes()))
      ensures r != null ==> r == old(p.packet) && r.holder == null
    {
      hide Structured, Working, PacketState.View, Views, Footprints, ListsPartition, PacketOk, Took, Nodes,
            PacketState.Active, SpecPool.Valid;
      hide ReassemblyModel.Accept, Pass, PacketList.Valid, StateOk, AllShaped, Without, Ipv6Packet.Bytes;
      ghost var view := p.View();
      LockedOk(s, i);
      WorkingParts(p);
      var ok := false;
      if nextOffset < |payload| {
        ok := Accept(p, frag.offset, payload[nextOffset..]);
        WorkingParts(p);
      } else {
        TookNothing(view, frag.offset, s.freeSpecs);
      }
      ghost var next, free := p.View(), Abs().freeSpecs;
      r := Conclude(p, ok, frag.size);
      ConcludedIsPass(s, i, frag.offset, PastHeaders(payload, nextOffset), ok, next, free, Abs(),
                      if r == null then None else Some(r.Bytes()));
    }

    /** Passes a frame with a fragment of the locked packet p: returns the packet if it is
        complete now.  The frame must be the one that p was locked for. */
    method PassFrameWithIpv6PacketFragment(payload: seq<byte>, nextOffset: nat, frag: FragHeader, p: PacketState)
      returns (r: Ipv6Packet?, ghost i: nat)
      requires Valid() && FitsFragFields(frag)
      requires p in lockedPackets.members ==> frag.size == p.totalSize
      modifies currentPackets, lockedPackets, freePackets, freeAdditionalFragSpecs, lockedPackets.members`next
      modifies specs, firsts, p, p.packet, `buffers
      ensures Valid()
      ensures if i < |old(lockedPackets.nodes)| then p == old(lockedPackets.nodes)[i]
              else i == |old(lockedPackets.nodes)| && p !in old(lockedPackets.members)
      ensures Step(old(Abs()), PassEvent(i, frag.offset, PastHeaders(payload, nextOffset)))
              == (Abs(), if r == null then None else Some(r.Bytes()))
      ensures r != null ==> r == old(p.packet) && r.holder == null
    {
      hide Structured, Working, PacketState.View, Views, Footprints, ListsPartition, PacketOk, Nodes,
            PacketState.Active;
      hide SpecPool.Valid, Pass, PacketList.Valid, StateOk, AllShaped, Ipv6Packet.Bytes;
      ghost var was := Abs();
      ListsValid();
      r := null;
      i := |lockedPackets.nodes|;
      var found: bool;
      ghost var k: nat;
      found, k := UnlockDefragPacket(p);
      if found {
        i := k;
        WorkingParts(p);
        r := PassToUnlocked(payload, nextOffset, frag, p, was, i);
      } else {
        PassNowhere(was, i, frag.offset, PastHeaders(payload, nextOffset));
      }
      PassConserves(was, i, frag.offset, PastHeaders(payload, nextOffset));
    }

    /** Puts a locked packet back on the list of current ones. */
    method UnlockPacket(p: PacketState) returns (ok: bool, ghost i: nat)
      requires Valid()
      modifies currentPackets, lockedPackets, lockedPackets.members`next, p`next
      ensures Valid()
      ensures ok <==> p in old(lockedPackets.members)
      ensures if ok then i < |old(lockedPackets.nodes)| && p == old(lockedPackets.nodes)[i]
              else i == |old(lockedPackets.nodes)|
      ensures Step(old(Abs()), UnlockEvent(i)) == (Abs(), None)
    {
      hide Structured, Working, PacketState.View, Views, Footprints, ListsPartition, PacketOk, Nodes,
            PacketState.Active;
      hide SpecPool.Valid, PacketList.Valid, StateOk, Without;
      ghost var was := Abs();
      ListsValid();
      i := |lockedPackets.nodes|;
      ghost var k: nat;
      ok, k := UnlockDefragPacket(p);
      if ok {
        i := k;
        PushCurrent(p);
      }
      StepConserves(was, UnlockEvent(i));
    }

    /** Takes current packet x, which follows prev, off its list and frees it. */
    method Drop(prev: PacketState?, x: PacketState, ghost k: nat)
      requires Structured({}) && currentPackets.At(prev, x, k) && AllShaped(Abs())
      modifies currentPackets, freePackets, freeAdditionalFragSpecs, specs, firsts
      modifies currentPackets.members`next, x`next, x`packet, x`chain
      ensures Structured({}) && k < |old(Abs()).current| && AllShaped(old(Abs()))
      ensures Abs() == Freed(old(Abs()), k)
      ensures |currentPackets.nodes| == |old(currentPackets.nodes)| - 1
      ensures k > 0 ==> currentPackets.nodes[k - 1] == old(currentPackets.nodes)[k - 1]
      ensures k < |currentPackets.nodes| ==> currentPackets.nodes[k] == old(currentPackets.nodes)[k + 1]
    {
      hide Structured, Working, PacketState.View, Views, Footprints, ListsPartition, Nodes, PacketState.Active;
      hide SpecPool.Valid, PacketList.Valid, Without;
      WithoutAt(currentPackets.nodes, k);
      UnlinkCurrent(prev, x, k);
      WorkingParts(x);
      DestroyDefragPacket(x);
    }

    /** Frees the current packets that have timed out, unless a packet is locked. */
    method PeriodicTimeout(now: uint32, limit: uint32) returns (ok: bool)
      requires Valid()
      modifies currentPackets, freePackets, freeAdditionalFragSpecs, specs, firsts, packets
      ensures Valid()
      ensures ok <==> |old(Abs()).locked| == 0
      ensures Step(old(Abs()), TimeoutEvent(now, limit)) == (Abs(), None)
    {
      hide Structured, Working, PacketState.View, Views, Footprints, ListsPartition, PacketOk, Nodes,
            PacketState.Active;
      hide SpecPool.Valid, PacketList.Valid, StateOk, Without, Young, ExtraSum, Sifting, Freed, Age, Timeout,
            AllShaped, Abs;
      ghost var was := Abs();
      ListsValid();
      if lockedPackets.first != null {
        LockedForbids(was);
        return false;
      }
      var prev: PacketState? := null;
      var curr := currentPackets.first;
      ghost var k := 0;
      SiftBegins(was, now, limit);
      currentPackets.Links();
      while curr != null
        invariant Structured({}) && StateOk(Abs())
        invariant k <= |currentPackets.nodes|
        invariant curr == if k < |currentPackets.nodes| then currentPackets.nodes[k] else null
        invariant prev == if k > 0 then currentPackets.nodes[k - 1] else null
        invariant Sifting(was, Abs(), k, now, limit)
        decreases |currentPackets.nodes| - k
      {
        CurrentAt(k);
        CurrentAge(k, now);
        ghost var s := Abs();
        var next := curr.next;
        var dt := (now - curr.defragStartTime) % 0x1_0000_0000;
        if dt < limit {
          SiftKept(was, s, k, now, limit);
          prev := curr;
          k := k + 1;
        } else {
          SiftDropped(was, s, k, now, limit);
          Drop(prev, curr, k);
        }
        curr := next;
      }
      ListsValid();
      SiftEnds(was, Abs(), now, limit);
      return true;
    }

    lemma {:induction false} CurrentAge(k: nat, now: uint32)
      requires Structured({}) && StateOk(Abs()) && k < |currentPackets.nodes|
      ensures k < |Abs().current|
              && Age(Abs().current[k], now) == (now - currentPackets.nodes[k].defragStartTime) % 0x1_0000_0000
    {
      hide Structured, StateOk, Views;
      assert Abs().current[k] == currentPackets.nodes[k].View();
    }

    lemma {:induction false} CurrentAt(k: nat)
      requires Structured({}) && StateOk(Abs()) && k < |currentPackets.nodes|
      ensures var x := currentPackets.nodes[k];
              && x in packets
              && x.next == (if k + 1 < |currentPackets.nodes| then currentPackets.nodes[k + 1] else null)
              && k < |Abs().current| == |currentPackets.nodes|
              && x.defragStartTime == Abs().current[k].start
      ensures AllShaped(Abs()) && currentPackets.members <= packets
    {
      hide PacketState.Active, SpecPool.Valid, Views, AllActive, AllLinked, SpecsPartitioned, FirstSpecsFixed,
            Truthful, EndsBy;
      NotLoose();
      currentPackets.Links();
      assert Abs().current[k] == currentPackets.nodes[k].View();
    }

    lemma NotLoose()
      requires ListsPartition({})
      ensures currentPackets.members <= packets && forall q :: q in currentPackets.nodes ==> q in packets
    {
      hide PacketList.Valid;
    }

    /** Frees all packets under reassembly, unless one is locked. */
    method TerminateAllReassemblies() returns (ok: bool)
      requires Valid()
      modifies currentPackets, freePackets, freeAdditionalFragSpecs, specs, firsts, packets
      ensures Valid()
      ensures ok <==> |old(Abs()).locked| == 0
      ensures Step(old(Abs()), TerminateEvent) == (Abs(), None)
    {
      hide Structured, Working, PacketState.View, Views, Footprints, ListsPartition, PacketOk, Nodes,
            PacketState.Active;
      hide SpecPool.Valid, PacketList.Valid, Without, Terminate, Freed, PacketCount, SpecCount, StateOk, AllShaped, Abs;
      ghost var was := Abs();
      ListsValid();
      if lockedPackets.first != null {
        LockedForbids(was);
        return false;
      }
      while currentPackets.first != null
        invariant Structured({}) && StateOk(Abs()) && currentPackets.Valid()
        invariant Abs().locked == [] && |Abs().current| == |currentPackets.nodes|
        invariant PacketCount(Abs()) == PacketCount(was) && SpecCount(Abs()) == SpecCount(was)
        decreases |currentPackets.nodes|
      {
        CurrentAt(0);
        currentPackets.Links();
        FreedConserves(Abs(), 0);
        Drop(null, currentPackets.first, 0);
        ListsValid();
      }
      ListsValid();
      Emptied(was, Abs());
      StepConserves(was, TerminateEvent);
      return true;
    }

    // -- a packet is found or allocated ---------------------------------------------

    /** As Structured({x}), but x, which was free, has no chain yet. */
    ghost predicate Unclaimed(x: PacketState)
      reads `buffers, currentPackets, lockedPackets, freePackets, freeAdditionalFragSpecs
      reads currentPackets.nodes`next, lockedPackets.nodes`next, freePackets.nodes`next
      reads freeAdditionalFragSpecs.nodes`next, specs`owner, specs`next, firsts`owner, firsts`next, buffers
      reads InUse()`packet, InUse()`totalSize, InUse()`chain
    {
      && ListsPartition({x})
      && freeAdditionalFragSpecs.Valid()
      && FirstSpecsFixed(packets, firsts, specs)
      && SpecsPartitioned(InUse(), freeAdditionalFragSpecs, specs)
      && AllActive(InUse(), firsts + specs, buffers)
    }

    /** Takes a packet state from the list of free ones. */
    method PopFree() returns (x: PacketState)
      requires Structured({}) && freePackets.first != null
      modifies freePackets
      ensures x == old(freePackets.first) && x in packets && x in old(freePackets.members) && Unclaimed(x)
      ensures old(Abs()).freePackets > 0 && Abs() == old(Abs()).(freePackets := old(Abs()).freePackets - 1)
    {
      hide SpecPool.Valid, PacketState.View, Views, Footprints, PacketList.Valid, Partition, SpecsPartitioned,
            AllActive, FirstSpecsFixed, Nodes;
      ListsValid();
      x := freePackets.first;
      assert x in freePackets.members by {
        freePackets.Links();
      }
      PartitionOut(currentPackets.members, lockedPackets.members, freePackets.members, packets, x);
      assert InUse() + {} == InUse();
      var _ := freePackets.PopFront();
      NotInUse(x);
      SameViews(currentPackets.nodes);
      SameViews(lockedPackets.nodes);
    }

    lemma FirstNotInUse(x: PacketState)
      requires Unclaimed(x)
      ensures forall q :: q in InUse() ==> x.firstFragSpec !in Nodes(q.chain)
      ensures x.firstFragSpec in firsts && x.firstFragSpec !in specs
              && x.firstFragSpec !in freeAdditionalFragSpecs.members
      ensures x.firstFragSpec.owner == x && x !in InUse()
    {
      hide SpecPool.Valid, PacketList.Valid;
      NotInUse(x);
    }

    /** Starts the chain of a packet state that was free. */
    method ResetChain(x: PacketState)
      requires Unclaimed(x)
      modifies x`chain, x`writes, x.firstFragSpec`offset, x.firstFragSpec`size, x.firstFragSpec`next
      ensures Structured({x}) && Abs() == old(Abs())
      ensures x.chain == [x.firstFragSpec] && Ranges(x.chain) == [Range(0, 0)] && x.writes == []
    {
      hide SpecPool.Valid, PacketList.Valid, Partition, Views, Footprints, SpecsPartitioned, ListsPartition;
      hide PacketState.Active, PacketState.View, Nodes, Chained;
      FirstNotInUse(x);
      NotInUse(x);
      InNodes(freeAdditionalFragSpecs.nodes);
      x.Reset();
      forall q | q in InUse()
        ensures q.View() == old(q.View()) && q.Active()
      {
        InNodes(q.chain);
      }
      SingleIsLinked(x, firsts + specs);
      SpecsClaimed(InUse(), x, freeAdditionalFragSpecs, specs);
      SameViews(currentPackets.nodes);
      SameViews(lockedPackets.nodes);
    }

    lemma SingleIsLinked(x: PacketState, nodes: set<FragSpec>)
      requires x.chain == [x.firstFragSpec] && x.firstFragSpec.next == null && x.firstFragSpec.owner == x
      requires x.firstFragSpec in nodes
      ensures AllLinked({x}, nodes)
    {
    }

    /** Gives the packet bytes of a loose packet state a record of where they are in use. */
    ghost method Hold(x: PacketState, room: Ipv6Packet)
      requires Structured({x}) && x.packet == room && room.Valid() && room.holder == null
      requires x.totalSize == IPV6_HEADER_LENGTH + |room.payload|
      modifies `buffers, room`holder
      ensures Working(x) && Abs() == old(Abs())
    {
      hide SpecPool.Valid, PacketList.Valid, ListsPartition, Views, Footprints, SpecsPartitioned, FirstSpecsFixed;
      hide PacketState.View, Chained, Nodes, Partition, PacketState.Footprint;
      NotInUse(x);
      room.holder := x;
      buffers := buffers + {room};
      SameViews(currentPackets.nodes);
      SameViews(lockedPackets.nodes);
    }

    static ghost function BytesOf(room: Ipv6Packet?): Option<seq<byte>>
      reads room
    {
      if room == null then None else Some(room.Bytes())
    }

    /** Starts a new packet in a packet state that was free. */
    method Occupy(x: PacketState, key: Key, total: nat, now: uint32, room: Ipv6Packet)
      requires Unclaimed(x) && x in packets
      requires room.Valid() && room.holder == null && total == IPV6_HEADER_LENGTH + |room.payload|
      modifies x, x.firstFragSpec`offset, x.firstFragSpec`size, x.firstFragSpec`next, `buffers, room`holder
      ensures Working(x) && Abs() == old(Abs())
      ensures x.View() == NewPacket(key, total, now, old(room.Bytes())) && x.packet == room
    {
      hide PacketState.View, Views, Footprints, ListsPartition, Nodes, PacketState.Active, SpecPool.Valid,
            PacketList.Valid;
      hide Ipv6Packet.Bytes, Structured, Unclaimed, Working;
      UnclaimedParts(x);
      x.totalSize := total;
      x.packet := room;
      x.key := key;
      x.defragStartTime := now;
      SameViews(currentPackets.nodes);
      SameViews(lockedPackets.nodes);
      ResetChain(x);
      Hold(x, room);
      NewView(x);
    }

    lemma UnclaimedParts(x: PacketState)
      requires Unclaimed(x)
      ensures ListsPartition({x}) && x !in InUse() && x.firstFragSpec in firsts
      ensures forall q :: q in currentPackets.nodes || q in lockedPackets.nodes ==> q in InUse()
    {
      hide PacketList.Valid, SpecPool.Valid;
      NotInUse(x);
    }

    lemma NewView(x: PacketState)
      requires x.packet != null && Ranges(x.chain) == [Range(0, 0)] && x.writes == []
      ensures x.View() == NewPacket(x.key, x.totalSize, x.defragStartTime, x.packet.Bytes())
    {
    }

    /** Locks a free packet state for a new packet; room is what the packet allocator returns. */
    method AllocateAndLock(key: Key, total: nat, now: uint32, room: Ipv6Packet?) returns (x: PacketState?)
      requires Structured({})
      requires room != null ==> room.Valid() && room.holder == null && total == IPV6_HEADER_LENGTH + |room.payload|
      modifies lockedPackets, freePackets, freePackets.members, firsts, `buffers, room
      ensures Structured({})
      ensures Allocate(old(Abs()), key, total, now, old(BytesOf(room))) == (Abs(), x != null)
      ensures x != null ==> |lockedPackets.nodes| > 0 && x == lockedPackets.nodes[0] && x.packet == room
    {
      hide Structured, Working, PacketState.View, Views, Footprints, ListsPartition, Nodes, PacketState.Active,
            SpecPool.Valid, PacketList.Valid;
      hide Ipv6Packet.Bytes, Unclaimed;
      ListsValid();
      if freePackets.first == null || room == null {
        return null;
      }
      x := PopFree();
      UnclaimedParts(x);
      Occupy(x, key, total, now, room);
      PushLocked(x);
    }

    /** Locks current packet x, which follows prev, or replaces it by a new packet if the size differs. */
    method LockOrReplace(prev: PacketState?, x: PacketState, ghost k: nat, key: Key, total: nat, now: uint32,
          room: Ipv6Packet?)
      returns (y: PacketState?)
      requires Structured({}) && currentPackets.At(prev, x, k) && StateOk(Abs())
      requires room != null ==> room.Valid() && room.holder == null && total == IPV6_HEADER_LENGTH + |room.payload|
      modifies currentPackets, lockedPackets, freePackets, freeAdditionalFragSpecs, specs, firsts, packets, `buffers,
            room
      ensures Structured({})
      ensures k < |old(Abs()).current| && AllShaped(old(Abs()))
      ensures TakeOrReplace(old(Abs()), k, key, total, now, old(BytesOf(room))) == (Abs(), y != null)
      ensures y != null ==> |lockedPackets.nodes| > 0 && y == lockedPackets.nodes[0]
    {
      hide Structured, Working, PacketState.View, Views, Footprints, ListsPartition, Nodes, PacketState.Active,
            SpecPool.Valid, PacketList.Valid;
      hide Ipv6Packet.Bytes, StateOk, AllShaped, Allocate, Without, TakeOrReplace, Freed;
      CurrentAt(k);
      ghost var was := Abs();
      TakeOrReplaceIs(was, k, key, total, now, BytesOf(room));
      UnlinkCurrent(prev, x, k);
      WorkingParts(x);
      if x.totalSize != total {
        DestroyDefragPacket(x);
        assert Abs() == Freed(was, k);
        KnownStates();
        y := AllocateAndLock(key, total, now, room);
      } else {
        PushLocked(x);
        y := x;
      }
    }

    lemma KnownStates()
      requires Structured({})
      ensures freePackets.members <= packets
    {
      hide PacketList.Valid, SpecPool.Valid;
    }

    lemma FoundAt(key: Key, k: nat)
      requires Structured({}) && k <= |currentPackets.nodes|
      requires forall i :: 0 <= i < k ==> currentPackets.nodes[i].key != key
      requires k < |currentPackets.nodes| ==> currentPackets.nodes[k].key == key
      ensures IndexOf(Abs().current, key) == k
    {
      hide Structured, IndexOf;
      var vs := Views(currentPackets.nodes);
      forall i | 0 <= i < |vs|
        ensures vs[i].key == currentPackets.nodes[i].key
      {
      }
    }

    /** Searches the current packets for the key, and locks the packet found or else a new one. */
    method FindKey(key: Key, total: nat, now: uint32, room: Ipv6Packet?) returns (x: PacketState?)
      requires Valid() && IPV6_HEADER_LENGTH <= total < 0x800
      requires room != null ==> room.Valid() && room.holder == null && total == IPV6_HEADER_LENGTH + |room.payload|
      modifies currentPackets, lockedPackets, freePackets, freeAdditionalFragSpecs, specs, firsts, packets, `buffers,
            room
      ensures Valid() && AllShaped(old(Abs()))
      ensures Find(old(Abs()), key, total, now, old(BytesOf(room))) == (Abs(), x != null)
      ensures x != null ==> |lockedPackets.nodes| > 0 && x == lockedPackets.nodes[0]
    {
      hide Structured, Working, PacketState.View, Views, Footprints, ListsPartition, Nodes, PacketState.Active,
            SpecPool.Valid, PacketList.Valid;
      hide StateOk, Allocate, Freed, PacketOk, IndexOf, Without;
      ghost var was, bytes := Abs(), BytesOf(room);
      StateShaped(was);
      KnownStates();
      FindConserves(was, key, total, now, bytes);
      ListsValid();
      currentPackets.Links();
      var prev: PacketState? := null;
      x := currentPackets.first;
      ghost var k := 0;
      while x != null && x.key != key
        invariant 0 <= k <= |currentPackets.nodes|
        invariant x == if k < |currentPackets.nodes| then currentPackets.nodes[k] else null
        invariant prev == if k > 0 then currentPackets.nodes[k - 1] else null
        invariant forall i :: 0 <= i < k ==> currentPackets.nodes[i].key != key
        decreases |currentPackets.nodes| - k
      {
        assert x == currentPackets.nodes[k];
        prev := x;
        x := x.next;
        k := k + 1;
      }
      FoundAt(key, k);
      if x == null {
        x := AllocateAndLock(key, total, now, room);
      } else {
        x := LockOrReplace(prev, x, k, key, total, now, room);
      }
    }

    /** Locks the packet that a frame with a fragmentation header belongs to, or else a new one.  It has the
        tag, the addresses, the PAN, and the size that the frame says; the packets of other datagrams stay. */
    method FindExistingOrAllocateNewPacketAndLockIt(interPan: bool, h: Headers, pan: uint16, now: uint32,
          room: Ipv6Packet?)
      returns (x: PacketState?)
      requires Valid()
      requires h.hasFrag ==> FitsFragFields(h.frag)
      requires room != null && h.hasFrag ==>
                 room.Valid() && room.holder == null && h.frag.size == IPV6_HEADER_LENGTH + |room.payload|
      modifies currentPackets, lockedPackets, freePackets, freeAdditionalFragSpecs, specs, firsts, packets, `buffers,
            room
      ensures Valid()
      ensures interPan || !h.hasFrag ==> x == null && Abs() == old(Abs())
      ensures !interPan && h.hasFrag ==>
                AllShaped(old(Abs()))
                && Find(old(Abs()), KeyOf(h, pan), h.frag.size, now, old(BytesOf(room))) == (Abs(), x != null)
      ensures x != null ==> |lockedPackets.nodes| > 0 && x == lockedPackets.nodes[0]
      ensures x != null ==>
                && x.key.tag == h.frag.tag && x.key.src == h.mesh.src && x.key.dst == h.mesh.dst && x.key.pan == pan
                && x.totalSize == h.frag.size
      ensures var g := Datagram(h.frag.tag, h.mesh.src, h.mesh.dst, pan);
              Others(Abs().current, g) == Others(old(Abs()).current, g)
    {
      hide Structured, PacketState.View, StateOk, Find, Others, KeyOf, PacketState.Active, Nodes;
      if interPan || !h.hasFrag {
        return null;
      }
      ghost var was, bytes := Abs(), BytesOf(room);
      StateShaped(was);
      FoundForFrame(was, h, pan, now, bytes);
      if h.frag.size < IPV6_HEADER_LENGTH {
        FindTooShort(was, KeyOf(h, pan), h.frag.size, now, bytes);
        return null;
      }
      x := FindKey(KeyOf(h, pan), h.frag.size, now, room);
      if x != null {
        FirstLocked();
      }
    }

    static lemma FindTooShort(s: State, key: Key, total: nat, now: uint32, room: Option<seq<byte>>)
      requires AllShaped(s) && total < IPV6_HEADER_LENGTH
      ensures Find(s, key, total, now, room) == (s, false)
    {
    }

    lemma FirstLocked()
      requires |lockedPackets.nodes| > 0
      ensures var x, p := lockedPackets.nodes[0], Abs().locked[0]; p.key == x.key && p.total == x.totalSize
    {
    }

    /** Finding, for a frame whose mesh header fields are filled in. */
    static lemma FoundForFrame(s: State, h: Headers, pan: uint16, now: uint32, room: Option<seq<byte>>)
      requires AllShaped(s)
      ensures var g := Datagram(h.frag.tag, h.mesh.src, h.mesh.dst, pan);
              var (s1, found) := Find(s, KeyOf(h, pan), h.frag.size, now, room);
              && Others(s1.current, g) == Others(s.current, g)
              && (found ==> |s1.locked| > 0 && IsPacketOf(s1.locked[0], g) && s1.locked[0].total == h.frag.size)
    {
      hide Find, Others;
      FindLocks(s, h.(hasMesh := true), Link(NoAddr, NoAddr, pan, false), now, room);
    }
  }
}
