/**
 The structures of uc6LoWPANDefragmentation.c as linked objects: the states of packets under
 reassembly, the chain of fragment specs of each, which starts with the spec embedded in it,
 and the pool of free specs.
 The methods relink and resize the specs in place; what a list of ranges comes to is
 computed by the functions of module FragmentSpecs.
 */
module SpecChains {
  import opened LowpanTypes
  import opened FragmentSpecs
  import opened Packets
  import opened ReassemblyModel

  class FragSpec {
    var offset: nat
    var size: nat
    var next: FragSpec?
    ghost var owner: PacketState?  // the packet state whose chain the spec is on, or null in the pool

    function Extent(): Range
      reads `offset, `size
    {
      Range(offset, size)
    }

    constructor ()
    {
      offset, size, next := 0, 0, null;
      owner := null;
    }
  }

  class PacketState {
    var next: PacketState?
    var packet: Ipv6Packet?
    var key: Key
    var totalSize: nat
    var defragStartTime: uint32
    const firstFragSpec: FragSpec
    ghost var chain: seq<FragSpec>  // the first spec and the additional ones
    ghost var writes: seq<Write>    // what was copied into the packet since it was allocated

    constructor (key: Key)
    {
      this.key := key;
      next, packet, totalSize, defragStartTime := null, null, 0, 0;
      firstFragSpec := new FragSpec();
      chain, writes := [], [];
    }

    /** Nothing received yet. */
    method Reset()
      modifies `chain, `writes, firstFragSpec`offset, firstFragSpec`size, firstFragSpec`next
      ensures chain == [firstFragSpec] && firstFragSpec.next == null && Ranges(chain) == [Range(0, 0)] && writes == []
    {
      firstFragSpec.offset := 0;
      firstFragSpec.size := 0;
      firstFragSpec.next := null;
      chain := [firstFragSpec];
      writes := [];
    }

    /** The packet under reassembly as a value. */
    ghost function View(): Packet
      reads `packet, `key, `totalSize, `defragStartTime, `chain, `writes
      reads packet, chain`offset, chain`size
    {
      Packet(key, totalSize, defragStartTime, if packet == null then [] else packet.Bytes(), Ranges(chain), writes)
    }

    /** What the view depends on beside the packet state itself. */
    ghost function Footprint(): set<object>
      reads `packet, `chain
    {
      Nodes(chain) + if packet == null then {} else {packet}
    }

    /** The chain is linked, and its specs are recorded as this packet's. */
    ghost predicate Linked()
      reads `chain, chain`next, chain`owner
    {
      && |chain| > 0 && chain[0] == firstFragSpec && Chained(chain)
      && (forall n :: n in Nodes(chain) ==> n.owner == this)
    }

    /** The structure of a packet that is on the list of current or locked packets. */
    ghost predicate Active()
      reads `packet, `totalSize, `chain, packet, chain`next, chain`owner
    {
      && packet != null && packet.Valid() && packet.holder == this
      && totalSize == IPV6_HEADER_LENGTH + |packet.payload|
      && Linked()
    }
  }

  /** The elements of an array, as its addresses: no two are the same. */
  ghost predicate NoRepeats<T>(s: seq<T>) {
    forall i, j :: 0 <= i < j < |s| ==> s[i] != s[j]
  }

  ghost function Nodes(s: seq<FragSpec>): set<FragSpec> {
    set n | n in s
  }

  /** The specs are linked in this order, ending in null, and no spec occurs twice. */
  ghost predicate Chained(s: seq<FragSpec>)
    reads s`next
  {
    && (forall i {:trigger s[i].next} :: 0 <= i < |s| ==> s[i].next == if i + 1 < |s| then s[i + 1] else null)
    && (forall i, j :: 0 <= i < j < |s| ==> s[i] != s[j])
  }

  lemma NodesSplit(s: seq<FragSpec>, m: nat)
    requires m <= |s|
    ensures Nodes(s) == Nodes(s[..m]) + Nodes(s[m..])
  {
    assert s == s[..m] + s[m..];
  }

  lemma DistinctSplit(s: seq<FragSpec>, m: nat)
    requires m <= |s| && Chained(s)
    ensures Nodes(s[..m]) !! Nodes(s[m..])
  {
  }

  lemma NodesWithoutNext(s: seq<FragSpec>, k: nat)
    requires k + 1 < |s| && Chained(s)
    ensures var s' := s[..k + 1] + s[k + 2..];
            Nodes(s') + {s[k + 1]} == Nodes(s) && s[k + 1] !in Nodes(s')
  {
    assert s == s[..k + 1] + [s[k + 1]] + s[k + 2..];
  }

  ghost function Ranges(s: seq<FragSpec>): (rs: seq<Range>)
    reads s`offset, s`size
    ensures |rs| == |s|
    ensures forall i :: 0 <= i < |s| ==> rs[i] == s[i].Extent()
  {
    if |s| == 0 then [] else [s[0].Extent()] + Ranges(s[1..])
  }

  /** The pool of free specs. */
  class SpecPool {
    var first: FragSpec?
    ghost var nodes: seq<FragSpec>
    ghost var members: set<FragSpec>

    ghost predicate Valid()
      reads this, nodes`next
      ensures Valid() ==> (first == null <==> |nodes| == 0) && members == Nodes(nodes)
    {
      && first == (if |nodes| == 0 then null else nodes[0])
      && Chained(nodes)
      && members == Nodes(nodes)
    }

    /** The pool of an array's specs, in order. */
    constructor FromArray(specs: seq<FragSpec>)
      requires NoRepeats(specs)
      modifies specs`next
      ensures Valid() && nodes == specs && members == Nodes(specs)
    {
      first := if |specs| > 0 then specs[0] else null;
      nodes := specs;
      members := Nodes(specs);
      new;
      for k := 0 to |specs|
        invariant nodes == specs && first == if |specs| > 0 then specs[0] else null
        invariant members == Nodes(specs)
        invariant forall i :: 0 <= i < k ==>
                    specs[i].next == if i + 1 < |specs| then specs[i + 1] else null
      {
        specs[k].next := if k + 1 < |specs| then specs[k + 1] else null;
      }
    }

    /** Takes a spec from the pool. */
    method Take() returns (x: FragSpec)
      requires Valid() && |nodes| > 0
      modifies this
      ensures Valid() && [x] + nodes == old(nodes)
      ensures x in old(members) && members == old(members) - {x}
    {
      x := first;
      assert x == nodes[0];
      first := x.next;
      nodes := nodes[1..];
      members := members - {x};
    }

    /** Gives the specs after s[k] back to the pool. */
    method TakeBackAfter(spec: FragSpec, ghost s: seq<FragSpec>, ghost k: nat)
      requires Valid() && Chained(s) && k < |s| && s[k] == spec && members !! Nodes(s)
      modifies this, Nodes(s)`next
      ensures Valid() && Chained(s[..k + 1])
      ensures nodes == s[k + 1..] + old(nodes)
      ensures members + Nodes(s[..k + 1]) == old(members) + Nodes(s) && members !! Nodes(s[..k + 1])
    {
      hide Chained;
      ghost var tail := s[k + 1..];
      var last := LastAfter(spec, s, k);
      DistinctSplit(s, k + 1);
      assert spec in Nodes(s) && Nodes(tail) <= Nodes(s);
      assert forall n :: n in nodes ==> n in members;
      if last != null {
        assert last == tail[|tail| - 1] && last in Nodes(tail);
        var head := CutAfter(spec, s, k);
        SetNextOfLast(last, first, tail);
        JoinChains(tail, nodes, first);
        first := head;
      } else {
        assert s[..k + 1] == s && tail + nodes == nodes;
      }
      assert members + Nodes(tail) == Nodes(tail + nodes);
      NodesSplit(s, k + 1);
      nodes := tail + nodes;
      members := members + Nodes(tail);
    }

    /** Gives the spec after s[k] back to the pool. */
    method TakeBackNext(spec: FragSpec, ghost s: seq<FragSpec>, ghost k: nat)
      requires Valid() && Chained(s) && k + 1 < |s| && s[k] == spec && members !! Nodes(s)
      modifies this, Nodes(s)`next
      ensures Valid() && Chained(s[..k + 1] + s[k + 2..])
      ensures nodes == [s[k + 1]] + old(nodes)
      ensures var s' := s[..k + 1] + s[k + 2..];
              members + Nodes(s') == old(members) + Nodes(s) && members !! Nodes(s')
    {
      var nextSpec := spec.next;
      assert nextSpec == s[k + 1];
      NodesWithoutNext(s, k);
      spec.next := nextSpec.next;
      nextSpec.next := first;
      first := nextSpec;
      nodes := [nextSpec] + nodes;
      members := members + {nextSpec};
    }
  }

  /** As Chained, but the last spec links to `end`. */
  ghost predicate ChainedTo(s: seq<FragSpec>, end: FragSpec?)
    reads s`next
  {
    && (forall i {:trigger s[i].next} :: 0 <= i < |s| ==> s[i].next == if i + 1 < |s| then s[i + 1] else end)
    && (forall i, j :: 0 <= i < j < |s| ==> s[i] != s[j])
  }

  lemma JoinChains(a: seq<FragSpec>, b: seq<FragSpec>, first: FragSpec?)
    requires first == if |b| > 0 then b[0] else null
    requires ChainedTo(a, first) && Chained(b) && Nodes(a) !! Nodes(b)
    ensures Chained(a + b)
  {
    forall i, j | 0 <= i < |a| && 0 <= j < |b|
      ensures a[i] != b[j]
    {
      assert a[i] in Nodes(a) && b[j] in Nodes(b);
    }
  }

  /** The last spec of the chain, if it is after s[k]. */
  method LastAfter(spec: FragSpec, ghost s: seq<FragSpec>, ghost k: nat) returns (last: FragSpec?)
    requires Chained(s) && k < |s| && s[k] == spec
    ensures if k + 1 < |s| then last == s[|s| - 1] else last == null
  {
    last := null;
    var curr := spec.next;
    ghost var i := k + 1;
    while curr != null
      invariant k < i <= |s|
      invariant curr == if i < |s| then s[i] else null
      invariant last == if i > k + 1 then s[i - 1] else null
      decreases |s| - i
    {
      assert curr == s[i];
      last := curr;
      curr := curr.next;
      i := i + 1;
    }
  }

  /** Ends the chain after s[k]. */
  method CutAfter(spec: FragSpec, ghost s: seq<FragSpec>, ghost k: nat) returns (head: FragSpec)
    requires Chained(s) && k + 1 < |s| && s[k] == spec
    modifies spec`next
    ensures head == s[k + 1] && Chained(s[..k + 1]) && Chained(s[k + 1..])
  {
    head := spec.next;
    spec.next := null;
  }

  method SetNextOfLast(last: FragSpec, end: FragSpec?, ghost s: seq<FragSpec>)
    requires Chained(s) && |s| > 0 && last == s[|s| - 1]
    modifies last`next
    ensures ChainedTo(s, end)
  {
    last.next := end;
  }

  /** Puts x, which is on no list, after s[k]. */
  method LinkAfter(spec: FragSpec, x: FragSpec, ghost s: seq<FragSpec>, ghost k: nat)
    requires Chained(s) && k < |s| && s[k] == spec && x !in s
    modifies spec`next, x`next
    ensures Chained(s[..k + 1] + [x] + s[k + 1..])
  {
    x.next := spec.next;
    spec.next := x;
  }

  /** Tries to join a range with a stored one: zero when they are joined now, positive when
      they overlap, negative when they are apart. */
  method ConcatenateNewFragSpecWithExistingOne(spec: FragSpec, off: nat, len: nat, identical: bool) returns (code: int)
    requires spec.offset + spec.size < 0x8000 && off + len < 0x8000 && len > 0
    modifies spec`offset, spec`size
    ensures var joint := Concatenate(old(spec.Extent()), Range(off, len), identical);
            && (code == 0 <==> joint.Merged? || joint.Kept?)
            && (code < 0 <==> joint.Apart?)
            && (code > 0 <==> joint.Clash?)
            && spec.Extent() == if joint.Merged? then joint.whole else old(spec.Extent())
    ensures spec.offset + spec.size < 0x8000 && spec.size >= old(spec.size)
  {
    var newStart := spec.offset;
    var sumSize := spec.size;
    var newEnd := newStart + sumSize;
    sumSize := sumSize + len;
    assert sumSize < 0x1_0000 && newEnd < 0x1_0000;
    var contained := true;
    if newStart > off {
      newStart := off;
      contained := false;
    }
    if newEnd < off + len {
      newEnd := off + len;
      contained := false;
    }
    var newSize := newEnd - newStart;
    if newSize == sumSize {
      spec.offset := newStart;
      spec.size := newSize;
      return 0;
    } else if newSize > sumSize {
      return -1;
    } else {
      return if contained && identical then 0 else 1;
    }
  }

  /** Specs that the 16-bit arithmetic can hold; only the first may be empty. */
  ghost predicate Sized(s: seq<FragSpec>)
    reads s`offset, s`size
  {
    forall i {:trigger s[i].Extent()} :: 0 <= i < |s| ==> s[i].offset + s[i].size < 0x8000 && (i > 0 ==> s[i].size > 0)
  }

  /** What a change of a chain leaves: a chain and a pool with the same specs between them. */
  twostate predicate Redistributed(pool: SpecPool, s: seq<FragSpec>, new s': seq<FragSpec>)
    reads pool, pool.nodes`next, s'`next
  {
    && pool.Valid() && Chained(s') && pool.members !! Nodes(s')
    && pool.members + Nodes(s') == old(pool.members) + Nodes(s)
    && |s'| > 0 && |s| > 0 && s'[0] == s[0]
  }

  /** Joins spec s[k] with the one after it, if there is one and they touch or overlap. */
  method TryToConcatenateFragSpecWithNextOnList(pool: SpecPool, spec: FragSpec, identical: bool,
                                                ghost s: seq<FragSpec>, ghost k: nat)
    returns (ghost s': seq<FragSpec>)
    requires pool.Valid() && Chained(s) && pool.members !! Nodes(s)
    requires k < |s| && s[k] == spec && Sized(s)
    modifies pool, Nodes(s)`next, spec`offset, spec`size
    ensures Redistributed(pool, s, s')
    ensures JoinNext(old(Ranges(s)), k, identical, |old(pool.nodes)|) == MergeResult(true, Ranges(s'), |pool.nodes|)
  {
    hide Chained, Ranges, JoinNext, Concatenate, Nodes;
    s' := s;
    ghost var rs := Ranges(s);
    NextOf(s, k);
    JoinNextAtEnd(rs, identical, |pool.nodes|);
    var nextSpec := spec.next;
    if nextSpec != null {
      assert rs[k] == spec.Extent() && rs[k + 1] == nextSpec.Extent();
      var code := ConcatenateNewFragSpecWithExistingOne(spec, nextSpec.offset, nextSpec.size, identical);
      assert Ranges(s) == rs[k := spec.Extent()];
      RangesSlices(s, k);
      JoinNextShape(rs, k, identical, |pool.nodes|, spec.Extent());
      if code == 0 {
        pool.TakeBackNext(spec, s, k);
        s' := s[..k + 1] + s[k + 2..];
      } else if code > 0 {
        pool.TakeBackAfter(spec, s, k);
        s' := s[..k + 1];
      }
    }
  }

  lemma JoinNextAtEnd(rs: seq<Range>, identical: bool, free: nat)
    requires |rs| > 0
    ensures JoinNext(rs, |rs| - 1, identical, free) == MergeResult(true, rs, free)
  {
  }

  lemma JoinNextShape(rs: seq<Range>, k: nat, identical: bool, free: nat, extent: Range)
    requires k + 1 < |rs|
    requires var joint := Concatenate(rs[k], rs[k + 1], identical); extent == if joint.Merged? then joint.whole else rs[k]
    ensures var grown := rs[k := extent];
            JoinNext(rs, k, identical, free) ==
            match Concatenate(rs[k], rs[k + 1], identical)
            case Apart => MergeResult(true, grown, free)
            case Clash => MergeResult(true, grown[..k + 1], free + (|rs| - (k + 1)))
            case _ => MergeResult(true, grown[..k + 1] + grown[k + 2..], free + 1)
  {
    hide Concatenate;
    var grown := rs[k := extent];
    assert grown[..k + 1] == rs[..k] + [extent] && grown[k + 2..] == rs[k + 2..];
    if extent == rs[k] {
      assert grown == rs;
    }
  }

  lemma RangesSlices(s: seq<FragSpec>, k: nat)
    requires k + 1 < |s|
    ensures Ranges(s[..k + 1]) == Ranges(s)[..k + 1]
    ensures Ranges(s[..k + 1] + s[k + 2..]) == Ranges(s)[..k + 1] + Ranges(s)[k + 2..]
  {
    hide Ranges;
    var rs := Ranges(s);
    ExtentsAre(s[..k + 1], rs[..k + 1]);
    ExtentsAre(s[..k + 1] + s[k + 2..], rs[..k + 1] + rs[k + 2..]);
  }

  lemma ExtentsAre(s: seq<FragSpec>, rs: seq<Range>)
    requires |rs| == |s| && forall i :: 0 <= i < |s| ==> rs[i] == s[i].Extent()
    ensures Ranges(s) == rs
  {
    hide Ranges;
  }

  lemma NextOf(s: seq<FragSpec>, k: nat)
    requires Chained(s) && k < |s|
    ensures s[k].next == if k + 1 < |s| then s[k + 1] else null
    ensures forall i :: 0 <= i < |s| && i != k ==> s[i] != s[k]
    ensures s[k] in Nodes(s)
  {
  }

  /** Takes a spec from the pool for the range and puts it after s[k]; fails when the pool is empty. */
  method AddAfter(pool: SpecPool, spec: FragSpec, off: nat, len: nat, ghost s: seq<FragSpec>, ghost k: nat)
    returns (ok: bool, ghost s': seq<FragSpec>)
    requires pool.Valid() && Chained(s) && pool.members !! Nodes(s)
    requires k < |s| && s[k] == spec
    modifies pool, pool.members`next, pool.members`offset, pool.members`size, spec`next
    ensures ok <==> |old(pool.nodes)| > 0
    ensures Redistributed(pool, s, s')
    ensures ok ==> |pool.nodes| == |old(pool.nodes)| - 1
                   && Ranges(s') == old(Ranges(s))[..k + 1] + [Range(off, len)] + old(Ranges(s))[k + 1..]
    ensures !ok ==> s' == s && pool.nodes == old(pool.nodes)
  {
    hide Chained, Ranges, Nodes;
    s' := s;
    if pool.first == null {
      return false, s;
    }
    ghost var rs := Ranges(s);
    var x := pool.Take();
    InNodes(s);
    InNodes(pool.nodes);
    LinkAfter(spec, x, s, k);
    x.offset := off;
    x.size := len;
    s' := s[..k + 1] + [x] + s[k + 1..];
    NodesWith(s, k, x);
    assert Ranges(s) == rs;
    RangesWith(s, k, x);
    return true, s';
  }

  lemma {:induction false} RangesJoin(a: seq<FragSpec>, b: seq<FragSpec>)
    ensures Ranges(a + b) == Ranges(a) + Ranges(b)
  {
    if |a| == 0 {
      assert a + b == b;
    } else {
      assert (a + b)[1..] == a[1..] + b;
      RangesJoin(a[1..], b);
    }
  }

  lemma RangesWith(s: seq<FragSpec>, k: nat, x: FragSpec)
    requires k < |s|
    ensures Ranges(s[..k + 1] + [x] + s[k + 1..]) == Ranges(s)[..k + 1] + [x.Extent()] + Ranges(s)[k + 1..]
  {
    var a, b := s[..k + 1], s[k + 1..];
    assert s == a + b;
    RangesJoin(a, b);
    RangesJoin(a + [x], b);
    RangesJoin(a, [x]);
    hide Ranges;
    assert Ranges([x]) == [x.Extent()];
  }

  lemma InNodes(s: seq<FragSpec>)
    ensures forall i :: 0 <= i < |s| ==> s[i] in Nodes(s)
  {
  }

  lemma NodesWith(s: seq<FragSpec>, k: nat, x: FragSpec)
    requires k < |s|
    ensures Nodes(s[..k + 1] + [x] + s[k + 1..]) == Nodes(s) + {x}
  {
    assert s == s[..k + 1] + s[k + 1..];
  }

  /** Resizes spec s[k] over a range, then tries the spec after it; `code` is what concatenation returned. */
  lemma ResizedAt(s: seq<FragSpec>, k: nat, rs: seq<Range>)
    requires Chained(s) && k < |s| && |rs| == |s|
    requires forall i :: 0 <= i < |s| && i != k ==> s[i].Extent() == rs[i]
    ensures Ranges(s) == rs[k := s[k].Extent()]
  {
  }

  /** A fragment at offset 0. */
  method MergeFirstFragSpec(pool: SpecPool, first: FragSpec, len: nat, identical: bool, ghost s: seq<FragSpec>)
    returns (ghost s': seq<FragSpec>)
    requires pool.Valid() && Chained(s) && pool.members !! Nodes(s)
    requires |s| > 0 && s[0] == first && Sized(s) && 0 < len < 0x8000
    modifies pool, Nodes(s)`next, first`offset, first`size
    ensures Redistributed(pool, s, s')
    ensures MergeFirst(old(Ranges(s)), Range(0, len), identical, |old(pool.nodes)|)
            == MergeResult(true, Ranges(s'), |pool.nodes|)
  {
    hide Chained, Ranges, Nodes, JoinNext, Concatenate;
    ghost var rs := Ranges(s);
    NextOf(s, 0);
    assert rs[0] == first.Extent();
    var code := ConcatenateNewFragSpecWithExistingOne(first, 0, len, identical);
    ResizedAt(s, 0, rs);
    if code != 0 {
      pool.TakeBackAfter(first, s, 0);
      first.offset := 0;
      first.size := len;
      s' := s[..1];
      assert Ranges(s') == [Range(0, len)];
    } else {
      assert rs[0 := rs[0]] == rs;
      s' := TryToConcatenateFragSpecWithNextOnList(pool, first, identical, s, 0);
    }
  }

  /** The specs after s[k] go back to the pool and the range gets the first of them. */
  method ReplaceTail(pool: SpecPool, prev: FragSpec, off: nat, len: nat, ghost s: seq<FragSpec>, ghost k: nat)
    returns (ghost s': seq<FragSpec>)
    requires pool.Valid() && Chained(s) && pool.members !! Nodes(s)
    requires k + 1 < |s| && s[k] == prev
    modifies pool, pool.members`next, pool.members`offset, pool.members`size
    modifies Nodes(s)`next, Nodes(s)`offset, Nodes(s)`size
    ensures Redistributed(pool, s, s')
    ensures Ranges(s') == old(Ranges(s))[..k + 1] + [Range(off, len)]
    ensures |pool.nodes| == |old(pool.nodes)| + (|s| - (k + 1)) - 1
  {
    hide Chained, Ranges, Nodes;
    NextOf(s, k);
    RangesSlices(s, k);
    pool.TakeBackAfter(prev, s, k);
    var ok: bool;
    ok, s' := AddAfter(pool, prev, off, len, s[..k + 1], k);
  }

  /** The fragment lies beyond s[k]: the spec after it, if there is one, is tried. */
  method InsertFragSpecAfter(pool: SpecPool, prev: FragSpec, off: nat, len: nat, identical: bool,
                             ghost s: seq<FragSpec>, ghost k: nat)
    returns (failed: bool, ghost s': seq<FragSpec>)
    requires pool.Valid() && Chained(s) && pool.members !! Nodes(s)
    requires k < |s| && s[k] == prev && Sized(s) && off + len < 0x8000 && len > 0
    modifies pool, pool.members`next, pool.members`offset, pool.members`size
    modifies Nodes(s)`next, Nodes(s)`offset, Nodes(s)`size
    ensures Redistributed(pool, s, s')
    ensures InsertAfter(old(Ranges(s)), k, Range(off, len), identical, |old(pool.nodes)|)
            == MergeResult(!failed, Ranges(s'), |pool.nodes|)
  {
    hide Chained, Ranges, Nodes, Concatenate;
    s' := s;
    ghost var rs := Ranges(s);
    NextOf(s, k);
    InNodes(s);
    var nextSpec := prev.next;
    var ok := true;
    if nextSpec != null {
      NextOf(s, k + 1);
      assert rs[k + 1] == nextSpec.Extent();
      var code := ConcatenateNewFragSpecWithExistingOne(nextSpec, off, len, identical);
      ResizedAt(s, k + 1, rs);
      if code < 0 {
        assert rs[k + 1 := rs[k + 1]] == rs;
        ok, s' := AddAfter(pool, prev, off, len, s, k);
      } else if code > 0 {
        assert rs[k + 1 := rs[k + 1]] == rs;
        s' := ReplaceTail(pool, prev, off, len, s, k);
      } else {
        assert rs[k + 1 := rs[k + 1]] == rs;
      }
    } else {
      ok, s' := AddAfter(pool, prev, off, len, s, k);
    }
    failed := !ok;
  }

  /** All specs after the first go back to the pool, the first becomes empty, and the range gets
      a spec of its own; when the pool is empty even then, only the first spec is left as it is. */
  method RestartWith(pool: SpecPool, first: FragSpec, off: nat, len: nat, ghost s: seq<FragSpec>)
    returns (failed: bool, ghost s': seq<FragSpec>)
    requires pool.Valid() && Chained(s) && pool.members !! Nodes(s)
    requires |s| > 0 && s[0] == first
    modifies pool, pool.members`next, pool.members`offset, pool.members`size
    modifies Nodes(s)`next, Nodes(s)`offset, Nodes(s)`size
    ensures Redistributed(pool, s, s')
    ensures failed <==> |old(pool.nodes)| + (|s| - 1) == 0
    ensures Ranges(s') == if failed then old(Ranges(s))[..1] else [Range(0, 0), Range(off, len)]
    ensures |pool.nodes| + |s'| == |old(pool.nodes)| + |s|
  {
    hide Chained, Ranges, Nodes;
    NextOf(s, 0);
    pool.TakeBackAfter(first, s, 0);
    assert Ranges(s[..1]) == old(Ranges(s))[..1];
    var ok: bool;
    ok, s' := AddAfter(pool, first, off, len, s[..1], 0);
    failed := !ok;
    if ok {
      NextOf(s', 0);
      assert Ranges(s')[1] == Range(off, len);
      first.offset := 0;
      first.size := 0;
    }
  }

  /** A fragment that belongs after s[k]. */
  method MergeFragSpecAfter(pool: SpecPool, first: FragSpec, prev: FragSpec, off: nat, len: nat, identical: bool,
                            ghost s: seq<FragSpec>, ghost k: nat)
    returns (failed: bool, ghost s': seq<FragSpec>)
    requires pool.Valid() && Chained(s) && pool.members !! Nodes(s)
    requires k < |s| && s[0] == first && s[k] == prev && Sized(s) && off + len < 0x8000 && len > 0
    modifies pool, pool.members`next, pool.members`offset, pool.members`size
    modifies Nodes(s)`next, Nodes(s)`offset, Nodes(s)`size
    ensures Redistributed(pool, s, s')
    ensures MergeAfter(old(Ranges(s)), k, Range(off, len), identical, |old(pool.nodes)|)
            == MergeResult(!failed, Ranges(s'), |pool.nodes|)
  {
    hide Chained, Ranges, Nodes, Concatenate, JoinNext, InsertAfter;
    s' := s;
    failed := false;
    ghost var rs := Ranges(s);
    NextOf(s, 0);
    NextOf(s, k);
    assert rs[k] == prev.Extent();
    var code := ConcatenateNewFragSpecWithExistingOne(prev, off, len, identical);
    ResizedAt(s, k, rs);
    assert rs[k := rs[k]] == rs;
    if code == 0 {
      s' := TryToConcatenateFragSpecWithNextOnList(pool, prev, identical, s, k);
    } else if code > 0 {
      failed, s' := RestartWith(pool, first, off, len, s);
    } else {
      failed, s' := InsertFragSpecAfter(pool, prev, off, len, identical, s, k);
    }
  }

  /** Merges a range into the chain: prev is the spec that the search found, or null. */
  method MergeNewFragSpecIntoPacket(pool: SpecPool, first: FragSpec, prev: FragSpec?, off: nat, len: nat,
        identical: bool,
                                    ghost s: seq<FragSpec>, ghost k: int)
    returns (failed: bool, ghost s': seq<FragSpec>)
    requires pool.Valid() && Chained(s) && pool.members !! Nodes(s)
    requires -1 <= k < |s| && |s| > 0 && s[0] == first && prev == (if k < 0 then null else s[k])
    requires Sized(s) && off + len < 0x8000 && len > 0
    modifies pool, pool.members`next, pool.members`offset, pool.members`size
    modifies Nodes(s)`next, Nodes(s)`offset, Nodes(s)`size
    ensures Redistributed(pool, s, s')
    ensures Merge(old(Ranges(s)), k, Range(off, len), identical, |old(pool.nodes)|)
            == MergeResult(!failed, Ranges(s'), |pool.nodes|)
  {
    hide Chained, Ranges, Nodes, MergeFirst, MergeAfter;
    InNodes(s);
    if off == 0 {
      s' := MergeFirstFragSpec(pool, first, len, identical, s);
      failed := false;
    } else if prev == null {
      return true, s;
    } else {
      failed, s' := MergeFragSpecAfter(pool, first, prev, off, len, identical, s, k);
    }
  }

  /** The last spec that starts before off, or null: the fragment is merged after it. */
  method FindWhereNewFragSpecShouldBeInserted(first: FragSpec, off: nat, ghost s: seq<FragSpec>)
    returns (prev: FragSpec?, ghost k: int)
    requires Chained(s) && |s| > 0 && s[0] == first
    ensures k == FindAfter(Ranges(s), off, 0) < |s|
    ensures prev == if FindAfter(Ranges(s), off, 0) < 0 then null else s[FindAfter(Ranges(s), off, 0)]
  {
    hide Ranges;
    prev := null;
    var curr: FragSpec? := first;
    ghost var i := 0;
    while curr != null
      invariant 0 <= i <= |s|
      invariant curr == if i < |s| then s[i] else null
      invariant prev == if i > 0 then s[i - 1] else null
      invariant FindAfter(Ranges(s), off, 0) == FindAfter(Ranges(s), off, i)
      decreases |s| - i
    {
      assert curr == s[i];
      if off <= curr.offset {
        break;
      }
      prev := curr;
      curr := curr.next;
      i := i + 1;
    }
    k := i - 1;
  }
}
