/**
 The queue of packets staged for forwarding (uc6LoWPANPacketForwarding.c): its elements are
 in a pool, staged, or completed, on three singly linked lists.
 */
module StagingQueue {
  import opened LowpanTypes
  import opened Sequences

  /** Packets are told apart by their addresses in memory. */
  type PacketPtr = nat

  class QueueElem {
    var next: QueueElem?
    var packet: PacketPtr
    var status: byte
    var addr: LinkAddr

    constructor ()
    {
      next, packet, status, addr := null, 0, 0, NoAddr;
    }
  }

  function First(s: seq<QueueElem>): QueueElem? {
    if |s| == 0 then null else s[0]
  }

  function Last(s: seq<QueueElem>): QueueElem? {
    if |s| == 0 then null else s[|s| - 1]
  }

  /** The element before the i-th. */
  function Previous(s: seq<QueueElem>, i: nat): QueueElem?
    requires i < |s|
  {
    if i == 0 then null else s[i - 1]
  }

  ghost predicate Linked(s: seq<QueueElem>)
    reads s`next
  {
    forall i {:trigger s[i].next} :: 0 <= i < |s| ==> s[i].next == if i + 1 < |s| then s[i + 1] else null
  }

  ghost predicate Distinct(s: seq<QueueElem>) {
    forall i, j :: 0 <= i < j < |s| ==> s[i] != s[j]
  }

  /** No element is on two lists, nor twice on one. */
  ghost predicate Apart(a: seq<QueueElem>, b: seq<QueueElem>, c: seq<QueueElem>) {
    Distinct(a + b + c)
  }

  ghost function Together(a: seq<QueueElem>, b: seq<QueueElem>, c: seq<QueueElem>): multiset<QueueElem> {
    multiset(a + b + c)
  }

  /** The position of the first element of the packet; the length if there is none. */
  ghost function Find(s: seq<QueueElem>, packet: PacketPtr): (i: nat)
    reads s`packet
    ensures i <= |s|
    ensures i < |s| ==> s[i].packet == packet
    ensures forall k :: 0 <= k < i ==> s[k].packet != packet
  {
    if |s| == 0 then 0
    else if s[0].packet == packet then 0
    else
      assert forall e :: e in s[1..] ==> e in s;
      1 + Find(s[1..], packet)
  }

  class Queue {
    var stagedQueueFirst: QueueElem?
    var stagedQueueLast: QueueElem?
    var completedQueueFirst: QueueElem?
    var completedQueueLast: QueueElem?
    var poolFirst: QueueElem?
    var numInPool: byte
    var numInQueue: byte
    ghost var staged: seq<QueueElem>
    ghost var completed: seq<QueueElem>
    ghost var pool: seq<QueueElem>

    ghost predicate Valid()
      reads this, pool`next, staged`next, completed`next
    {
      && Linked(pool) && Linked(staged) && Linked(completed)
      && Apart(pool, staged, completed)
      && poolFirst == First(pool)
      && stagedQueueFirst == First(staged) && stagedQueueLast == Last(staged)
      && completedQueueFirst == First(completed) && completedQueueLast == Last(completed)
      && numInPool == |pool| && numInQueue == |staged| + |completed| && |pool| + |staged| + |completed| < 0x100
    }

    /** The elements of the pool, whichever list they are on. */
    ghost function Elements(): multiset<QueueElem>
      reads this
    {
      Together(pool, staged, completed)
    }

    /** Each element is on exactly one list, once. */
    lemma OnOneList(e: QueueElem)
      requires Valid() && e in Elements()
      ensures Elements()[e] == 1
      ensures if e in pool then e !in staged && e !in completed else (e in staged <==> e !in completed)
    {
      var all := pool + staged + completed;
      OnceThere(all, e);
      NoneShared(pool, staged, completed);
      assert e in all;
    }

    constructor (elements: seq<QueueElem>)
      requires |elements| < 0x100 && Distinct(elements)
      modifies elements
      ensures Valid() && staged == [] && completed == [] && Elements() == multiset(elements)
    {
      hide Apart, Together, Distinct;
      stagedQueueFirst, stagedQueueLast, completedQueueFirst, completedQueueLast := null, null, null, null;
      numInPool, numInQueue := |elements|, 0;
      staged, completed := [], [];
      var first;
      ghost var all;
      first, all := FillPool(elements);
      poolFirst := first;
      pool := all;
    }

    /** Puts a packet at the end of the staged ones, if the pool is not empty. */
    method EnqueuePacket(packet: PacketPtr, llAddr: LinkAddr) returns (elem: QueueElem?)
      requires Valid()
      modifies this, pool, staged`next
      ensures Valid() && Elements() == old(Elements()) && completed == old(completed)
      ensures elem == null <==> old(pool) == []
      ensures elem == null ==> staged == old(staged) && pool == old(pool)
      ensures elem != null ==>
                elem == old(pool)[0] && pool == old(pool)[1..] && staged == old(staged) + [elem]
                && elem.packet == packet && elem.status == 0 && elem.addr == llAddr
      ensures forall e :: e in old(pool) && e != elem ==>
                e.packet == old(e.packet) && e.status == old(e.status) && e.addr == old(e.addr)
    {
      hide Apart, Together, Linked;
      elem := poolFirst;
      if elem == null {
        return;
      }
      MoveToStaged(elem);
      elem.packet := packet;
      elem.status := 0;
      elem.addr := llAddr;
    }

    /** Moves the first element of the pool. */
    method MoveToStaged(elem: QueueElem)
      requires Valid() && elem == poolFirst
      modifies this, pool`next, staged`next
      ensures Valid() && Elements() == old(Elements()) && completed == old(completed)
      ensures old(pool) == [elem] + pool && staged == old(staged) + [elem]
    {
      hide Apart, Together, Linked, Distinct;
      NoneShared(pool, staged, completed);
      TakenFromPool(pool, staged, completed);
      LinkedRest(pool);
      poolFirst := elem.next;
      pool := pool[1..];
      AddToStaged(elem);
      numInPool := numInPool - 1;
      numInQueue := numInQueue + 1;
    }

    /** Links an element at the end of the staged ones. */
    method AddToStaged(elem: QueueElem)
      requires Linked(staged) && stagedQueueFirst == First(staged) && stagedQueueLast == Last(staged)
      requires elem !in staged && Distinct(staged)
      modifies `stagedQueueFirst, `stagedQueueLast, `staged, staged`next, elem`next
      ensures staged == old(staged) + [elem]
      ensures Linked(staged) && stagedQueueFirst == First(staged) && stagedQueueLast == Last(staged)
    {
      if stagedQueueFirst == null {
        stagedQueueFirst := elem;
      } else {
        stagedQueueLast.next := elem;
      }
      stagedQueueLast := elem;
      elem.next := null;
      staged := staged + [elem];
    }

    /** The first staged element of the packet, and the one before it. */
    method FindStagedPacket(packet: PacketPtr) returns (elem: QueueElem?, prev: QueueElem?)
      requires Valid()
      ensures var i := Find(staged, packet);
              if i < |staged| then elem == staged[i] && prev == Previous(staged, i) else elem == null
    {
      elem, prev := FindOn(stagedQueueFirst, packet, staged);
    }

    /** The first completed element of the packet, and the one before it. */
    method FindCompletedPacket(packet: PacketPtr) returns (elem: QueueElem?, prev: QueueElem?)
      requires Valid()
      ensures var i := Find(completed, packet);
              if i < |completed| then elem == completed[i] && prev == Previous(completed, i) else elem == null
    {
      elem, prev := FindOn(completedQueueFirst, packet, completed);
    }

    /** Moves a staged element, given with the one before it, to the end of the completed ones. */
    method MarkPacketAsCompleted(prev: QueueElem?, elem: QueueElem, ghost i: nat)
      requires Valid() && i < |staged| && elem == staged[i] && prev == Previous(staged, i)
      modifies this, staged`next, completed`next
      ensures Valid() && Elements() == old(Elements()) && pool == old(pool)
      ensures staged == Without(old(staged), i) && completed == old(completed) + [elem]
    {
      hide Apart, Together, Linked, Distinct, Without;
      NoneShared(pool, staged, completed);
      Completed(pool, staged, completed, i);
      WithoutAt(staged, i);
      RemoveFromStaged(prev, elem, i);
      AddToCompleted(elem);
    }

    method RemoveFromStaged(prev: QueueElem?, elem: QueueElem, ghost i: nat)
      requires Linked(staged) && stagedQueueFirst == First(staged) && stagedQueueLast == Last(staged)
               && Distinct(staged)
      requires i < |staged| && elem == staged[i] && prev == Previous(staged, i)
      modifies `stagedQueueFirst, `stagedQueueLast, `staged, staged`next
      ensures staged == Without(old(staged), i) && elem.next == null
      ensures Linked(staged) && stagedQueueFirst == First(staged) && stagedQueueLast == Last(staged)
    {
      if prev == null {
        stagedQueueFirst := elem.next;
      } else {
        prev.next := elem.next;
      }
      elem.next := null;
      if elem == stagedQueueLast {
        stagedQueueLast := prev;
      }
      staged := Without(staged, i);
    }

    /** Links an element at the end of the completed ones. */
    method AddToCompleted(elem: QueueElem)
      requires Linked(completed) && completedQueueFirst == First(completed) && completedQueueLast == Last(completed)
      requires elem !in completed && Distinct(completed) && elem.next == null
      modifies `completedQueueFirst, `completedQueueLast, `completed, completed`next
      ensures completed == old(completed) + [elem]
      ensures Linked(completed) && completedQueueFirst == First(completed) && completedQueueLast == Last(completed)
    {
      if completedQueueFirst == null {
        completedQueueFirst := elem;
      } else {
        completedQueueLast.next := elem;
      }
      completedQueueLast := elem;
      completed := completed + [elem];
    }

    /** Gives the first completed element back to the pool. */
    method RemoveFirstCompletedPacket()
      requires Valid() && completed != []
      modifies this, completed`next
      ensures Valid() && Elements() == old(Elements()) && staged == old(staged)
      ensures completed == old(completed)[1..] && pool == [old(completed)[0]] + old(pool)
    {
      hide Apart, Together, Linked, Distinct;
      NoneShared(pool, staged, completed);
      GivenBack(pool, staged, completed);
      var first := completedQueueFirst;
      UnlinkFirstCompleted(first);
      first.next := poolFirst;
      LinkedInFront(first, pool);
      poolFirst := first;
      pool := [first] + pool;
      numInPool := numInPool + 1;
      numInQueue := numInQueue - 1;
    }

    method UnlinkFirstCompleted(first: QueueElem)
      requires Linked(completed) && first == completedQueueFirst == First(completed)
               && completedQueueLast == Last(completed)
      requires Distinct(completed)
      modifies `completedQueueFirst, `completedQueueLast, `completed
      ensures old(completed) == [first] + completed && first !in completed
      ensures Linked(completed) && completedQueueFirst == First(completed) && completedQueueLast == Last(completed)
    {
      LinkedRest(completed);
      completedQueueFirst := first.next;
      if completedQueueLast == first {
        completedQueueLast := null;
      }
      completed := completed[1..];
    }
  }

  /** Links the elements of the pool, the last one first. */
  method FillPool(elements: seq<QueueElem>) returns (first: QueueElem?, ghost pool: seq<QueueElem>)
    requires Distinct(elements)
    modifies elements`next
    ensures Linked(pool) && first == First(pool) && |pool| == |elements|
    ensures Apart(pool, [], []) && Together(pool, [], []) == multiset(elements)
  {
    first := null;
    pool := [];
    var i := 0;
    while i < |elements|
      invariant 0 <= i <= |elements| && |pool| == i && first == First(pool)
      invariant forall k :: 0 <= k < i ==> pool[k] == elements[i - 1 - k]
      invariant Linked(pool) && multiset(pool) == multiset(elements[..i])
    {
      elements[i].next := first;
      first := elements[i];
      assert elements[..i + 1] == elements[..i] + [elements[i]];
      pool := [elements[i]] + pool;
      i := i + 1;
    }
    assert elements[..i] == elements && pool + [] + [] == pool;
    Rearranged(elements, pool);
  }

  /** The loop of both searches. */
  method FindOn(first: QueueElem?, packet: PacketPtr, ghost s: seq<QueueElem>)
    returns (elem: QueueElem?, prev: QueueElem?)
    requires Linked(s) && first == First(s)
    ensures var i := Find(s, packet);
            if i < |s| then elem == s[i] && prev == Previous(s, i) else elem == null
  {
    prev := null;
    elem := first;
    ghost var k := 0;
    while elem != null
      invariant 0 <= k <= |s| && elem == (if k < |s| then s[k] else null)
      invariant prev == (if k == 0 then null else s[k - 1])
      invariant forall j :: 0 <= j < k ==> s[j].packet != packet
      decreases |s| - k
    {
      if elem.packet == packet {
        return;
      }
      prev := elem;
      elem := elem.next;
      k := k + 1;
    }
  }

  lemma NoneShared(a: seq<QueueElem>, b: seq<QueueElem>, c: seq<QueueElem>)
    requires Apart(a, b, c)
    ensures Distinct(a) && Distinct(b) && Distinct(c)
    ensures forall i :: 0 <= i < |a| ==> a[i] !in b && a[i] !in c
    ensures forall i :: 0 <= i < |b| ==> b[i] !in a && b[i] !in c
    ensures forall i :: 0 <= i < |c| ==> c[i] !in a && c[i] !in b
  {
    var all := a + b + c;
    assert forall i :: 0 <= i < |a| ==> all[i] == a[i];
    assert forall i :: 0 <= i < |b| ==> all[|a| + i] == b[i];
    assert forall i :: 0 <= i < |c| ==> all[|a| + |b| + i] == c[i];
  }

  lemma LinkedRest(s: seq<QueueElem>)
    requires Linked(s) && |s| > 0
    ensures Linked(s[1..]) && s[0].next == First(s[1..])
    ensures Distinct(s) ==> s[0] !in s[1..] && (|s| > 1 ==> Last(s[1..]) == Last(s) != s[0])
  {
  }

  lemma LinkedInFront(e: QueueElem, s: seq<QueueElem>)
    requires Linked(s) && e.next == First(s)
    ensures Linked([e] + s)
  {
  }

  lemma Rearranged(s: seq<QueueElem>, t: seq<QueueElem>)
    requires Distinct(s) && multiset(s) == multiset(t)
    ensures Distinct(t)
  {
    forall i, j | 0 <= i < j < |t|
      ensures t[i] != t[j]
    {
      if t[i] == t[j] {
        TwiceThere(t, i, j);
        OnceThere(s, t[i]);
      }
    }
  }

  lemma TwiceThere(t: seq<QueueElem>, i: nat, j: nat)
    requires i < j < |t| && t[i] == t[j]
    ensures multiset(t)[t[i]] >= 2
  {
    assert t == t[..j] + [t[j]] + t[j + 1..];
    assert t[i] in t[..j];
  }

  lemma {:induction false} OnceThere(s: seq<QueueElem>, e: QueueElem)
    requires Distinct(s)
    ensures multiset(s)[e] <= 1
  {
    if |s| > 0 {
      var front, last := s[..|s| - 1], s[|s| - 1];
      OnceThere(front, e);
      assert s == front + [last];
      assert last !in front;
    }
  }

  lemma TakenFromPool(pool: seq<QueueElem>, staged: seq<QueueElem>, completed: seq<QueueElem>)
    requires |pool| > 0 && Apart(pool, staged, completed)
    ensures Together(pool[1..], staged + [pool[0]], completed) == Together(pool, staged, completed)
    ensures Apart(pool[1..], staged + [pool[0]], completed)
  {
    assert pool == [pool[0]] + pool[1..];
    Rearranged(pool + staged + completed, pool[1..] + (staged + [pool[0]]) + completed);
  }

  lemma Completed(pool: seq<QueueElem>, staged: seq<QueueElem>, completed: seq<QueueElem>, i: nat)
    requires i < |staged| && Apart(pool, staged, completed)
    ensures Together(pool, Without(staged, i), completed + [staged[i]]) == Together(pool, staged, completed)
    ensures Apart(pool, Without(staged, i), completed + [staged[i]])
  {
    assert staged == staged[..i] + [staged[i]] + staged[i + 1..];
    Rearranged(pool + staged + completed, pool + Without(staged, i) + (completed + [staged[i]]));
  }

  lemma GivenBack(pool: seq<QueueElem>, staged: seq<QueueElem>, completed: seq<QueueElem>)
    requires |completed| > 0 && Apart(pool, staged, completed)
    ensures Together([completed[0]] + pool, staged, completed[1..]) == Together(pool, staged, completed)
    ensures Apart([completed[0]] + pool, staged, completed[1..])
  {
    assert completed == [completed[0]] + completed[1..];
    Rearranged(pool + staged + completed, [completed[0]] + pool + staged + completed[1..]);
  }
}
