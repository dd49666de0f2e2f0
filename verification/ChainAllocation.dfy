/**
 Allocating and freeing chains of chunks (ucIoVecAllocation.c), over an allocator that may
 give less than what is asked for, or nothing.
 */
module ChainAllocation {
  import opened LowpanTypes
  import opened Sequences
  import opened Chunks
  import opened IoVec

  /** What an allocation asked for n bytes gets: nothing, or from 1 to n bytes. */
  type Reply = Option<nat>

  function Given(r: Reply, n: nat): nat
    requires n > 0
  {
    match r
    case None => 0
    case Some(k) => if k == 0 then 1 else Smaller(k, n)
  }

  /** Whether the replies are enough for a chain of n bytes. */
  predicate Served(replies: seq<Reply>, n: nat) {
    n == 0 || (|replies| > 0 && Given(replies[0], n) > 0 && Served(replies[1..], n - Given(replies[0], n)))
  }

  lemma ServedNext(replies: seq<Reply>, n: nat)
    requires n > 0
    ensures var k := if |replies| == 0 then 0 else Given(replies[0], n);
            k <= n && (Served(replies, n) <==> k > 0 && Served(replies[Smaller(1, |replies|)..], n - k))
  {
  }

  lemma ServedNothing(replies: seq<Reply>)
    ensures Served(replies, 0)
  {
  }

  /** The external allocator; the links of a new chunk and of a freed one mean nothing. */
  class Allocator {
    ghost var live: set<IovChunk>
    var replies: seq<Reply>  // the outcomes of the calls to come, then failures

    constructor (replies: seq<Reply>)
      ensures live == {} && this.replies == replies
    {
      live, this.replies := {}, replies;
    }

    method AllocNewIoVecChunk(size: nat) returns (chunk: IovChunk?)
      requires size > 0
      modifies this
      ensures replies == old(replies)[Smaller(1, |old(replies)|)..]
      ensures chunk == null <==> old(replies) == [] || Given(old(replies)[0], size) == 0
      ensures chunk == null ==> live == old(live)
      ensures chunk != null ==>
                fresh(chunk) && fresh(chunk.data) && live == old(live) + {chunk}
                && chunk.data.Length == Given(old(replies)[0], size)
    {
      if |replies| == 0 {
        return null;
      }
      var n := Given(replies[0], size);
      replies := replies[1..];
      if n == 0 {
        return null;
      }
      var data := new byte[n];
      var c := new IovChunk(data);
      live := live + {c};
      chunk := c;
    }

    method FreeExistingIoVecChunk(chunk: IovChunk)
      requires chunk in live
      modifies this`live, chunk
      ensures live == old(live) - {chunk}
    {
      live := live - {chunk};
      chunk.next, chunk.prev := null, null;
    }
  }

  /** A chain of exactly the length, or nothing if the allocator fails on the way: then all that
      it gave is given back. */
  method AllocateChain(a: Allocator, length: nat) returns (first: IovChunk?, last: IovChunk?, ghost c: seq<IovChunk>)
    modifies a
    ensures Served(old(a.replies), length) ==>
              Chain(c) && |Flat(c)| == length && first == Elem(c, 0)
              && last == (if |c| == 0 then null else c[|c| - 1])
              && fresh(c) && (forall i :: 0 <= i < |c| ==> fresh(c[i].data)) && a.live == old(a.live) + Members(c)
    ensures !Served(old(a.replies), length) ==> first == null && a.live == old(a.live)
  {
    hide Served, Given, Flatten, Parts, Size, Members, Growing, Chain;
    NothingYet();
    first, last, c := null, null, [];
    var left: nat := length;
    while left > 0
      invariant Served(old(a.replies), length) <==> Served(a.replies, left)
      invariant first == Elem(c, 0) && last == (if |c| == 0 then null else c[|c| - 1])
      invariant Growing(c) && left + Size(c) == length
      invariant fresh(c) && forall i :: 0 <= i < |c| ==> fresh(c[i].data)
      invariant a.live == old(a.live) + Members(c)
      decreases left
    {
      ServedNext(a.replies, left);
      var chunk := a.AllocNewIoVecChunk(left);
      if chunk == null {
        if last != null {
          Close(last, c);
          ghost var live := a.live;
          FreeChain(a, first, c);
          NoneLeft(live, old(a.live), c);
        }
        return null, null, [];
      }
      if last == null {
        first := chunk;
      }
      Link(last, chunk, c);
      last := chunk;
      left := left - chunk.data.Length;
      Grows(c, chunk);
      c := c + [chunk];
    }
    if last != null {
      Close(last, c);
    } else {
      NothingYet();
    }
    SizeIsLength(c);
    ServedNothing(a.replies);
  }

  /** Links a chunk behind the last one, if there is one. */
  method Link(last: IovChunk?, chunk: IovChunk, ghost c: seq<IovChunk>)
    requires Growing(c) && last == (if |c| == 0 then null else c[|c| - 1]) && chunk !in c
    requires chunk.data.Length > 0 && forall i :: 0 <= i < |c| ==> c[i].data != chunk.data
    modifies c`next, chunk`prev
    ensures Growing(c + [chunk])
  {
    if last != null {
      last.next := chunk;
    }
    chunk.prev := last;
  }

  /** Ends the chain behind the last chunk. */
  method Close(last: IovChunk, ghost c: seq<IovChunk>)
    requires Growing(c) && |c| > 0 && last == c[|c| - 1]
    modifies last`next
    ensures Chain(c)
  {
    last.next := null;
  }

  function Size(c: seq<IovChunk>): nat {
    if |c| == 0 then 0 else Size(c[..|c| - 1]) + c[|c| - 1].data.Length
  }

  function Members(c: seq<IovChunk>): set<IovChunk> {
    set x | x in c
  }

  lemma NothingYet()
    ensures Size([]) == 0 && Members([]) == {} && Growing([]) && Chain([])
  {
  }

  lemma Grows(c: seq<IovChunk>, x: IovChunk)
    ensures Size(c + [x]) == Size(c) + x.data.Length && Members(c + [x]) == Members(c) + {x}
  {
    assert (c + [x])[..|c|] == c;
  }

  lemma {:induction false} SizeIsBefore(c: seq<IovChunk>, k: nat)
    requires k <= |c|
    ensures Before(Parts(c), k) == Size(c[..k])
  {
    hide Parts;
    if k > 0 {
      SizeIsBefore(c, k - 1);
      PartsAt(c, k - 1);
      assert c[..k] == c[..k - 1] + [c[k - 1]];
      Grows(c[..k - 1], c[k - 1]);
    }
  }

  lemma SizeIsLength(c: seq<IovChunk>)
    ensures |Flat(c)| == Size(c)
  {
    hide Parts;
    SizeIsBefore(c, |c|);
    TotalLength(Parts(c));
    assert c[..|c|] == c;
  }

  lemma NoneLeft(live: set<IovChunk>, was: set<IovChunk>, c: seq<IovChunk>)
    requires live == was + Members(c) && forall i :: 0 <= i < |c| ==> c[i] !in was
    ensures live - Members(c) == was
  {
  }

  /** Linked as a chain, but for what follows the last chunk. */
  ghost predicate Growing(c: seq<IovChunk>)
    reads c`next, c`prev
  {
    && (forall i {:trigger c[i].next} :: 0 <= i < |c| - 1 ==> c[i].next == c[i + 1])
    && (forall i {:trigger c[i].prev} :: 0 <= i < |c| ==> c[i].prev == if i > 0 then c[i - 1] else null)
    && (forall i :: 0 <= i < |c| ==> c[i].data.Length > 0)
    && (forall i, j :: 0 <= i < j < |c| ==> c[i].data != c[j].data)
  }

  /** Gives back every chunk of a chain, and nothing else. */
  method FreeChain(a: Allocator, list: IovChunk?, ghost c: seq<IovChunk>)
    requires Chain(c) && list == Elem(c, 0) && Members(c) <= a.live
    modifies a`live, c
    ensures a.live == old(a.live) - Members(c)
  {
    var curr := list;
    ghost var k := 0;
    while curr != null
      invariant 0 <= k <= |c| && curr == Elem(c, k)
      invariant a.live == old(a.live) - Members(c[..k])
      invariant forall i :: k <= i < |c| ==> c[i].next == Elem(c, i + 1)
      decreases |c| - k
    {
      var next := curr.next;
      a.FreeExistingIoVecChunk(curr);
      curr := next;
      k := k + 1;
    }
    assert c[..k] == c;
  }
}
