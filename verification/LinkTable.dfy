/**
 The mesh link table (uc6LoWPANMeshManipulation.c): a pool of links threaded at once by a
 free list, a hash index of extended addresses and one of short addresses.  The free list
 and the index of extended addresses share one next field.
 Each operation is the step of module LinkModel on the links, in which a lookup is a linear
 scan; Valid says that the pool is partitioned between the free list and the hash chains.
 */
module LinkTable {
  import opened LowpanTypes
  import opened Sequences
  import opened LinkQuality
  import opened IndexChains
  import M = LinkModel

  class LinkNode {
    const idx: byte
    var extAddr: ExtAddr
    var shrtAddr: ShortAddr
    var hasExtAddr: bool
    var hasShrtAddr: bool
    var init: bool
    var refreshed: bool
    var reclaimable: bool
    var pinned: bool
    var quality: Quality
    var nextExtAddrIdx: byte
    var nextShrtAddrIdx: byte

    function Value(): M.Link
      reads `extAddr, `shrtAddr, `hasExtAddr, `hasShrtAddr, `init, `refreshed, `reclaimable, `pinned, `quality
    {
      M.Link(if hasExtAddr then Some(extAddr) else None, if hasShrtAddr then Some(shrtAddr) else None,
             init, refreshed, reclaimable, pinned, quality)
    }

    /** The flags and the address of a new link, and its quality reset. */
    method Become(addr: LinkAddr)
      requires !addr.NoAddr?
      modifies `extAddr, `shrtAddr, `hasExtAddr, `hasShrtAddr, `init, `refreshed, `reclaimable, `pinned, `quality
      ensures Value() == M.NewLink(addr)
    {
      hasExtAddr, hasShrtAddr := addr.Extended?, addr.Short?;
      init, refreshed, reclaimable, pinned := false, false, false, false;
      match addr {
        case Short(s) => shrtAddr := s;
        case Extended(e) => extAddr := e;
      }
      quality := RESET_QUALITY;
    }

    method ResetLinkQuality()
      modifies `quality
      ensures quality == RESET_QUALITY
    {
      quality := quality.(etx := ETX_INFINITE, lastBeaconSeqNo := 0, received := 0, missed := 0,
                          acked := 0, unacked := 0, inPrr := 0);
    }

    method RecomputeBeaconBasedLinkQualityIfNecessary()
      modifies `init, `quality
      ensures Estimate(init, quality) == RecomputeFromBeacons(old(Estimate(init, quality)))
    {
      hide U8, IntegratePrr, IntegrateEtx, PrrToEtx, EtxToPrr, PrrFromCounts;
      var numReceived := quality.received;
      var numTotal := U8(numReceived + quality.missed);
      if numTotal < MIN_BROADCASTS {
        return;
      }
      if init {
        init := false;
        quality := quality.(etx := INITIAL_ETX, inPrr := EtxToPrr(INITIAL_ETX));
      }
      quality := quality.(inPrr := IntegratePrr(quality.inPrr, PrrFromCounts(numReceived, numTotal)));
      quality := quality.(etx := IntegrateEtx(quality.etx, PrrToEtx(quality.inPrr)));
      quality := quality.(received := 0, missed := 0);
    }

    method RecomputeAckBasedLinkQualityIfNecessary()
      modifies `quality
      ensures Estimate(init, quality) == RecomputeFromUnicasts(old(Estimate(init, quality)))
    {
      hide U8, IntegrateEtx, UnicastSample;
      var numAcked := quality.acked;
      var numTotal := U8(numAcked + quality.unacked);
      if numTotal < MIN_UNICASTS || init {
        return;
      }
      var sample := SampleOf(numAcked, numTotal);
      if numAcked > 0 {
        quality := quality.(acked := 0, unacked := 0);
      }
      var was := if quality.etx == ETX_INFINITE then INITIAL_ETX else quality.etx;
      quality := quality.(etx := IntegrateEtx(was, sample));
    }

    /** The sample from unicasts. */
    static method SampleOf(numAcked: byte, numTotal: byte) returns (sample: uint16)
      ensures sample == UnicastSample(numAcked, numTotal)
    {
      hide U16;
      if numAcked == 0 {
        sample := U16((numTotal + 1) * ETX_ONE);
      } else {
        sample := U16(numTotal * ETX_ONE) / numAcked;
      }
    }

    method ReportBroadcastReception(seqNo: byte)
      modifies `init, `refreshed, `reclaimable, `quality
      ensures Value() == M.ReportBroadcast(old(Value()), seqNo)
    {
      hide RecomputeFromBeacons;
      if !init && quality.etx >= ETX_INFINITE {
        init := true;
        quality := quality.(lastBeaconSeqNo := U8(seqNo - 1));
      }
      var numMissed := U8(seqNo - quality.lastBeaconSeqNo - 1);
      if numMissed > MAX_MISSED_BROADCASTS {
        ResetLinkQuality();
        refreshed, reclaimable := false, false;
        init := true;
        quality := quality.(received := 1);
      } else {
        quality := quality.(received := U8(quality.received + 1));
        quality := quality.(missed := U8(quality.missed + numMissed));
      }
      RecomputeBeaconBasedLinkQualityIfNecessary();
      quality := quality.(lastBeaconSeqNo := seqNo);
      refreshed := true;
      reclaimable := false;
    }

    method ReportUnicastCompletion(acked: bool)
      modifies `refreshed, `reclaimable, `quality
      ensures Value() == M.ReportUnicast(old(Value()), acked)
    {
      hide RecomputeFromUnicasts;
      if acked {
        quality := quality.(acked := U8(quality.acked + 1));
        refreshed := true;
        reclaimable := false;
      } else {
        quality := quality.(unacked := U8(quality.unacked + 1));
        if quality.unacked > MAX_UNACKED_UNICASTS {
          quality := quality.(etx := ETX_INFINITE, acked := 0, unacked := 0);
          return;
        }
      }
      RecomputeAckBasedLinkQualityIfNecessary();
    }

    method Clear()
      modifies `hasExtAddr, `hasShrtAddr, `init, `refreshed, `reclaimable, `pinned
      ensures Value() == M.Cleared(old(Value()))
    {
      hasExtAddr, hasShrtAddr, init, refreshed, reclaimable, pinned := false, false, false, false, false, false;
    }

    constructor (idx: byte)
      ensures this.idx == idx
    {
      this.idx := idx;
      extAddr, shrtAddr := [0, 0, 0, 0, 0, 0, 0, 0], [0, 0];
      hasExtAddr, hasShrtAddr, init, refreshed, reclaimable, pinned := false, false, false, false, false, false;
      quality := RESET_QUALITY;
      nextExtAddrIdx, nextShrtAddrIdx := INVALID_IDX, INVALID_IDX;
    }
  }

  ghost function Links(pool: seq<LinkNode>): (links: seq<M.Link>)
    reads pool`extAddr, pool`shrtAddr, pool`hasExtAddr, pool`hasShrtAddr, pool`init
    reads pool`refreshed, pool`reclaimable, pool`pinned, pool`quality
    ensures |links| == |pool|
  {
    if |pool| == 0 then [] else [pool[0].Value()] + Links(pool[1..])
  }

  ghost function NextExts(pool: seq<LinkNode>): (nexts: seq<byte>)
    reads pool`nextExtAddrIdx
    ensures |nexts| == |pool|
  {
    if |pool| == 0 then [] else [pool[0].nextExtAddrIdx] + NextExts(pool[1..])
  }

  ghost function NextShrts(pool: seq<LinkNode>): (nexts: seq<byte>)
    reads pool`nextShrtAddrIdx
    ensures |nexts| == |pool|
  {
    if |pool| == 0 then [] else [pool[0].nextShrtAddrIdx] + NextShrts(pool[1..])
  }

  lemma {:induction false} LinksAt(pool: seq<LinkNode>, i: nat)
    requires i < |pool|
    ensures Links(pool)[i] == pool[i].Value()
    ensures NextExts(pool)[i] == pool[i].nextExtAddrIdx
    ensures NextShrts(pool)[i] == pool[i].nextShrtAddrIdx
  {
    if i > 0 {
      LinksAt(pool[1..], i - 1);
    }
  }

  lemma AllLinksAt(pool: seq<LinkNode>)
    ensures forall i {:trigger Links(pool)[i]} :: 0 <= i < |pool| ==> Links(pool)[i] == pool[i].Value()
    ensures forall i {:trigger NextExts(pool)[i]} :: 0 <= i < |pool| ==> NextExts(pool)[i] == pool[i].nextExtAddrIdx
    ensures forall i {:trigger NextShrts(pool)[i]} :: 0 <= i < |pool| ==> NextShrts(pool)[i] == pool[i].nextShrtAddrIdx
  {
    forall i | 0 <= i < |pool|
      ensures Links(pool)[i] == pool[i].Value()
      ensures NextExts(pool)[i] == pool[i].nextExtAddrIdx
      ensures NextShrts(pool)[i] == pool[i].nextShrtAddrIdx
    {
      LinksAt(pool, i);
    }
  }

  function ExtKeys(links: seq<M.Link>): (keys: seq<Option<seq<byte>>>)
    ensures |keys| == |links|
    ensures forall i :: 0 <= i < |links| ==> keys[i] == links[i].ext
  {
    if |links| == 0 then [] else [links[0].ext] + ExtKeys(links[1..])
  }

  function ShrtKeys(links: seq<M.Link>): (keys: seq<Option<seq<byte>>>)
    ensures |keys| == |links|
    ensures forall i :: 0 <= i < |links| ==> keys[i] == links[i].short
  {
    if |links| == 0 then [] else [links[0].short] + ShrtKeys(links[1..])
  }

  ghost function Heads(map_: array<byte>): (s: seq<byte>)
    reads map_
    ensures |s| == map_.Length && forall b :: 0 <= b < map_.Length ==> s[b] == map_[b]
  {
    map_[..]
  }

  method SetHead(map_: array<byte>, b: byte, v: byte)
    requires b < map_.Length
    modifies map_
    ensures Heads(map_) == old(Heads(map_))[b := v]
  {
    map_[b] := v;
  }

  /** The free list leads through links that are not allocated. */
  ghost predicate FreeList(links: seq<M.Link>, nexts: seq<byte>, first: byte, free: seq<nat>) {
    && |links| == |nexts| && Chain(nexts, first, free)
    && forall k :: 0 <= k < |free| ==> free[k] < |links| && !links[free[k]].Allocated()
  }

  class LinkTable {
    const pool: seq<LinkNode>
    const extAddrHashMap: array<byte>
    const shrtAddrHashMap: array<byte>
    var firstLinkInPool: byte
    ghost var free: seq<nat>           // the free list
    ghost var exts: seq<seq<nat>>      // the chain of each bucket of extended addresses
    ghost var shrts: seq<seq<nat>>     // the chain of each bucket of short addresses

    /** The table as a value. */
    ghost function Abs(): M.Table
      reads `free, pool
    {
      M.Table(Links(pool), free)
    }

    ghost predicate Shape() {
      && |pool| <= 0xff && (forall i :: 0 <= i < |pool| ==> pool[i].idx == i)
      && 0 < extAddrHashMap.Length <= 0xff && 0 < shrtAddrHashMap.Length <= 0xff
      && extAddrHashMap != shrtAddrHashMap
    }

    ghost predicate ExtsIndexed()
      reads `exts, pool, extAddrHashMap
    {
      Indexed(ExtKeys(Links(pool)), NextExts(pool), Heads(extAddrHashMap), exts)
    }

    ghost predicate ShrtsIndexed()
      reads `shrts, pool, shrtAddrHashMap
    {
      Indexed(ShrtKeys(Links(pool)), NextShrts(pool), Heads(shrtAddrHashMap), shrts)
    }

    ghost predicate FreeChained()
      reads `firstLinkInPool, `free, pool
    {
      FreeList(Links(pool), NextExts(pool), firstLinkInPool, free)
    }

    ghost predicate Structured()
      reads this, pool, extAddrHashMap, shrtAddrHashMap
    {
      Shape() && ExtsIndexed() && ShrtsIndexed() && FreeChained()
    }

    ghost predicate Valid()
      reads this, pool, extAddrHashMap, shrtAddrHashMap
    {
      Structured() && M.WellFormed(Abs())
    }

    /** The link is an element of the pool, at the index it carries. */
    ghost predicate Owns(link: LinkNode) {
      Shape() && link.idx < |pool| && pool[link.idx] == link
    }

    method SetNextExt(link: LinkNode, v: byte)
      requires Owns(link)
      modifies link`nextExtAddrIdx
      ensures NextExts(pool) == old(NextExts(pool))[link.idx := v]
    {
      hide NextExts;
      AllLinksAt(pool);
      link.nextExtAddrIdx := v;
      AllLinksAt(pool);
    }

    method SetNextShrt(link: LinkNode, v: byte)
      requires Owns(link)
      modifies link`nextShrtAddrIdx
      ensures NextShrts(pool) == old(NextShrts(pool))[link.idx := v]
    {
      hide NextShrts;
      AllLinksAt(pool);
      link.nextShrtAddrIdx := v;
      AllLinksAt(pool);
    }

    /** Only link i changed, as a value. */
    lemma LinkChanged(was: seq<M.Link>, i: nat)
      requires i < |pool| == |was|
      requires forall j :: 0 <= j < |pool| && j != i ==> pool[j].Value() == was[j]
      ensures Links(pool) == was[i := pool[i].Value()]
    {
      AllLinksAt(pool);
    }

    /** Where a link with an extended address is: its bucket, the link before it on the chain, and its place. */
    method LocateExt(link: LinkNode) returns (b: byte, prev: LinkNode?, ghost k: nat)
      requires Shape() && ExtsIndexed() && Owns(link) && link.hasExtAddr
      ensures b < extAddrHashMap.Length && b < |exts| && k < |exts[b]| && exts[b][k] == link.idx
      ensures prev != null <==> k > 0
      ensures k > 0 ==> Owns(prev) && prev.idx == exts[b][k - 1]
    {
      hide Indexed, Chain, Links, NextExts, ExtKeys;
      b := Hash(link.extAddr, extAddrHashMap.Length);
      ghost var keys, nexts := ExtKeys(Links(pool)), NextExts(pool);
      AllLinksAt(pool);
      IndexedChain(keys, nexts, Heads(extAddrHashMap), exts, b);
      ghost var c := exts[b];
      assert InBucket(keys, link.idx, b, extAddrHashMap.Length);
      ChainLinks(nexts, extAddrHashMap[b], c);
      prev := null;
      var curr := extAddrHashMap[b];
      k := 0;
      while curr != link.idx && curr < |pool|
        invariant k <= |c|
        invariant curr == if k < |c| then c[k] else INVALID_IDX
        invariant if k > 0 then prev == pool[c[k - 1]] else prev == null
        invariant forall j :: 0 <= j < k ==> c[j] != link.idx
        decreases |c| - k
      {
        prev := pool[curr];
        assert nexts[curr] == prev.nextExtAddrIdx;
        curr := prev.nextExtAddrIdx;
        k := k + 1;
      }
    }

    /** Clears the flag of the extended address. */
    method ForgetExt(link: LinkNode)
      requires Owns(link)
      modifies link`hasExtAddr
      ensures !link.hasExtAddr && link.Value() == old(link.Value()).(ext := None)
      ensures Links(pool) == old(Links(pool))[link.idx := link.Value()]
    {
      ghost var was := Links(pool);
      AllLinksAt(pool);
      link.hasExtAddr := false;
      LinkChanged(was, link.idx);
    }

    /** Unlinks a link from its bucket's chain. */
    method UnlinkExt(link: LinkNode, b: byte, prev: LinkNode?, ghost c: seq<nat>, ghost k: nat)
      requires Owns(link) && b < extAddrHashMap.Length
      requires k < |c| && c[k] == link.idx && forall j :: 0 <= j < |c| ==> c[j] < |pool|
      requires prev != null <==> k > 0
      requires k > 0 ==> Owns(prev) && prev.idx == c[k - 1]
      modifies pool`nextExtAddrIdx, extAddrHashMap
      ensures NextExts(pool) == Unlinked(old(NextExts(pool)), c, k)
      ensures Heads(extAddrHashMap) ==
              if k == 0 then old(Heads(extAddrHashMap))[b := old(link.nextExtAddrIdx)] else old(Heads(extAddrHashMap))
    {
      hide NextExts;
      AllLinksAt(pool);
      if prev == null {
        SetHead(extAddrHashMap, b, link.nextExtAddrIdx);
      } else {
        SetNextExt(prev, link.nextExtAddrIdx);
      }
      SetNextExt(link, INVALID_IDX);
    }

    /** Unlinks a link from its bucket's chain and clears the flag. */
    method TakeOutExt(link: LinkNode, b: byte, prev: LinkNode?, ghost k: nat)
      requires Owns(link) && b < extAddrHashMap.Length && b < |exts|
      requires k < |exts[b]| && exts[b][k] == link.idx && forall j :: 0 <= j < |exts[b]| ==> exts[b][j] < |pool|
      requires prev != null <==> k > 0
      requires k > 0 ==> Owns(prev) && prev.idx == exts[b][k - 1]
      modifies pool`nextExtAddrIdx, link`hasExtAddr, extAddrHashMap, `exts
      ensures link.Value() == old(link.Value()).(ext := None)
      ensures Links(pool) == old(Links(pool))[link.idx := link.Value()]
      ensures NextExts(pool) == Unlinked(old(NextExts(pool)), old(exts[b]), k)
      ensures Heads(extAddrHashMap) ==
              if k == 0 then old(Heads(extAddrHashMap))[b := old(NextExts(pool))[link.idx]] else old(Heads(extAddrHashMap))
      ensures exts == old(exts)[b := Without(old(exts[b]), k)]
    {
      hide Unlinked, Without, Heads, LinkNode.Value, Links, NextExts;
      LinksAt(pool, link.idx);
      UnlinkExt(link, b, prev, exts[b], k);
      ForgetExt(link);
      exts := exts[b := Without(exts[b], k)];
    }

    /** Takes a link out of the index of extended addresses, if it is there. */
    method RemoveFromHashTableForExtAddr(link: LinkNode)
      requires ExtsIndexed() && FreeChained() && Owns(link)
      modifies pool`nextExtAddrIdx, link`hasExtAddr, extAddrHashMap, `exts
      ensures ExtsIndexed() && FreeChained()
      ensures link.Value() == old(link.Value()).(ext := None)
      ensures Links(pool) == old(Links(pool))[link.idx := link.Value()]
    {
      hide Indexed, Chain, FreeList, Links, NextExts, ExtKeys, Unlinked, Without, Heads, ShrtKeys;
      LinksAt(pool, link.idx);
      if !link.hasExtAddr {
        return;
      }
      hide InBucket, Bucket, Head, LinkNode.Value, Shape;
      ghost var now := link.Value().(ext := None);
      var b, prev, k := LocateExt(link);
      ghost var links, keys, nexts := Links(pool), ExtKeys(Links(pool)), NextExts(pool);
      IndexedRemove(keys, nexts, Heads(extAddrHashMap), exts, b, k);
      IndexedChain(keys, nexts, Heads(extAddrHashMap), exts, b);
      FreeUntouched(links, nexts, firstLinkInPool, free, exts[b], k, extAddrHashMap.Length, b, now);
      KeysUpdate(links, link.idx, now);
      TakeOutExt(link, b, prev, k);
    }

    /** Where a link with a short address is: its bucket, the link before it on the chain, and its place. */
    method LocateShrt(link: LinkNode) returns (b: byte, prev: LinkNode?, ghost k: nat)
      requires Shape() && ShrtsIndexed() && Owns(link) && link.hasShrtAddr
      ensures b < shrtAddrHashMap.Length && b < |shrts| && k < |shrts[b]| && shrts[b][k] == link.idx
      ensures prev != null <==> k > 0
      ensures k > 0 ==> Owns(prev) && prev.idx == shrts[b][k - 1]
    {
      hide Indexed, Chain, Links, NextShrts, ShrtKeys;
      b := Hash(link.shrtAddr, shrtAddrHashMap.Length);
      ghost var keys, nexts := ShrtKeys(Links(pool)), NextShrts(pool);
      AllLinksAt(pool);
      IndexedChain(keys, nexts, Heads(shrtAddrHashMap), shrts, b);
      ghost var c := shrts[b];
      assert InBucket(keys, link.idx, b, shrtAddrHashMap.Length);
      ChainLinks(nexts, shrtAddrHashMap[b], c);
      prev := null;
      var curr := shrtAddrHashMap[b];
      k := 0;
      while curr != link.idx && curr < |pool|
        invariant k <= |c|
        invariant curr == if k < |c| then c[k] else INVALID_IDX
        invariant if k > 0 then prev == pool[c[k - 1]] else prev == null
        invariant forall j :: 0 <= j < k ==> c[j] != link.idx
        decreases |c| - k
      {
        prev := pool[curr];
        assert nexts[curr] == prev.nextShrtAddrIdx;
        curr := prev.nextShrtAddrIdx;
        k := k + 1;
      }
    }

    /** Clears the flag of the short address. */
    method ForgetShrt(link: LinkNode)
      requires Owns(link)
      modifies link`hasShrtAddr
      ensures !link.hasShrtAddr && link.Value() == old(link.Value()).(short := None)
      ensures Links(pool) == old(Links(pool))[link.idx := link.Value()]
    {
      ghost var was := Links(pool);
      AllLinksAt(pool);
      link.hasShrtAddr := false;
      LinkChanged(was, link.idx);
    }

    /** Unlinks a link from its bucket's chain of short addresses. */
    method UnlinkShrt(link: LinkNode, b: byte, prev: LinkNode?, ghost c: seq<nat>, ghost k: nat)
      requires Owns(link) && b < shrtAddrHashMap.Length
      requires k < |c| && c[k] == link.idx && forall j :: 0 <= j < |c| ==> c[j] < |pool|
      requires prev != null <==> k > 0
      requires k > 0 ==> Owns(prev) && prev.idx == c[k - 1]
      modifies pool`nextShrtAddrIdx, shrtAddrHashMap
      ensures NextShrts(pool) == Unlinked(old(NextShrts(pool)), c, k)
      ensures Heads(shrtAddrHashMap) ==
              if k == 0 then old(Heads(shrtAddrHashMap))[b := old(link.nextShrtAddrIdx)] else old(Heads(shrtAddrHashMap))
    {
      hide NextShrts;
      AllLinksAt(pool);
      if prev == null {
        SetHead(shrtAddrHashMap, b, link.nextShrtAddrIdx);
      } else {
        SetNextShrt(prev, link.nextShrtAddrIdx);
      }
      SetNextShrt(link, INVALID_IDX);
    }

    /** Unlinks a link from its bucket's chain and clears the flag. */
    method TakeOutShrt(link: LinkNode, b: byte, prev: LinkNode?, ghost k: nat)
      requires Owns(link) && b < shrtAddrHashMap.Length && b < |shrts|
      requires k < |shrts[b]| && shrts[b][k] == link.idx && forall j :: 0 <= j < |shrts[b]| ==> shrts[b][j] < |pool|
      requires prev != null <==> k > 0
      requires k > 0 ==> Owns(prev) && prev.idx == shrts[b][k - 1]
      modifies pool`nextShrtAddrIdx, link`hasShrtAddr, shrtAddrHashMap, `shrts
      ensures link.Value() == old(link.Value()).(short := None)
      ensures Links(pool) == old(Links(pool))[link.idx := link.Value()]
      ensures NextShrts(pool) == Unlinked(old(NextShrts(pool)), old(shrts[b]), k)
      ensures Heads(shrtAddrHashMap) ==
              if k == 0 then old(Heads(shrtAddrHashMap))[b := old(NextShrts(pool))[link.idx]] else old(Heads(shrtAddrHashMap))
      ensures shrts == old(shrts)[b := Without(old(shrts[b]), k)]
    {
      hide Unlinked, Without, Heads, LinkNode.Value, Links, NextShrts;
      LinksAt(pool, link.idx);
      UnlinkShrt(link, b, prev, shrts[b], k);
      ForgetShrt(link);
      shrts := shrts[b := Without(shrts[b], k)];
    }

    /** Takes a link out of the index of short addresses, if it is there. */
    method RemoveFromHashTableForShortAddr(link: LinkNode)
      requires ShrtsIndexed() && FreeChained() && Owns(link)
      modifies pool`nextShrtAddrIdx, link`hasShrtAddr, shrtAddrHashMap, `shrts
      ensures ShrtsIndexed() && FreeChained()
      ensures link.Value() == old(link.Value()).(short := None)
      ensures Links(pool) == old(Links(pool))[link.idx := link.Value()]
    {
      hide Indexed, Chain, FreeList, Links, NextShrts, NextExts, ShrtKeys, Unlinked, Without, Heads, ExtKeys;
      LinksAt(pool, link.idx);
      if !link.hasShrtAddr {
        return;
      }
      assert (link.Value().(short := None)).Allocated() ==> link.Value().Allocated();
      hide InBucket, Bucket, Head, LinkNode.Value, Shape;
      ghost var now := link.Value().(short := None);
      var b, prev, k := LocateShrt(link);
      ghost var links, keys, nexts := Links(pool), ShrtKeys(Links(pool)), NextShrts(pool);
      IndexedRemove(keys, nexts, Heads(shrtAddrHashMap), shrts, b, k);
      FreeUpdate(links, NextExts(pool), firstLinkInPool, free, link.idx, now);
      KeysUpdate(links, link.idx, now);
      TakeOutShrt(link, b, prev, k);
    }

    /** The index of short addresses stays when one link changes but not its short address. */
    twostate lemma ShrtsStay(i: nat)
      requires old(ShrtsIndexed()) && i < |pool|
      requires Links(pool) == old(Links(pool))[i := pool[i].Value()]
               && pool[i].Value().short == old(Links(pool))[i].short
      requires NextShrts(pool) == old(NextShrts(pool)) && Heads(shrtAddrHashMap) == old(Heads(shrtAddrHashMap))
      requires unchanged(`shrts)
      ensures ShrtsIndexed()
    {
      hide Indexed, ShrtKeys, ExtKeys;
      KeysUpdate(old(Links(pool)), i, pool[i].Value());
    }

    /** The index of extended addresses stays when one link changes but not its extended address. */
    twostate lemma ExtsStay(i: nat)
      requires old(ExtsIndexed()) && i < |pool|
      requires Links(pool) == old(Links(pool))[i := pool[i].Value()] && pool[i].Value().ext == old(Links(pool))[i].ext
      requires NextExts(pool) == old(NextExts(pool)) && Heads(extAddrHashMap) == old(Heads(extAddrHashMap))
      requires unchanged(`exts)
      ensures ExtsIndexed()
    {
      hide Indexed, ShrtKeys, ExtKeys;
      KeysUpdate(old(Links(pool)), i, pool[i].Value());
    }

    /** Takes a link out of both indices. */
    method Unindex(link: LinkNode)
      requires Structured() && Owns(link)
      modifies pool`nextExtAddrIdx, pool`nextShrtAddrIdx, link`hasExtAddr, link`hasShrtAddr
      modifies extAddrHashMap, shrtAddrHashMap, `exts, `shrts
      ensures Structured()
      ensures Links(pool) == old(Links(pool))[link.idx := old(link.Value()).(ext := None, short := None)]
    {
      hide ExtsIndexed, ShrtsIndexed, FreeChained, Heads, Links, NextExts, NextShrts;
      LinksAt(pool, link.idx);
      RemoveFromHashTableForExtAddr(link);
      ShrtsStay(link.idx);
      label L:
      RemoveFromHashTableForShortAddr(link);
      ExtsStay@L(link.idx);
    }

    /** Clears the flags of a link that is in no index. */
    method ClearFlags(link: LinkNode)
      requires Structured() && Owns(link) && !link.Value().Allocated()
      modifies link`init, link`refreshed, link`reclaimable, link`pinned
      ensures Structured()
      ensures Links(pool) == old(Links(pool))[link.idx := M.Cleared(old(link.Value()))]
    {
      hide ExtsIndexed, ShrtsIndexed, Heads, Links, NextExts, NextShrts, FreeList;
      ghost var was := Links(pool);
      AllLinksAt(pool);
      link.init, link.refreshed, link.reclaimable, link.pinned := false, false, false, false;
      LinkChanged(was, link.idx);
      ShrtsStay(link.idx);
      ExtsStay(link.idx);
      FreeUpdate(was, NextExts(pool), firstLinkInPool, free, link.idx, link.Value());
    }

    /** Puts a link that is in no index in front of the free list. */
    method PushFree(link: LinkNode)
      requires Structured() && Owns(link) && !link.Value().Allocated() && link.idx !in free
      modifies `firstLinkInPool, `free, link`nextExtAddrIdx
      ensures Structured() && free == [link.idx] + old(free)
      ensures Links(pool) == old(Links(pool))
    {
      hide Indexed, Chain, Links, NextExts, NextShrts, ShrtKeys, ExtKeys, Heads;
      LinksAt(pool, link.idx);
      ghost var links, nexts := Links(pool), NextExts(pool);
      IndexedFrame(ExtKeys(links), nexts, Heads(extAddrHashMap), exts, link.idx, firstLinkInPool);
      ChainPush(nexts, firstLinkInPool, free, link.idx);
      SetNextExt(link, firstLinkInPool);
      firstLinkInPool := link.idx;
      free := [link.idx as int] + free;
    }

    /** Frees a link, if it is allocated. */
    method RemoveExistingLink(index: byte)
      requires Valid()
      modifies this, pool, extAddrHashMap, shrtAddrHashMap
      ensures Valid() && Abs() == M.Remove(old(Abs()), index)
    {
      hide Structured, M.WellFormed, Links, M.Remove, M.Cleared, LinkNode.Value, NextExts, NextShrts, Heads;
      M.RemoveWellFormed(Abs(), index);
      ghost var was := Abs();
      if index >= |pool| {
        RemoveIs(was, index);
        return;
      }
      var link := pool[index];
      LinksAt(pool, index);
      RemoveIs(was, index);
      AllocatedIff(link);
      if !link.hasExtAddr && !link.hasShrtAddr {
        return;
      }
      NotFree(index);
      Unindex(link);
      LinksAt(pool, index);
      ClearFlags(link);
      LinksAt(pool, index);
      PushFree(link);
      assert Links(pool) == was.links[index := M.Cleared(was.links[index])];
    }

    lemma AllocatedIff(link: LinkNode)
      ensures link.Value().Allocated() <==> link.hasExtAddr || link.hasShrtAddr
    {
    }

    lemma RemoveIs(t: M.Table, i: nat)
      ensures M.Remove(t, i) ==
              if i >= |t.links| || !t.links[i].Allocated() then t
              else M.Table(t.links[i := M.Cleared(t.links[i])], [i] + t.free)
      ensures i < |t.links| ==> var l := M.Cleared(t.links[i]);
                                !l.Allocated() && l == M.Cleared(t.links[i].(ext := None, short := None))
    {
    }

    lemma {:induction false} NotFree(i: nat)
      requires Valid() && i < |pool| && pool[i].Value().Allocated()
      ensures i !in free && Owns(pool[i])
    {
      LinksAt(pool, i);
    }

    static function IndexOrInvalid(r: Option<nat>): int {
      if r.Some? then r.value else INVALID_IDX
    }

    /** The link with the address, as a linear scan finds it. */
    method LookupLink(addr: LinkAddr) returns (r: byte)
      requires Valid()
      ensures r == IndexOrInvalid(M.Lookup(Abs(), addr))
    {
      r := INVALID_IDX;
      match addr {
        case NoAddr =>
        case Short(s) => r := LookupShrt(s);
        case Extended(e) => r := LookupExt(e);
      }
    }

    /** Searches the chain of bucket b. */
    method SearchShrt(addr: ShortAddr, b: byte) returns (r: byte, ghost k: nat)
      requires Shape() && ShrtsIndexed() && b < shrtAddrHashMap.Length
      ensures b < |shrts| && k <= |shrts[b]| && r == if k < |shrts[b]| then shrts[b][k] else INVALID_IDX
      ensures forall j :: 0 <= j < |shrts[b]| ==> shrts[b][j] < |pool|
      ensures forall j :: 0 <= j < k ==> Links(pool)[shrts[b][j]].short != Some(addr)
      ensures k < |shrts[b]| ==> Links(pool)[shrts[b][k]].short == Some(addr)
    {
      hide Indexed, Chain, Links, NextExts, NextShrts, ShrtKeys, ExtKeys, Heads, Bucket, InBucket;
      ghost var links, nexts := Links(pool), NextShrts(pool);
      AllLinksAt(pool);
      IndexedChain(ShrtKeys(links), nexts, Heads(shrtAddrHashMap), shrts, b);
      HeadsAt(shrtAddrHashMap, b);
      ghost var c := shrts[b];
      ChainLinks(nexts, shrtAddrHashMap[b], c);
      BucketKeys(ShrtKeys(links), c, b, shrtAddrHashMap.Length);
      r := shrtAddrHashMap[b];
      k := 0;
      while r < |pool| && pool[r].shrtAddr != addr
        invariant k <= |c|
        invariant r == if k < |c| then c[k] else INVALID_IDX
        invariant forall j :: 0 <= j < k ==> links[c[j]].short != Some(addr)
        decreases |c| - k
      {
        assert links[r] == pool[r].Value() && nexts[r] == pool[r].nextShrtAddrIdx;
        r := pool[r].nextShrtAddrIdx;
        k := k + 1;
      }
      assert r < |pool| ==> links[r] == pool[r].Value();
    }

    method LookupShrt(addr: ShortAddr) returns (r: byte)
      requires Valid()
      ensures r == IndexOrInvalid(M.Lookup(Abs(), Short(addr)))
    {
      hide Indexed, Chain, Links, NextExts, NextShrts, ShrtKeys, ExtKeys, Heads, M.WellFormed, FreeList, Bucket,
            InBucket;
      hide M.Scan, M.Lookup, M.Link.Has;
      var b := Hash(addr, shrtAddrHashMap.Length);
      ghost var links, k := Links(pool), 0;
      r, k := SearchShrt(addr, b);
      IndexedChain(ShrtKeys(links), NextShrts(pool), Heads(shrtAddrHashMap), shrts, b);
      HasKey(links, addr, [0, 0, 0, 0, 0, 0, 0, 0]);
      LookupByChain(Abs(), Short(addr), ShrtKeys(links), addr, shrts[b], shrtAddrHashMap.Length, k);
    }

    /** Searches the chain of bucket b. */
    method SearchExt(addr: ExtAddr, b: byte) returns (r: byte, ghost k: nat)
      requires Shape() && ExtsIndexed() && b < extAddrHashMap.Length
      ensures b < |exts| && k <= |exts[b]| && r == if k < |exts[b]| then exts[b][k] else INVALID_IDX
      ensures forall j :: 0 <= j < |exts[b]| ==> exts[b][j] < |pool|
      ensures forall j :: 0 <= j < k ==> Links(pool)[exts[b][j]].ext != Some(addr)
      ensures k < |exts[b]| ==> Links(pool)[exts[b][k]].ext == Some(addr)
    {
      hide Indexed, Chain, Links, NextExts, NextShrts, ShrtKeys, ExtKeys, Heads, Bucket, InBucket;
      ghost var links, nexts := Links(pool), NextExts(pool);
      AllLinksAt(pool);
      IndexedChain(ExtKeys(links), nexts, Heads(extAddrHashMap), exts, b);
      HeadsAt(extAddrHashMap, b);
      ghost var c := exts[b];
      ChainLinks(nexts, extAddrHashMap[b], c);
      BucketKeys(ExtKeys(links), c, b, extAddrHashMap.Length);
      r := extAddrHashMap[b];
      k := 0;
      while r < |pool| && pool[r].extAddr != addr
        invariant k <= |c|
        invariant r == if k < |c| then c[k] else INVALID_IDX
        invariant forall j :: 0 <= j < k ==> links[c[j]].ext != Some(addr)
        decreases |c| - k
      {
        assert links[r] == pool[r].Value() && nexts[r] == pool[r].nextExtAddrIdx;
        r := pool[r].nextExtAddrIdx;
        k := k + 1;
      }
      assert r < |pool| ==> links[r] == pool[r].Value();
    }

    method LookupExt(addr: ExtAddr) returns (r: byte)
      requires Valid()
      ensures r == IndexOrInvalid(M.Lookup(Abs(), Extended(addr)))
    {
      hide Indexed, Chain, Links, NextExts, NextShrts, ShrtKeys, ExtKeys, Heads, M.WellFormed, FreeList, Bucket,
            InBucket;
      hide M.Scan, M.Lookup, M.Link.Has;
      var b := Hash(addr, extAddrHashMap.Length);
      ghost var links, k := Links(pool), 0;
      r, k := SearchExt(addr, b);
      IndexedChain(ExtKeys(links), NextExts(pool), Heads(extAddrHashMap), exts, b);
      HasKey(links, [0, 0], addr);
      LookupByChain(Abs(), Extended(addr), ExtKeys(links), addr, exts[b], extAddrHashMap.Length, k);
    }

    lemma HeadsAt(map_: array<byte>, b: nat)
      requires b < map_.Length
      ensures Heads(map_)[b] == map_[b]
    {
    }

    /** Frees the worst link that may be removed, if there is one. */
    method TryToEvictWorstLink()
      requires Valid()
      modifies this, pool, extAddrHashMap, shrtAddrHashMap
      ensures Valid() && Abs() == M.Evict(old(Abs()))
    {
      hide ExtsIndexed, ShrtsIndexed, FreeChained, M.WellFormed, Links, M.Remove;
      ghost var links := Links(pool);
      AllLinksAt(pool);
      var worstEtx: uint16 := 0;
      var worstIdx: byte := INVALID_IDX;
      for i := 0 to |pool|
        invariant var w := M.Worst(links, i);
                  && worstIdx == IndexOrInvalid(w)
                  && worstEtx == if w.Some? then links[w.value].quality.etx else 0
      {
        var link := pool[i];
        assert links[i] == link.Value();
        if (link.hasExtAddr || link.hasShrtAddr) && !link.init && !link.pinned {
          var currEtx := link.quality.etx;
          if worstEtx < currEtx {
            worstEtx := currEtx;
            worstIdx := link.idx;
          }
        }
      }
      if worstIdx == INVALID_IDX {
        return;
      }
      RemoveExistingLink(worstIdx);
    }

    /** Takes the first link of the free list. */
    method PopFree() returns (link: LinkNode)
      requires Structured() && |free| > 0
      modifies `firstLinkInPool, `free
      ensures Owns(link) && link.idx == old(free[0]) && !link.Value().Allocated()
      ensures Structured() && free == old(free)[1..] && link.idx !in free
    {
      hide Indexed, Links, NextExts, NextShrts, ShrtKeys, ExtKeys, Heads;
      ghost var links, nexts := Links(pool), NextExts(pool);
      AllLinksAt(pool);
      ChainPop(nexts, firstLinkInPool, free);
      ChainLinks(nexts, firstLinkInPool, free);
      link := pool[firstLinkInPool];
      firstLinkInPool := link.nextExtAddrIdx;
      free := free[1..];
    }

    /** Makes a link that is in no index and on no list a new one. */
    method Initialize(link: LinkNode, addr: LinkAddr)
      requires Structured() && Owns(link) && link.idx !in free && !addr.NoAddr?
      modifies link`extAddr, link`shrtAddr, link`hasExtAddr, link`hasShrtAddr
      modifies link`init, link`refreshed, link`reclaimable, link`pinned, link`quality
      ensures Shape() && FreeChained()
      ensures Links(pool) == old(Links(pool))[link.idx := M.NewLink(addr)]
      ensures NextExts(pool) == old(NextExts(pool)) && NextShrts(pool) == old(NextShrts(pool))
    {
      hide ExtsIndexed, ShrtsIndexed, Heads, Links, NextExts, NextShrts, Chain;
      ghost var was := Links(pool);
      AllLinksAt(pool);
      link.Become(addr);
      LinkChanged(was, link.idx);
    }

    /** Puts a link that got a short address in front of the address's chain. */
    method IndexShrt(link: LinkNode, addr: ShortAddr, ghost keys: seq<Option<seq<byte>>>)
      requires Shape() && Owns(link) && Indexed(keys, NextShrts(pool), Heads(shrtAddrHashMap), shrts)
      requires keys[link.idx].None? && ShrtKeys(Links(pool)) == keys[link.idx := Some(addr)]
      modifies link`nextShrtAddrIdx, shrtAddrHashMap, `shrts
      ensures ShrtsIndexed()
    {
      hide Indexed, Links, NextShrts, ShrtKeys, Bucket;
      IndexedSizes(keys, NextShrts(pool), Heads(shrtAddrHashMap), shrts);
      IndexedAdd(keys, NextShrts(pool), Heads(shrtAddrHashMap), shrts, link.idx, addr);
      var b := Hash(addr, shrtAddrHashMap.Length);
      SetNextShrt(link, shrtAddrHashMap[b]);
      SetHead(shrtAddrHashMap, b, link.idx);
      shrts := shrts[b := [link.idx as int] + shrts[b]];
    }

    /** Puts a link that got an extended address in front of the address's chain. */
    method IndexExt(link: LinkNode, addr: ExtAddr, ghost keys: seq<Option<seq<byte>>>)
      requires Shape() && Owns(link) && Indexed(keys, NextExts(pool), Heads(extAddrHashMap), exts)
      requires keys[link.idx].None? && ExtKeys(Links(pool)) == keys[link.idx := Some(addr)]
      requires FreeChained() && link.idx !in free
      modifies link`nextExtAddrIdx, extAddrHashMap, `exts
      ensures ExtsIndexed() && FreeChained()
    {
      hide Indexed, Links, NextExts, ExtKeys, Bucket, FreeList;
      IndexedSizes(keys, NextExts(pool), Heads(extAddrHashMap), exts);
      IndexedAdd(keys, NextExts(pool), Heads(extAddrHashMap), exts, link.idx, addr);
      var b := Hash(addr, extAddrHashMap.Length);
      FreeSkips(Links(pool), NextExts(pool), firstLinkInPool, free, link.idx, extAddrHashMap[b]);
      SetNextExt(link, extAddrHashMap[b]);
      SetHead(extAddrHashMap, b, link.idx);
      exts := exts[b := [link.idx as int] + exts[b]];
    }

    /** Ends the chain of extended addresses at a link that has none. */
    method EndExt(link: LinkNode)
      requires Owns(link) && ExtsIndexed() && FreeChained() && link.idx !in free && ExtKeys(Links(pool))[link.idx].None?
      modifies link`nextExtAddrIdx
      ensures ExtsIndexed() && FreeChained()
    {
      hide Indexed, Links, NextExts, ExtKeys, FreeList;
      IndexedFrame(ExtKeys(Links(pool)), NextExts(pool), Heads(extAddrHashMap), exts, link.idx, INVALID_IDX);
      FreeSkips(Links(pool), NextExts(pool), firstLinkInPool, free, link.idx, INVALID_IDX);
      SetNextExt(link, INVALID_IDX);
    }

    /** Ends the chain of short addresses at a link that has none. */
    method EndShrt(link: LinkNode)
      requires Owns(link) && ShrtsIndexed() && ShrtKeys(Links(pool))[link.idx].None?
      modifies link`nextShrtAddrIdx
      ensures ShrtsIndexed()
    {
      hide Indexed, Links, NextShrts, ShrtKeys;
      IndexedFrame(ShrtKeys(Links(pool)), NextShrts(pool), Heads(shrtAddrHashMap), shrts, link.idx, INVALID_IDX);
      SetNextShrt(link, INVALID_IDX);
    }

    /** Allocates a link with a short address, for which the pool holds a free one. */
    method AllocateLinkForShortAddr(addr: ShortAddr) returns (idx: byte)
      requires Valid() && |free| > 0 && M.Lookup(Abs(), Short(addr)).None?
      modifies this, pool, shrtAddrHashMap
      ensures Valid() && M.Create(old(Abs()), Short(addr)) == (Abs(), Some(idx))
    {
      hide Indexed, Chain, FreeList, Links, NextExts, NextShrts, ShrtKeys, ExtKeys, Heads, M.WellFormed, M.Lookup,
            LinkNode.Value;
      M.CreateBinds(Abs(), Short(addr));
      ghost var links := Links(pool);
      var link := PopFree();
      LinksAt(pool, link.idx);
      Initialize(link, Short(addr));
      KeysUpdate(links, link.idx, M.NewLink(Short(addr)));
      EndExt(link);
      IndexShrt(link, addr, ShrtKeys(links));
      return link.idx;
    }

    /** Allocates a link with an extended address, for which the pool holds a free one. */
    method AllocateLinkForExtAddr(addr: ExtAddr) returns (idx: byte)
      requires Valid() && |free| > 0 && M.Lookup(Abs(), Extended(addr)).None?
      modifies this, pool, extAddrHashMap
      ensures Valid() && M.Create(old(Abs()), Extended(addr)) == (Abs(), Some(idx))
    {
      hide Indexed, Chain, FreeList, Links, NextExts, NextShrts, ShrtKeys, ExtKeys, Heads, M.WellFormed, M.Lookup,
            LinkNode.Value;
      M.CreateBinds(Abs(), Extended(addr));
      ghost var links := Links(pool);
      var link := PopFree();
      LinksAt(pool, link.idx);
      Initialize(link, Extended(addr));
      KeysUpdate(links, link.idx, M.NewLink(Extended(addr)));
      EndShrt(link);
      IndexExt(link, addr, ExtKeys(links));
      return link.idx;
    }

    /** The link with the address, or else a new one. */
    method FindExistingOrCreateNewLink(addr: LinkAddr, allowEviction: bool) returns (r: byte)
      requires Valid()
      modifies this, pool, extAddrHashMap, shrtAddrHashMap
      ensures Valid()
      ensures M.FreeInRange(old(Abs()))
      ensures var (t, i) := M.FindOrCreate(old(Abs()), addr, allowEviction); Abs() == t && r == IndexOrInvalid(i)
    {
      hide ExtsIndexed, ShrtsIndexed, Links, Heads, M.WellFormed, M.Lookup, M.Evict, M.Create, Chain;
      ghost var was := Abs();
      InRange(was, addr);
      r := LookupLink(addr);
      if r != INVALID_IDX {
        return;
      }
      M.MakeRoomWellFormed(was, allowEviction);
      M.MakeRoomKeepsOthers(was, allowEviction, addr);
      FreeStarts();
      if firstLinkInPool == INVALID_IDX {
        if !allowEviction {
          M.CreateBinds(was, addr);
          return INVALID_IDX;
        }
        TryToEvictWorstLink();
        FreeStarts();
        if firstLinkInPool == INVALID_IDX {
          M.CreateBinds(Abs(), addr);
          return INVALID_IDX;
        }
      }
      M.CreateBinds(Abs(), addr);
      match addr {
        case NoAddr => r := INVALID_IDX;
        case Short(s) => r := AllocateLinkForShortAddr(s);
        case Extended(e) => r := AllocateLinkForExtAddr(e);
      }
    }

    lemma InRange(t: M.Table, a: LinkAddr)
      requires M.WellFormed(t)
      ensures M.FreeInRange(t)
      ensures M.Lookup(t, a).Some? ==> M.Lookup(t, a).value < INVALID_IDX
    {
    }

    lemma FreeStarts()
      requires Valid()
      ensures firstLinkInPool == INVALID_IDX <==> |free| == 0
    {
    }

    // -- reports and sweeps ---------------------------------------------------------

    /** The structure stays when one link changes but not its addresses. */
    twostate lemma StructureStays(i: nat)
      requires old(Structured()) && i < |pool|
      requires Links(pool) == old(Links(pool))[i := pool[i].Value()]
      requires pool[i].Value().ext == old(Links(pool))[i].ext && pool[i].Value().short == old(Links(pool))[i].short
      requires NextExts(pool) == old(NextExts(pool)) && NextShrts(pool) == old(NextShrts(pool))
      requires Heads(extAddrHashMap) == old(Heads(extAddrHashMap))
               && Heads(shrtAddrHashMap) == old(Heads(shrtAddrHashMap))
      requires unchanged(this)
      ensures Structured()
    {
      hide ExtsIndexed, ShrtsIndexed, FreeList, Links, NextExts, NextShrts, Heads;
      ShrtsStay(i);
      ExtsStay(i);
      FreeUpdate(old(Links(pool)), NextExts(pool), firstLinkInPool, free, i, pool[i].Value());
    }

    method ReportBroadcastReceptionForExistingLink(index: byte, seqNo: byte)
      requires Valid() && index < |pool| && pool[index].Value().Allocated()
      modifies pool
      ensures Valid()
      ensures Abs() == old(Abs()).(links := old(Abs()).links[index := M.ReportBroadcast(old(pool[index].Value()), seqNo)])
    {
      hide ExtsIndexed, ShrtsIndexed, FreeChained, M.WellFormed, Links, NextExts, NextShrts, Heads, LinkNode.Value,
            AfterBeacon;
      ghost var links := Links(pool);
      AllLinksAt(pool);
      M.UpdateWellFormed(Abs(), index, M.ReportBroadcast(links[index], seqNo));
      pool[index].ReportBroadcastReception(seqNo);
      LinkChanged(links, index);
      StructureStays(index);
    }

    method ReportUnicastCompletionForExistingLink(index: byte, acked: bool)
      requires Valid() && index < |pool| && pool[index].Value().Allocated()
      modifies pool
      ensures Valid()
      ensures Abs() == old(Abs()).(links := old(Abs()).links[index := M.ReportUnicast(old(pool[index].Value()), acked)])
    {
      hide ExtsIndexed, ShrtsIndexed, FreeChained, M.WellFormed, Links, NextExts, NextShrts, Heads, LinkNode.Value,
            AfterUnicast;
      ghost var links := Links(pool);
      AllLinksAt(pool);
      M.UpdateWellFormed(Abs(), index, M.ReportUnicast(links[index], acked));
      pool[index].ReportUnicastCompletion(acked);
      LinkChanged(links, index);
      StructureStays(index);
    }

    /** The window of a sweep over the pool; it must not wrap in 8 bits. */
    method WindowOf(firstIdx: byte, numIdx: byte) returns (num: byte, more: bool)
      requires Shape()
      ensures (num, more) == M.Window(|pool|, firstIdx, numIdx)
    {
      var end := U8(numIdx + firstIdx);
      if firstIdx >= |pool| {
        return 0, false;
      }
      if end >= |pool| {
        end := |pool|;
        more := false;
      } else {
        more := true;
      }
      num := U8(end - firstIdx);
    }

    /** Marks the links of a window that were not refreshed since they were visited last. */
    method MarkUnrefreshedLinksForRemoval(firstIdx: byte, numIdx: byte) returns (more: bool)
      requires Valid() && M.WindowFits(|pool|, firstIdx, numIdx)
      modifies pool`refreshed, pool`reclaimable
      ensures Valid()
      ensures more == M.Window(|pool|, firstIdx, numIdx).1
      ensures Abs() == M.Mark(old(Abs()), firstIdx, numIdx)
    {
      hide ExtsIndexed, ShrtsIndexed, FreeChained, M.WellFormed, Links, NextExts, NextShrts, Heads, M.MarkFrom;
      M.WindowFitsIff(|pool|, firstIdx, numIdx);
      M.MarkWellFormed(Abs(), firstIdx, numIdx);
      ghost var links := Links(pool);
      var num: byte;
      num, more := WindowOf(firstIdx, numIdx);
      for i := 0 to num
        invariant Structured()
        invariant forall j :: 0 <= j < |pool| ==>
                    Links(pool)[j] == if firstIdx <= j < firstIdx + i then M.Marked(links[j]) else links[j]
      {
        MarkOne(pool[firstIdx + i]);
      }
      assert Links(pool) == M.Mark(old(Abs()), firstIdx, numIdx).links;
    }

    method MarkOne(link: LinkNode)
      requires Structured() && Owns(link)
      modifies link`refreshed, link`reclaimable
      ensures Structured() && Links(pool) == old(Links(pool))[link.idx := M.Marked(old(Links(pool)[link.idx]))]
    {
      hide ExtsIndexed, ShrtsIndexed, FreeChained, Links, NextExts, NextShrts, Heads;
      ghost var links := Links(pool);
      AllLinksAt(pool);
      if link.hasExtAddr || link.hasShrtAddr {
        if !link.refreshed {
          link.reclaimable := true;
        } else {
          link.refreshed := false;
        }
      }
      LinkChanged(links, link.idx);
      StructureStays(link.idx);
    }

    /** Removes links of a window that are marked for removal, at most maxRemoved. */
    method RemoveLinksMarkedForRemoval(firstIdx: byte, numIdx: byte, maxRemoved: byte) returns (more: bool)
      requires Valid() && M.SweepFits(Abs().links, firstIdx, numIdx, maxRemoved)
      modifies this, pool, extAddrHashMap, shrtAddrHashMap
      ensures Valid()
      ensures more == M.Window(|pool|, firstIdx, numIdx).1
      ensures Abs() == M.Sweep(old(Abs()), firstIdx, numIdx, maxRemoved)
    {
      hide ExtsIndexed, ShrtsIndexed, FreeChained, M.WellFormed, Links, M.Remove, M.SweepFrom, M.Doomed, M.SweepInPool;
      var num: byte;
      num, more := WindowOf(firstIdx, numIdx);
      ghost var range := M.SweepRange(|pool|, firstIdx, numIdx);
      ghost var first: nat, n: nat := range.0, range.1;
      var left, i := maxRemoved, 0;
      while i < num && left > 0
        invariant 0 <= i <= num && Valid()
        invariant num > 0 ==> first == firstIdx && M.SweepInPool(Abs().links, first + i, num - i, left)
        invariant i <= n && (n == num || (num > 0 && first + n == |pool|))
        invariant M.SweepFrom(old(Abs()), first, n, maxRemoved) == M.SweepFrom(Abs(), first + i, n - i, left)
        decreases num - i
      {
        SweepStays(Abs(), first + i, num - i, left);
        var link := pool[firstIdx + i];
        SweepStep(Abs(), first + i, n - i, left);
        var removed := SweepOne(link);
        left := if removed then left - 1 else left;
        i := i + 1;
      }
      SweepDone(Abs(), first + i, n - i, left);
    }

    /** Removes a link that is marked for removal and may be removed. */
    method SweepOne(link: LinkNode) returns (removed: bool)
      requires Valid() && Owns(link)
      modifies this, pool, extAddrHashMap, shrtAddrHashMap
      ensures Valid() && removed == M.Doomed(old(Links(pool))[link.idx])
      ensures Abs() == if removed then M.Remove(old(Abs()), link.idx) else old(Abs())
    {
      hide Structured, M.WellFormed, Links, M.Remove;
      LinksAt(pool, link.idx);
      removed := (link.hasExtAddr || link.hasShrtAddr) && !link.init && !link.pinned && link.reclaimable;
      if removed {
        RemoveExistingLink(link.idx);
      }
    }

    /** A sweep that stays in the pool is in it before a step, and stays in it after the step. */
    lemma SweepStays(t: M.Table, i: nat, n: nat, maxRemoved: nat)
      requires M.SweepInPool(t.links, i, n, maxRemoved) && n > 0 && maxRemoved > 0
      ensures i < |t.links|
      ensures if M.Doomed(t.links[i]) then M.SweepInPool(M.Remove(t, i).links, i + 1, n - 1, maxRemoved - 1)
              else M.SweepInPool(t.links, i + 1, n - 1, maxRemoved)
    {
      if i < |t.links| && M.Doomed(t.links[i]) {
        M.DoomedInSame(t.links, M.Remove(t, i).links, i + 1, |t.links| - i - 1);
      }
    }

    lemma SweepStep(t: M.Table, i: nat, n: nat, maxRemoved: nat)
      requires i + n <= |t.links| && n > 0 && maxRemoved > 0
      ensures M.SweepFrom(t, i, n, maxRemoved)
              == if M.Doomed(t.links[i]) then M.SweepFrom(M.Remove(t, i), i + 1, n - 1, maxRemoved - 1)
                 else M.SweepFrom(t, i + 1, n - 1, maxRemoved)
    {
    }

    lemma SweepDone(t: M.Table, i: nat, n: nat, maxRemoved: nat)
      requires i + n <= |t.links| && (n == 0 || maxRemoved == 0)
      ensures M.SweepFrom(t, i, n, maxRemoved) == t
    {
    }

    constructor (pool: seq<LinkNode>, extAddrHashMap: array<byte>, shrtAddrHashMap: array<byte>)
      requires |pool| <= 0xff && (forall i :: 0 <= i < |pool| ==> pool[i].idx == i)
      requires 0 < extAddrHashMap.Length <= 0xff && 0 < shrtAddrHashMap.Length <= 0xff
               && extAddrHashMap != shrtAddrHashMap
      ensures this.pool == pool && this.extAddrHashMap == extAddrHashMap && this.shrtAddrHashMap == shrtAddrHashMap
      ensures Shape()
    {
      this.pool, this.extAddrHashMap, this.shrtAddrHashMap := pool, extAddrHashMap, shrtAddrHashMap;
      firstLinkInPool := INVALID_IDX;
      free, exts, shrts := [], [], [];
    }

    /** Frees all links, in index order. */
    method Reset()
      requires Shape()
      modifies this, pool, extAddrHashMap, shrtAddrHashMap
      ensures Valid() && Abs() == M.Reset(old(Links(pool)))
    {
      hide Indexed, Chain, Links, NextExts, NextShrts, ExtKeys, ShrtKeys, Heads, M.WellFormed, M.FreeFrom, M.ClearedAll;
      ghost var links := Links(pool);
      M.ResetOk(links);
      ResetLinks();
      FillInvalid(extAddrHashMap);
      FillInvalid(shrtAddrHashMap);
      free := M.FreeFrom(0, |pool|);
      exts := seq(extAddrHashMap.Length, _ => []);
      shrts := seq(shrtAddrHashMap.Length, _ => []);
      var cleared := Links(pool);
      NothingIndexed(ExtKeys(cleared), NextExts(pool), Heads(extAddrHashMap), exts);
      NothingIndexed(ShrtKeys(cleared), NextShrts(pool), Heads(shrtAddrHashMap), shrts);
    }

    method ResetLinks()
      requires Shape()
      modifies `firstLinkInPool, pool
      ensures Links(pool) == M.ClearedAll(old(Links(pool)))
      ensures Chain(NextExts(pool), firstLinkInPool, M.FreeFrom(0, |pool|))
    {
      hide Links, NextExts, NextShrts, M.Cleared, LinkNode.Value, Chain, M.FreeFrom, M.ClearedAll;
      var num := |pool|;
      ghost var was := Links(pool);
      AllLinksAt(pool);
      for i := 0 to num
        invariant forall j :: 0 <= j < i ==>
                    pool[j].nextExtAddrIdx == (if j + 1 < num then j + 1 else INVALID_IDX)
                    && pool[j].Value() == M.Cleared(was[j])
        invariant forall j :: i <= j < num ==> pool[j].Value() == was[j]
      {
        pool[i].Clear();
        pool[i].nextExtAddrIdx := if i + 1 < num then i + 1 else INVALID_IDX;
      }
      firstLinkInPool := if num > 0 then 0 else INVALID_IDX;
      AllLinksAt(pool);
      AllChained(NextExts(pool), firstLinkInPool);
    }

    lemma AllChained(nexts: seq<byte>, first: byte)
      requires |nexts| <= 0xff && first == if |nexts| > 0 then 0 else INVALID_IDX
      requires forall j :: 0 <= j < |nexts| ==> nexts[j] == if j + 1 < |nexts| then j + 1 else INVALID_IDX
      ensures Chain(nexts, first, M.FreeFrom(0, |nexts|))
    {
    }

    lemma NothingIndexed(keys: seq<Option<seq<byte>>>, nexts: seq<byte>, heads: seq<byte>, chains: seq<seq<nat>>)
      requires |keys| == |nexts| <= 0xff && |heads| == |chains| > 0
      requires forall i :: 0 <= i < |keys| ==> keys[i].None?
      requires forall b :: 0 <= b < |heads| ==> heads[b] == INVALID_IDX && chains[b] == []
      ensures Indexed(keys, nexts, heads, chains)
    {
    }

    static method FillInvalid(map_: array<byte>)
      modifies map_
      ensures forall b :: 0 <= b < map_.Length ==> map_[b] == INVALID_IDX
    {
      for i := 0 to map_.Length
        invariant forall b :: 0 <= b < i ==> map_[b] == INVALID_IDX
      {
        map_[i] := INVALID_IDX;
      }
    }

    /** Every link is in exactly one place: on the free list, or on the chain of the bucket of
        its one address; and no list or chain holds it twice. */
    lemma EveryLinkInOnePlace(i: nat)
      requires Valid() && i < |pool|
      ensures var l := pool[i].Value();
              && |exts| == extAddrHashMap.Length && |shrts| == shrtAddrHashMap.Length
              && (i in free <==> !l.Allocated())
              && (l.ext.None? || l.short.None?)
              && (forall b :: 0 <= b < |exts| ==> (i in exts[b] <==> l.ext.Some? && Bucket(l.ext.value, |exts|) == b))
              && (forall b :: 0 <= b < |shrts| ==>
                    (i in shrts[b] <==> l.short.Some? && Bucket(l.short.value, |shrts|) == b))
      ensures forall j, k :: 0 <= j < k < |free| ==> free[j] != free[k]
      ensures forall b, j, k :: 0 <= b < |exts| && 0 <= j < k < |exts[b]| ==> exts[b][j] != exts[b][k]
      ensures forall b, j, k :: 0 <= b < |shrts| && 0 <= j < k < |shrts[b]| ==> shrts[b][j] != shrts[b][k]
    {
      hide Links, Bucket;
      LinksAt(pool, i);
      forall b | 0 <= b < |exts|
        ensures i in exts[b] <==> pool[i].Value().ext.Some? && Bucket(pool[i].Value().ext.value, |exts|) == b
      {
        assert i in exts[b] <==> InBucket(ExtKeys(Links(pool)), i, b, |exts|);
      }
      forall b | 0 <= b < |shrts|
        ensures i in shrts[b] <==> pool[i].Value().short.Some? && Bucket(pool[i].Value().short.value, |shrts|) == b
      {
        assert i in shrts[b] <==> InBucket(ShrtKeys(Links(pool)), i, b, |shrts|);
      }
    }
  }

  lemma FreeSkips(links: seq<M.Link>, nexts: seq<byte>, first: byte, free: seq<nat>, i: nat, v: byte)
    requires FreeList(links, nexts, first, free) && i < |nexts| && i !in free
    ensures FreeList(links, nexts[i := v], first, free)
  {
    ChainFrame(nexts, nexts[i := v], first, free);
  }

  lemma BucketKeys(keys: seq<Option<seq<byte>>>, c: seq<nat>, b: nat, numBuckets: nat)
    requires numBuckets > 0 && forall i: nat :: i in c <==> InBucket(keys, i, b, numBuckets)
    ensures forall j :: 0 <= j < |c| ==> c[j] < |keys| && keys[c[j]].Some?
  {
    forall j | 0 <= j < |c|
      ensures c[j] < |keys| && keys[c[j]].Some?
    {
      assert InBucket(keys, c[j], b, numBuckets);
    }
  }

  lemma HasKey(links: seq<M.Link>, s: ShortAddr, e: ExtAddr)
    ensures forall i :: 0 <= i < |links| ==> (links[i].Has(Short(s)) <==> ShrtKeys(links)[i] == Some(s))
    ensures forall i :: 0 <= i < |links| ==> (links[i].Has(Extended(e)) <==> ExtKeys(links)[i] == Some(e))
  {
    hide ShrtKeys, ExtKeys;
  }

  /** The search of a key's bucket for the key finds what a linear scan for the address finds. */
  lemma LookupByChain(t: M.Table, addr: LinkAddr, keys: seq<Option<seq<byte>>>, key: seq<byte>, c: seq<nat>,
        numBuckets: nat, k: nat)
    requires M.WellFormed(t) && |keys| == |t.links| && numBuckets > 0
    requires forall i :: 0 <= i < |keys| ==> (t.links[i].Has(addr) <==> keys[i] == Some(key))
    requires forall i: nat :: i in c <==> InBucket(keys, i, Bucket(key, numBuckets), numBuckets)
    requires forall j :: 0 <= j < |c| ==> c[j] < |keys|
    requires k <= |c| && forall j :: 0 <= j < k ==> keys[c[j]] != Some(key)
    requires k < |c| ==> keys[c[k]] == Some(key)
    ensures M.Lookup(t, addr) == if k < |c| then Some(c[k]) else None
  {
    if k < |c| {
      M.LookupIs(t, addr, c[k]);
    } else {
      forall i: nat | i < |keys|
        ensures keys[i] != Some(key)
      {
        assert keys[i] == Some(key) ==> InBucket(keys, i, Bucket(key, numBuckets), numBuckets) && i in c;
      }
    }
  }

  /** The free list does not depend on a link that is on it only if it is not allocated. */
  lemma FreeUpdate(links: seq<M.Link>, nexts: seq<byte>, first: byte, free: seq<nat>, i: nat, l: M.Link)
    requires FreeList(links, nexts, first, free) && i < |links|
    requires l.Allocated() ==> links[i].Allocated()
    ensures FreeList(links[i := l], nexts, first, free)
  {
  }

  lemma KeysUpdate(links: seq<M.Link>, i: nat, l: M.Link)
    requires i < |links|
    ensures ExtKeys(links[i := l]) == ExtKeys(links)[i := l.ext]
    ensures ShrtKeys(links[i := l]) == ShrtKeys(links)[i := l.short]
    ensures l.ext == links[i].ext ==> ExtKeys(links[i := l]) == ExtKeys(links)
    ensures l.short == links[i].short ==> ShrtKeys(links[i := l]) == ShrtKeys(links)
  {
    hide ExtKeys, ShrtKeys;
  }

  /** The free list is no part of a chain of elements with keys. */
  lemma FreeUntouched(links: seq<M.Link>, nexts: seq<byte>, first: byte, free: seq<nat>, c: seq<nat>, k: nat,
                      numBuckets: nat, b: nat, l: M.Link)
    requires FreeList(links, nexts, first, free) && k < |c| && numBuckets > 0
    requires forall j :: 0 <= j < |c| ==> c[j] < |nexts|
    requires forall i: nat :: i in c <==> InBucket(ExtKeys(links), i, b, numBuckets)
    ensures FreeList(links[c[k] := l], Unlinked(nexts, c, k), first, free)
  {
    forall j | 0 <= j < |free|
      ensures free[j] !in c
    {
      assert !InBucket(ExtKeys(links), free[j], b, numBuckets);
    }
    ChainFrame(nexts, Unlinked(nexts, c, k), first, free);
  }

  lemma ChainLinks(nexts: seq<byte>, start: byte, c: seq<nat>)
    requires Chain(nexts, start, c)
    ensures start == Head(c)
    ensures forall k :: 0 <= k < |c| ==> c[k] < |nexts|
    ensures forall k {:trigger nexts[c[k]]} :: 0 <= k < |c| ==>
              nexts[c[k]] == if k + 1 < |c| then c[k + 1] else INVALID_IDX
  {
  }
}
