/**
 The mesh link table of uc6LoWPANMeshManipulation.c on values: the links in pool order and
 the order of the free ones.  No hash chains here: a lookup is a linear scan.
 Module LinkTable proves that the hash-indexed table of the source follows these steps.
 */
module LinkModel {
  import opened LowpanTypes
  import opened LinkQuality

  /** A link; it is allocated when it has an address. */
  datatype Link = Link(
    ext: Option<ExtAddr>,
    short: Option<ShortAddr>,
    init: bool,
    refreshed: bool,
    reclaimable: bool,
    pinned: bool,
    quality: Quality)
  {
    predicate Allocated() {
      ext.Some? || short.Some?
    }

    predicate Removable() {
      Allocated() && !init && !pinned
    }

    predicate Has(a: LinkAddr) {
      match a
      case NoAddr => false
      case Short(s) => short == Some(s)
      case Extended(e) => ext == Some(e)
    }

    /** The same link with its estimate replaced. */
    function With(e: Estimate): Link {
      this.(init := e.init, quality := e.quality)
    }

    function Estimated(): Estimate {
      Estimate(init, quality)
    }
  }

  /** The links by index, and the indices of the free ones in the order they will be taken. */
  datatype Table = Table(links: seq<Link>, free: seq<nat>)

  function NewLink(a: LinkAddr): Link
    requires !a.NoAddr?
  {
    Link(if a.Extended? then Some(a.ext) else None, if a.Short? then Some(a.short) else None,
         false, false, false, false, RESET_QUALITY)
  }

  function Cleared(l: Link): Link {
    Link(None, None, false, false, false, false, l.quality)
  }

  /** The first index from `from` on whose link has the address, or |links|. */
  function Scan(links: seq<Link>, a: LinkAddr, from: nat): (i: nat)
    requires from <= |links|
    ensures from <= i <= |links|
    ensures i < |links| ==> links[i].Has(a)
    ensures forall j :: from <= j < i ==> !links[j].Has(a)
    decreases |links| - from
  {
    if from == |links| || links[from].Has(a) then from else Scan(links, a, from + 1)
  }

  function Lookup(t: Table, a: LinkAddr): Option<nat> {
    var i := Scan(t.links, a, 0);
    if i < |t.links| then Some(i) else None
  }

  /** Of the first k links, the first of those removable ones whose ETX is largest and not zero. */
  function Worst(links: seq<Link>, k: nat): (w: Option<nat>)
    requires k <= |links|
    ensures w.Some? ==> w.value < k && links[w.value].Removable() && links[w.value].quality.etx > 0
  {
    if k == 0 then None
    else
      var w := Worst(links, k - 1);
      var etx := if w.Some? then links[w.value].quality.etx else 0;
      if links[k - 1].Removable() && etx < links[k - 1].quality.etx then Some(k - 1) else w
  }

  function Remove(t: Table, i: nat): (r: Table)
    ensures |r.links| == |t.links|
  {
    if i >= |t.links| || !t.links[i].Allocated() then t
    else Table(t.links[i := Cleared(t.links[i])], [i] + t.free)
  }

  function Evict(t: Table): Table {
    var w := Worst(t.links, |t.links|);
    if w.Some? then Remove(t, w.value) else t
  }

  predicate FreeInRange(t: Table) {
    forall i :: 0 <= i < |t.free| ==> t.free[i] < |t.links|
  }

  /** The table with room for a new link, if that is possible. */
  function MakeRoom(t: Table, allowEviction: bool): (r: Table)
    ensures |r.links| == |t.links|
  {
    if |t.free| == 0 && allowEviction then Evict(t) else t
  }

  function Create(t: Table, a: LinkAddr): (r: (Table, Option<nat>))
    requires FreeInRange(t)
    ensures |r.0.links| == |t.links|
    ensures r.1.Some? ==> r.1.value < |t.links|
  {
    if |t.free| == 0 || a.NoAddr? then (t, None)
    else (Table(t.links[t.free[0] := NewLink(a)], t.free[1..]), Some(t.free[0]))
  }

  function FindOrCreate(t: Table, a: LinkAddr, allowEviction: bool): (r: (Table, Option<nat>))
    requires FreeInRange(t)
    ensures |r.0.links| == |t.links|
    ensures r.1.Some? ==> r.1.value < |t.links|
  {
    var found := Lookup(t, a);
    if found.Some? then (t, found) else Create(MakeRoom(t, allowEviction), a)
  }

  function ReportBroadcast(l: Link, seqNo: byte): Link {
    l.With(AfterBeacon(l.Estimated(), seqNo)).(refreshed := true, reclaimable := false)
  }

  function ReportUnicast(l: Link, acked: bool): Link {
    var r := l.With(AfterUnicast(l.Estimated(), acked));
    if acked then r.(refreshed := true, reclaimable := false) else r
  }

  // -- mark and reclaim ---------------------------------------------------------

  /** How many links the sweeps visit from firstIdx on, and whether there are more after them:
      the source adds and subtracts in 8 bits. */
  function Window(len: byte, firstIdx: byte, numIdx: byte): (byte, bool) {
    if firstIdx >= len then
      (0, false)
    else
      var end := U8(numIdx + firstIdx);
      if end >= len then (U8(len - firstIdx), false) else (U8(end - firstIdx), true)
  }

  function Marked(l: Link): Link {
    if !l.Allocated() then l
    else if l.refreshed then l.(refreshed := false)
    else l.(reclaimable := true)
  }

  function MarkFrom(links: seq<Link>, i: nat, n: nat): (r: seq<Link>)
    requires i + n <= |links|
    ensures |r| == |links|
    ensures forall j :: 0 <= j < |links| ==> r[j] == if i <= j < i + n then Marked(links[j]) else links[j]
    decreases n
  {
    if n == 0 then links else MarkFrom(links[i := Marked(links[i])], i + 1, n - 1)
  }

  function Mark(t: Table, firstIdx: byte, numIdx: byte): Table
    requires |t.links| <= 0xff && WindowFits(|t.links|, firstIdx, numIdx)
  {
    t.(links := MarkFrom(t.links, if firstIdx < |t.links| then firstIdx else 0, Window(|t.links|, firstIdx, numIdx).0))
  }

  predicate Doomed(l: Link) {
    l.Removable() && l.reclaimable
  }

  function SweepFrom(t: Table, i: nat, n: nat, maxRemoved: nat): (r: Table)
    requires i + n <= |t.links|
    ensures |r.links| == |t.links|
    decreases n
  {
    if n == 0 || maxRemoved == 0 then t
    else if Doomed(t.links[i]) then SweepFrom(Remove(t, i), i + 1, n - 1, maxRemoved - 1)
    else SweepFrom(t, i + 1, n - 1, maxRemoved)
  }

  /** The number of indices in i .. i + n with a doomed link. */
  function DoomedIn(links: seq<Link>, i: nat, n: nat): nat
    requires i + n <= |links|
    decreases n
  {
    if n == 0 then 0 else (if Doomed(links[i]) then 1 else 0) + DoomedIn(links, i + 1, n - 1)
  }

  /** A removal sweep from i on over n links stays in the pool: the pool does not end before, or as
      many links as may be removed are removed before it ends. */
  predicate SweepInPool(links: seq<Link>, i: nat, n: nat, maxRemoved: nat) {
    i <= |links| && (i + n <= |links| || maxRemoved <= DoomedIn(links, i, |links| - i))
  }

  predicate SweepFits(links: seq<Link>, firstIdx: byte, numIdx: byte, maxRemoved: byte) {
    |links| <= 0xff
    && (firstIdx >= |links| || SweepInPool(links, firstIdx, Window(|links|, firstIdx, numIdx).0, maxRemoved))
  }

  /** Where a removal sweep starts, and for how many links at most. */
  function SweepRange(len: byte, firstIdx: byte, numIdx: byte): (r: (nat, nat))
    ensures r.0 + r.1 <= len
    ensures firstIdx >= len ==> r.1 == 0
    ensures firstIdx < len ==> r == (firstIdx as nat, if numIdx < len - firstIdx then numIdx else len - firstIdx)
  {
    if firstIdx >= len then (0, 0)
    else
      var n := Window(len, firstIdx, numIdx).0;
      (firstIdx as nat, if firstIdx + n <= len then n else len - firstIdx)
  }

  function Sweep(t: Table, firstIdx: byte, numIdx: byte, maxRemoved: byte): (r: Table)
    requires SweepFits(t.links, firstIdx, numIdx, maxRemoved)
    ensures |r.links| == |t.links|
  {
    var (i, n) := SweepRange(|t.links|, firstIdx, numIdx);
    SweepFrom(t, i, n, maxRemoved)
  }

  /** The visited links are in the pool. */
  predicate WindowFits(len: byte, firstIdx: byte, numIdx: byte) {
    firstIdx >= len || firstIdx + numIdx <= 0xff
  }

  /** The mark sweep stays in the pool exactly when the caller's window does not wrap. */
  lemma WindowFitsIff(len: byte, firstIdx: byte, numIdx: byte)
    ensures var n := Window(len, firstIdx, numIdx).0;
            n == 0 || firstIdx + n <= len <==> WindowFits(len, firstIdx, numIdx)
    ensures var (n, more) := Window(len, firstIdx, numIdx);
            WindowFits(len, firstIdx, numIdx) && firstIdx < len ==>
              (if more then n == numIdx && firstIdx + numIdx < len else n == len - firstIdx <= numIdx)
  {
    hide U8;
    U8Is(numIdx + firstIdx);
    var end := U8(numIdx + firstIdx);
    U8Is(end - firstIdx);
    if firstIdx < len {
      U8Is(len - firstIdx);
    }
  }

  /** One wrap around 8 bits. */
  lemma U8Is(x: int)
    requires -0x100 <= x < 0x200
    ensures U8(x) == if x < 0 then x + 0x100 else if x < 0x100 then x else x - 0x100
  {
  }

  // ---------------------------------------------------------------------------
  // Well-formed tables
  // ---------------------------------------------------------------------------

  /** The free indices are those of the unallocated links, each once; no link has two
      addresses, and no two links have the same one. */
  ghost predicate WellFormed(t: Table) {
    && |t.links| <= 0xff
    && (forall i :: 0 <= i < |t.free| ==> t.free[i] < |t.links| && !t.links[t.free[i]].Allocated())
    && (forall i :: 0 <= i < |t.links| && !t.links[i].Allocated() ==> i in t.free)
    && (forall i, j :: 0 <= i < j < |t.free| ==> t.free[i] != t.free[j])
    && (forall i :: 0 <= i < |t.links| ==> t.links[i].ext.None? || t.links[i].short.None?)
    && AddressesUnique(t.links)
  }

  ghost predicate AddressesUnique(links: seq<Link>) {
    forall i, j, a: LinkAddr :: 0 <= i < j < |links| && links[i].Has(a) ==> !links[j].Has(a)
  }

  lemma LookupIs(t: Table, a: LinkAddr, i: nat)
    requires WellFormed(t) && i < |t.links| && t.links[i].Has(a)
    ensures Lookup(t, a) == Some(i)
  {
  }

  lemma RemoveWellFormed(t: Table, i: nat)
    requires WellFormed(t)
    ensures WellFormed(Remove(t, i))
  {
    if i < |t.links| && t.links[i].Allocated() {
      var t' := Remove(t, i);
      assert i !in t.free;
      assert forall k :: 0 <= k < |t.free| ==> t'.free[k + 1] == t.free[k];
      assert t'.free[0] == i;
    }
  }

  /** Removing a link unbinds its address and nothing else. */
  lemma RemoveUnbinds(t: Table, i: nat, b: LinkAddr)
    requires WellFormed(t) && i < |t.links|
    ensures Lookup(Remove(t, i), b) == if Lookup(t, b) == Some(i) then None else Lookup(t, b)
  {
    RemoveWellFormed(t, i);
    var t' := Remove(t, i);
    if Lookup(t, b).Some? && Lookup(t, b) != Some(i) {
      LookupIs(t', b, Lookup(t, b).value);
    }
  }

  /** The worst link is removable and no removable link has a larger ETX; there is none only
      when no removable link has a nonzero ETX. */
  lemma {:induction false} WorstIsMaximal(links: seq<Link>, k: nat)
    requires k <= |links|
    ensures var w := Worst(links, k);
            forall j :: 0 <= j < k && links[j].Removable() ==>
              links[j].quality.etx <= (if w.Some? then links[w.value].quality.etx else 0)
              && (w.Some? && links[j].quality.etx == links[w.value].quality.etx ==> w.value <= j)
  {
    if k > 0 {
      WorstIsMaximal(links, k - 1);
    }
  }

  lemma CreateBinds(t: Table, a: LinkAddr)
    requires WellFormed(t) && Lookup(t, a).None?
    ensures var (t', r) := Create(t, a);
            && WellFormed(t')
            && (r.Some? <==> |t.free| > 0 && !a.NoAddr?)
            && (r.None? ==> t' == t)
            && (r.Some? ==> !t.links[r.value].Allocated() && t' == Table(t.links[r.value := NewLink(a)], t.free[1..])
                            && Lookup(t', a) == r)
  {
    hide AddressesUnique, Scan, Lookup;
    var (t', r) := Create(t, a);
    if r.Some? {
      hide WellFormed;
      CreateWellFormed(t, a);
      NewLinkHas(a, a);
      FreeFirst(t);
      LookupIs(t', a, r.value);
    }
  }

  lemma FreeFirst(t: Table)
    requires WellFormed(t) && |t.free| > 0
    ensures t.free[0] < |t.links| && !t.links[t.free[0]].Allocated()
  {
  }

  lemma CreateWellFormed(t: Table, a: LinkAddr)
    requires WellFormed(t) && Lookup(t, a).None? && !a.NoAddr? && |t.free| > 0
    ensures WellFormed(Create(t, a).0)
  {
    hide AddressesUnique, Scan;
    var t' := Create(t, a).0;
    forall j | 0 <= j < |t'.links| && !t'.links[j].Allocated()
      ensures j in t'.free
    {
      assert j in t.free && j != t.free[0];
    }
    NewAddressUnique(t.links, t.free[0], a);
  }

  lemma NewLinkHas(a: LinkAddr, b: LinkAddr)
    requires !a.NoAddr?
    ensures NewLink(a).Has(b) <==> a == b
    ensures NewLink(a).quality == Quality(0xffff, 0, 0, 0, 0, 0, 0) && !NewLink(a).init
  {
  }

  /** An address that no link has stays unique when a link gets it. */
  lemma NewAddressUnique(links: seq<Link>, i: nat, a: LinkAddr)
    requires AddressesUnique(links) && i < |links| && !a.NoAddr?
    requires Scan(links, a, 0) == |links|
    ensures AddressesUnique(links[i := NewLink(a)])
  {
    var links' := links[i := NewLink(a)];
    forall j, k, b: LinkAddr | 0 <= j < k < |links'| && links'[j].Has(b)
      ensures !links'[k].Has(b)
    {
      NewLinkHas(a, b);
      assert !links[j].Has(a) && !links[k].Has(a);
    }
  }

  lemma CreateKeepsOthers(t: Table, a: LinkAddr, b: LinkAddr)
    requires WellFormed(t) && Lookup(t, a).None? && b != a
    ensures Lookup(Create(t, a).0, b) == Lookup(t, b)
  {
    CreateBinds(t, a);
    var (t', r) := Create(t, a);
    if r.Some? {
      assert t'.links[r.value] == NewLink(a) && !NewLink(a).Has(b);
      if Lookup(t, b).Some? {
        LookupIs(t', b, Lookup(t, b).value);
      }
    }
  }

  lemma MakeRoomWellFormed(t: Table, allowEviction: bool)
    requires WellFormed(t)
    ensures WellFormed(MakeRoom(t, allowEviction))
    ensures |MakeRoom(t, allowEviction).links| == |t.links|
    ensures forall j :: 0 <= j < |t.links| ==>
              var l := MakeRoom(t, allowEviction).links[j];
              l == t.links[j] || (!l.Allocated() && Some(j) == Worst(t.links, |t.links|))
    ensures |MakeRoom(t, allowEviction).free| == 0 <==>
            |t.free| == 0 && (!allowEviction || Worst(t.links, |t.links|).None?)
  {
    var w := Worst(t.links, |t.links|);
    if w.Some? {
      RemoveWellFormed(t, w.value);
    }
  }

  lemma MakeRoomKeepsOthers(t: Table, allowEviction: bool, b: LinkAddr)
    requires WellFormed(t)
    ensures Lookup(MakeRoom(t, allowEviction), b)
            == if Evicts(t, allowEviction) && Lookup(t, b) == Worst(t.links, |t.links|) then None else Lookup(t, b)
  {
    var w := Worst(t.links, |t.links|);
    if w.Some? {
      RemoveUnbinds(t, w.value, b);
    }
  }

  /** Whether there is no free link and there is one to evict. */
  predicate Evicts(t: Table, allowEviction: bool) {
    |t.free| == 0 && allowEviction && Worst(t.links, |t.links|).Some?
  }

  /** A successful find or create makes the address resolvable; it changes no link but the new
      one and no binding but that of the address and that of an evicted link, which is the
      first removable one of maximal ETX. */
  lemma FindOrCreateBinds(t: Table, a: LinkAddr, allowEviction: bool)
    requires WellFormed(t)
    ensures var (t', r) := FindOrCreate(t, a, allowEviction);
            && WellFormed(t')
            && (Lookup(t, a).Some? ==> t' == t && r == Lookup(t, a))
            && (r.Some? ==> Lookup(t', a) == r)
            && (forall j :: 0 <= j < |t.links| && r != Some(j) ==>
                  t'.links[j] == t.links[j] || (!t'.links[j].Allocated() && Some(j) == Worst(t.links, |t.links|)))
            && (Lookup(t, a).None? && r.Some? ==> t'.links[r.value] == NewLink(a))
            && (r.None? <==> Lookup(t, a).None? && (a.NoAddr? || (|t.free| == 0 && !Evicts(t, allowEviction))))
            && (Lookup(t, a).None? && r.Some? && t.links[r.value].Allocated() ==>
                  Evicts(t, allowEviction) && r == Worst(t.links, |t.links|))
    ensures forall b: LinkAddr :: b != a ==>
              Lookup(FindOrCreate(t, a, allowEviction).0, b)
              == if Lookup(t, a).None? && Evicts(t, allowEviction) && Lookup(t, b) == Worst(t.links, |t.links|)
                 then None else Lookup(t, b)
  {
    hide Worst, Scan, AddressesUnique, Create;
    if Lookup(t, a).None? {
      var room := MakeRoom(t, allowEviction);
      MakeRoomWellFormed(t, allowEviction);
      MakeRoomKeepsOthers(t, allowEviction, a);
      CreateBinds(room, a);
      assert FindOrCreate(t, a, allowEviction) == Create(room, a);
      assert Create(room, a).1.None? <==> |room.free| == 0 || a.NoAddr?;
      assert |room.free| == 0 <==> |t.free| == 0 && !Evicts(t, allowEviction);
      forall j | 0 <= j < |t.links| && Create(room, a).1 != Some(j)
        ensures Create(room, a).0.links[j] == room.links[j]
      {
      }
      forall b: LinkAddr | b != a
        ensures Lookup(FindOrCreate(t, a, allowEviction).0, b)
                == if Evicts(t, allowEviction) && Lookup(t, b) == Worst(t.links, |t.links|) then None else Lookup(t, b)
      {
        MakeRoomKeepsOthers(t, allowEviction, b);
        CreateKeepsOthers(room, a, b);
      }
    }
  }

  /** When nothing is found or created the table is unmodified, as documented, except exactly
      when the address is none, the table is full, and there is a link to evict. */
  lemma FailureLeavesTableIff(t: Table, a: LinkAddr, allowEviction: bool)
    requires WellFormed(t) && FindOrCreate(t, a, allowEviction).1.None?
    ensures FindOrCreate(t, a, allowEviction).0 == t <==> !(a.NoAddr? && Evicts(t, allowEviction))
  {
    FindOrCreateBinds(t, a, allowEviction);
    if a.NoAddr? && Evicts(t, allowEviction) {
      assert |MakeRoom(t, allowEviction).free| == 1;
    }
  }

  lemma FailureCanEvict()
    ensures exists t :: WellFormed(t) && var (t', r) := FindOrCreate(t, NoAddr, true); r.None? && t' != t
  {
    var l := NewLink(Short([0, 1])).(quality := RESET_QUALITY.(etx := INITIAL_ETX));
    var t := Table([l], []);
    assert Worst(t.links, 1) == Some(0);
    assert WellFormed(t);
    FailureLeavesTableIff(t, NoAddr, true);
  }

  // ---------------------------------------------------------------------------
  // Sweeping
  // ---------------------------------------------------------------------------

  lemma DoomedInSame(a: seq<Link>, b: seq<Link>, i: nat, n: nat)
    requires |a| == |b| && i + n <= |a| && forall j :: i <= j < i + n ==> a[j] == b[j]
    ensures DoomedIn(a, i, n) == DoomedIn(b, i, n)
    decreases n
  {
  }

  /** Whether the loop of a removal sweep gets to visit a link past the end of the pool. */
  predicate SweepLeaves(links: seq<Link>, i: nat, n: nat, maxRemoved: nat)
    decreases n
  {
    n > 0 && maxRemoved > 0
    && (i >= |links| || SweepLeaves(links, i + 1, n - 1, if Doomed(links[i]) then maxRemoved - 1 else maxRemoved))
  }

  /** Exactly when it does not; in particular when the window does not wrap in 8 bits. */
  lemma {:induction false} SweepInPoolIff(links: seq<Link>, i: nat, n: nat, maxRemoved: nat)
    requires i <= |links|
    ensures SweepInPool(links, i, n, maxRemoved) <==> !SweepLeaves(links, i, n, maxRemoved)
    decreases n
  {
    hide Doomed;
    if n > 0 && maxRemoved > 0 && i < |links| {
      SweepInPoolIff(links, i + 1, n - 1, if Doomed(links[i]) then maxRemoved - 1 else maxRemoved);
    }
  }

  lemma WindowFitsSweep(links: seq<Link>, firstIdx: byte, numIdx: byte, maxRemoved: byte)
    requires |links| <= 0xff
    ensures WindowFits(|links|, firstIdx, numIdx) ==> SweepFits(links, firstIdx, numIdx, maxRemoved)
  {
    WindowFitsIff(|links|, firstIdx, numIdx);
  }

  /** Link j after a sweep: removed if it was doomed and not too many before it were. */
  ghost predicate SweptAt(links: seq<Link>, i: nat, n: nat, maxRemoved: nat, j: nat, l: Link)
    requires i + n <= |links| && j < |links|
  {
    l == if i <= j < i + n && Doomed(links[j]) && DoomedIn(links, i, j - i) < maxRemoved then Cleared(links[j])
         else links[j]
  }

  /** A sweep removes doomed links in its window only, the first ones, and as many as it may. */
  lemma {:induction false} SweepRemoves(t: Table, i: nat, n: nat, maxRemoved: nat)
    requires WellFormed(t) && i + n <= |t.links|
    ensures var r := SweepFrom(t, i, n, maxRemoved);
            && WellFormed(r)
            && |r.free| == |t.free| + (if DoomedIn(t.links, i, n) < maxRemoved then DoomedIn(t.links, i, n) else maxRemoved)
            && forall j :: 0 <= j < |t.links| ==> SweptAt(t.links, i, n, maxRemoved, j, r.links[j])
    decreases n
  {
    hide WellFormed;
    if n > 0 && maxRemoved > 0 {
      var t', m := t, maxRemoved;
      if Doomed(t.links[i]) {
        RemoveWellFormed(t, i);
        t', m := Remove(t, i), maxRemoved - 1;
      }
      SweepRemoves(t', i + 1, n - 1, m);
      DoomedInSame(t.links, t'.links, i + 1, n - 1);
      var r := SweepFrom(t', i + 1, n - 1, m);
      forall j | 0 <= j < |t.links|
        ensures SweptAt(t.links, i, n, maxRemoved, j, r.links[j])
      {
        assert SweptAt(t'.links, i + 1, n - 1, m, j, r.links[j]);
        if i < j < i + n {
          DoomedInSame(t.links, t'.links, i + 1, j - i - 1);
        }
      }
    }
  }

  // ---------------------------------------------------------------------------
  // Runs
  // ---------------------------------------------------------------------------

  datatype Event =
    | FindEvent(a: LinkAddr, allowEviction: bool)
    | RemoveEvent(i: nat)
    | BeaconEvent(i: nat, seqNo: byte)
    | UnicastEvent(i: nat, acked: bool)
    | PinEvent(i: nat, pinned: bool)
    | MarkEvent(firstIdx: byte, numIdx: byte)
    | SweepEvent(firstIdx: byte, numIdx: byte, maxRemoved: byte)

  /** Reports are about existing links and do not pile up, and sweeps stay in the pool.  Pinning a link
      is up to whoever holds it. */
  ghost predicate EventOk(t: Table, e: Event) {
    match e
    case BeaconEvent(i, _) => i < |t.links| && t.links[i].Allocated()
    case UnicastEvent(i, acked) =>
      i < |t.links| && t.links[i].Allocated() && LinkQuality.Allowed(t.links[i].Estimated(), Unicast(acked))
    case PinEvent(i, _) => i < |t.links| && t.links[i].Allocated()
    case MarkEvent(firstIdx, numIdx) => |t.links| <= 0xff && WindowFits(|t.links|, firstIdx, numIdx)
    case SweepEvent(firstIdx, numIdx, maxRemoved) => SweepFits(t.links, firstIdx, numIdx, maxRemoved)
    case _ => true
  }

  function Step(t: Table, e: Event): (r: Table)
    requires WellFormed(t) && EventOk(t, e)
    ensures |r.links| == |t.links|
  {
    match e
    case FindEvent(a, allowEviction) => FindOrCreate(t, a, allowEviction).0
    case RemoveEvent(i) => Remove(t, i)
    case BeaconEvent(i, seqNo) => t.(links := t.links[i := ReportBroadcast(t.links[i], seqNo)])
    case UnicastEvent(i, acked) => t.(links := t.links[i := ReportUnicast(t.links[i], acked)])
    case PinEvent(i, pinned) => t.(links := t.links[i := t.links[i].(pinned := pinned)])
    case MarkEvent(firstIdx, numIdx) => Mark(t, firstIdx, numIdx)
    case SweepEvent(firstIdx, numIdx, maxRemoved) => Sweep(t, firstIdx, numIdx, maxRemoved)
  }

  /** What happened to a link since it was created: mark visits since its last beacon or acked
      unicast, whether there was one, and whether it is pinned. */
  datatype History = History(visits: nat, reported: bool, pinned: bool)

  ghost function MarkHistory(t: Table, hs: seq<History>, lo: nat, hi: nat): (r: seq<History>)
    requires |hs| == |t.links|
    ensures |r| == |hs|
    ensures forall j :: 0 <= j < |hs| ==>
              r[j] == if lo <= j < hi && t.links[j].Allocated() then hs[j].(visits := hs[j].visits + 1) else hs[j]
  {
    seq(|hs|, j requires 0 <= j < |hs| =>
      if lo <= j < hi && t.links[j].Allocated() then hs[j].(visits := hs[j].visits + 1) else hs[j])
  }

  ghost function StepHistory(t: Table, hs: seq<History>, e: Event): (r: seq<History>)
    requires WellFormed(t) && EventOk(t, e) && |hs| == |t.links|
    ensures |r| == |hs|
  {
    match e
    case FindEvent(a, allowEviction) =>
      var i := FindOrCreate(t, a, allowEviction).1;
      if Lookup(t, a).None? && i.Some? then hs[i.value := History(0, false, false)] else hs
    case BeaconEvent(i, _) => hs[i := History(0, true, hs[i].pinned)]
    case UnicastEvent(i, acked) => if acked then hs[i := History(0, true, hs[i].pinned)] else hs
    case PinEvent(i, pinned) => hs[i := hs[i].(pinned := pinned)]
    case MarkEvent(firstIdx, numIdx) =>
      MarkHistory(t, hs, firstIdx, firstIdx + numIdx)
    case _ => hs
  }

  /** Visited at least twice since its last beacon or acked unicast, or once if there never was one. */
  ghost predicate Stale(h: History) {
    h.visits >= if h.reported then 2 else 1
  }

  /** The flags of a link say what happened to it, and nothing else. */
  ghost predicate HistoryOk(l: Link, h: History) {
    && (l.refreshed <==> h.reported && h.visits == 0)
    && (l.reclaimable <==> Stale(h))
    && (l.pinned <==> h.pinned)
  }

  /** What every run from Reset keeps. */
  ghost predicate TableOk(t: Table, hs: seq<History>) {
    && WellFormed(t) && |hs| == |t.links|
    && (forall i :: 0 <= i < |t.links| && t.links[i].Allocated() ==> LinkOk(t.links[i], hs[i]))
  }

  ghost predicate LinkOk(l: Link, h: History) {
    EstimateOk(l.Estimated()) && HistoryOk(l, h)
  }

  /** Changing one allocated link but not its address keeps the table well-formed. */
  lemma UpdateWellFormed(t: Table, i: nat, l: Link)
    requires WellFormed(t) && i < |t.links| && t.links[i].Allocated()
    requires l.ext == t.links[i].ext && l.short == t.links[i].short
    ensures WellFormed(t.(links := t.links[i := l]))
  {
    var t' := t.(links := t.links[i := l]);
    assert forall j, a: LinkAddr :: 0 <= j < |t.links| ==> t'.links[j].Has(a) == t.links[j].Has(a);
  }

  lemma {:induction false} MarkWellFormed(t: Table, firstIdx: byte, numIdx: byte)
    requires WellFormed(t) && WindowFits(|t.links|, firstIdx, numIdx)
    ensures WellFormed(Mark(t, firstIdx, numIdx))
  {
    var t' := Mark(t, firstIdx, numIdx);
    assert forall j :: 0 <= j < |t.links| ==>
             t'.links[j].ext == t.links[j].ext && t'.links[j].short == t.links[j].short;
    assert forall j, a: LinkAddr :: 0 <= j < |t.links| ==> t'.links[j].Has(a) == t.links[j].Has(a);
  }

  lemma {:induction false} ReportOk(l: Link, h: History, r: Report)
    requires LinkOk(l, h) && LinkQuality.Allowed(l.Estimated(), r)
    ensures match r
            case Beacon(seqNo) => ReportBroadcast(l, seqNo).ext == l.ext && ReportBroadcast(l, seqNo).short == l.short
            case Unicast(acked) => ReportUnicast(l, acked).ext == l.ext && ReportUnicast(l, acked).short == l.short
    ensures match r
            case Beacon(seqNo) => LinkOk(ReportBroadcast(l, seqNo), History(0, true, h.pinned))
            case Unicast(acked) => LinkOk(ReportUnicast(l, acked), if acked then History(0, true, h.pinned) else h)
  {
    match r
    case Beacon(seqNo) => BeaconKeepsOk(l.Estimated(), seqNo);
    case Unicast(acked) => UnicastKeepsOk(l.Estimated(), acked);
  }

  lemma FindKeepsOk(t: Table, hs: seq<History>, a: LinkAddr, allowEviction: bool)
    requires TableOk(t, hs)
    ensures var e := FindEvent(a, allowEviction); TableOk(Step(t, e), StepHistory(t, hs, e))
  {
    hide WellFormed, EstimateOk, FindOrCreate, Lookup, Worst;
    FindOrCreateBinds(t, a, allowEviction);
    NewLinkIsOk();
  }

  /** One link changes, but not its address. */
  lemma UpdateKeepsOk(t: Table, hs: seq<History>, i: nat, l: Link, h: History)
    requires TableOk(t, hs) && i < |t.links| && t.links[i].Allocated()
    requires l.ext == t.links[i].ext && l.short == t.links[i].short && LinkOk(l, h)
    ensures TableOk(t.(links := t.links[i := l]), hs[i := h])
  {
    hide WellFormed, LinkOk;
    UpdateWellFormed(t, i, l);
  }

  lemma MarkKeepsOk(t: Table, hs: seq<History>, firstIdx: byte, numIdx: byte)
    requires TableOk(t, hs) && EventOk(t, MarkEvent(firstIdx, numIdx))
    ensures var e := MarkEvent(firstIdx, numIdx); TableOk(Step(t, e), StepHistory(t, hs, e))
  {
    hide WellFormed, EstimateOk, Window;
    MarkWellFormed(t, firstIdx, numIdx);
    WindowFitsIff(|t.links|, firstIdx, numIdx);
  }

  lemma SweepKeepsOk(t: Table, hs: seq<History>, firstIdx: byte, numIdx: byte, maxRemoved: byte)
    requires TableOk(t, hs) && SweepFits(t.links, firstIdx, numIdx, maxRemoved)
    ensures TableOk(Sweep(t, firstIdx, numIdx, maxRemoved), hs)
  {
    hide WellFormed, LinkOk, SweepRange, DoomedIn;
    var (i, n) := SweepRange(|t.links|, firstIdx, numIdx);
    SweepRemoves(t, i, n, maxRemoved);
  }

  lemma StepKeepsOk(t: Table, hs: seq<History>, e: Event)
    requires TableOk(t, hs) && EventOk(t, e)
    ensures TableOk(Step(t, e), StepHistory(t, hs, e))
  {
    hide WellFormed, EstimateOk, After, ReportBroadcast, ReportUnicast;
    match e
    case FindEvent(a, allowEviction) => FindKeepsOk(t, hs, a, allowEviction);
    case RemoveEvent(i) => RemoveWellFormed(t, i);
    case BeaconEvent(i, seqNo) =>
      ReportOk(t.links[i], hs[i], Beacon(seqNo));
      UpdateKeepsOk(t, hs, i, ReportBroadcast(t.links[i], seqNo), History(0, true, hs[i].pinned));
    case UnicastEvent(i, acked) =>
      ReportOk(t.links[i], hs[i], Unicast(acked));
      UpdateKeepsOk(t, hs, i, ReportUnicast(t.links[i], acked), if acked then History(0, true,
            hs[i].pinned) else hs[i]);
    case PinEvent(i, pinned) =>
      UpdateKeepsOk(t, hs, i, t.links[i].(pinned := pinned), hs[i].(pinned := pinned));
    case MarkEvent(firstIdx, numIdx) => MarkKeepsOk(t, hs, firstIdx, numIdx);
    case SweepEvent(firstIdx, numIdx, maxRemoved) => SweepKeepsOk(t, hs, firstIdx, numIdx, maxRemoved);
  }

  ghost predicate RunOk(t: Table, events: seq<Event>)
    requires WellFormed(t)
    decreases |events|
  {
    |events| > 0 ==>
      && EventOk(t, events[0])
      && WellFormed(Step(t, events[0])) && RunOk(Step(t, events[0]), events[1..])
  }

  ghost function Run(t: Table, events: seq<Event>): (r: Table)
    requires WellFormed(t) && RunOk(t, events)
    ensures WellFormed(r)
    decreases |events|
  {
    if |events| == 0 then t else Run(Step(t, events[0]), events[1..])
  }

  ghost function RunHistory(t: Table, hs: seq<History>, events: seq<Event>): (r: seq<History>)
    requires WellFormed(t) && RunOk(t, events) && |hs| == |t.links|
    decreases |events|
  {
    if |events| == 0 then hs
    else RunHistory(Step(t, events[0]), StepHistory(t, hs, events[0]), events[1..])
  }

  /** Every run keeps the free list and the addresses in order, every ETX and counter in bounds,
      and the marks true to the history. */
  lemma {:induction false} RunKeepsOk(t: Table, hs: seq<History>, events: seq<Event>)
    requires TableOk(t, hs) && RunOk(t, events)
    ensures TableOk(Run(t, events), RunHistory(t, hs, events))
    decreases |events|
  {
    hide LinkOk, Step, StepHistory, EventOk, WellFormed;
    if |events| > 0 {
      StepKeepsOk(t, hs, events[0]);
      RunKeepsOk(Step(t, events[0]), StepHistory(t, hs, events[0]), events[1..]);
    }
  }

  function FreeFrom(i: nat, n: nat): (r: seq<nat>)
    requires i <= n
    ensures |r| == n - i && forall k :: 0 <= k < |r| ==> r[k] == i + k
    decreases n - i
  {
    if i == n then [] else [i] + FreeFrom(i + 1, n)
  }

  /** The table after a reset: all links are free, in index order. */
  function Reset(links: seq<Link>): (t: Table)
    ensures |t.links| == |links|
    ensures forall i :: 0 <= i < |links| ==> t.links[i] == Cleared(links[i])
  {
    Table(ClearedAll(links), FreeFrom(0, |links|))
  }

  function ClearedAll(links: seq<Link>): (r: seq<Link>)
    ensures |r| == |links| && forall i :: 0 <= i < |links| ==> r[i] == Cleared(links[i])
  {
    if |links| == 0 then [] else [Cleared(links[0])] + ClearedAll(links[1..])
  }

  lemma ResetOk(links: seq<Link>)
    requires |links| <= 0xff
    ensures TableOk(Reset(links), seq(|links|, _ => History(0, false, false)))
  {
    var t := Reset(links);
    forall i | 0 <= i < |t.links|
      ensures i in t.free
    {
      assert t.free[i] == i;
    }
  }

  /** In every run from a reset, a sweep removes at most maxRemoved links, each of them in its
      window, neither pinned nor without an estimate, and visited by at least two mark sweeps
      since its last beacon or acked unicast, or by one if there never was any. */
  lemma ReclaimIsSafe(links: seq<Link>, events: seq<Event>, firstIdx: byte, numIdx: byte, maxRemoved: byte, i: nat)
    requires |links| <= 0xff && WellFormed(Reset(links)) && RunOk(Reset(links), events)
    requires SweepFits(Run(Reset(links), events).links, firstIdx, numIdx, maxRemoved)
    ensures var t := Run(Reset(links), events);
            var hs := RunHistory(Reset(links), seq(|links|, _ => History(0, false, false)), events);
            var r := Sweep(t, firstIdx, numIdx, maxRemoved);
            && |r.free| <= |t.free| + maxRemoved
            && |hs| == |t.links| == |r.links|
            && (i < |t.links| && t.links[i].Allocated() && !r.links[i].Allocated() ==>
                  && firstIdx <= i < firstIdx + numIdx
                  && !t.links[i].pinned && !t.links[i].init
                  && hs[i].visits >= if hs[i].reported then 2 else 1)
            && (i < |t.links| && r.links[i].Allocated() ==> r.links[i] == t.links[i])
  {
    hide EstimateOk, Reset;
    ResetOk(links);
    var hs0 := seq(|links|, _ => History(0, false, false));
    RunKeepsOk(Reset(links), hs0, events);
    var t := Run(Reset(links), events);
    var (lo, n) := SweepRange(|t.links|, firstIdx, numIdx);
    SweepRemoves(t, lo, n, maxRemoved);
    if i < |t.links| {
      assert SweptAt(t.links, lo, n, maxRemoved, i, SweepFrom(t, lo, n, maxRemoved).links[i]);
    }
  }

  /** What a sweep may reclaim, by the history. */
  ghost predicate Due(l: Link, h: History) {
    l.Allocated() && !h.pinned && !l.init && Stale(h)
  }

  /** How many of the links i .. i + n that is. */
  ghost function DueIn(links: seq<Link>, hs: seq<History>, i: nat, n: nat): (r: nat)
    requires |links| == |hs| && i + n <= |links|
    ensures r <= n
    decreases n
  {
    if n == 0 then 0 else (if Due(links[i], hs[i]) then 1 else 0) + DueIn(links, hs, i + 1, n - 1)
  }

  lemma {:induction false} DoomedIsDue(t: Table, hs: seq<History>, i: nat, n: nat)
    requires TableOk(t, hs) && i + n <= |t.links|
    ensures DoomedIn(t.links, i, n) == DueIn(t.links, hs, i, n)
    decreases n
  {
    hide WellFormed, EstimateOk;
    if n > 0 {
      DoomedIsDue(t, hs, i + 1, n - 1);
    }
  }

  /** The sweep removes exactly the first maxRemoved links of its window that are due, and with a budget for
      the whole window all of them; it changes nothing else. */
  ghost predicate Reclaims(t: Table, hs: seq<History>, firstIdx: byte, numIdx: byte, maxRemoved: byte, r: Table, i: nat)
    requires |hs| == |t.links| == |r.links| && i < |t.links|
  {
    && (t.links[i].Allocated() && !r.links[i].Allocated() <==>
          && firstIdx <= i < firstIdx + numIdx && Due(t.links[i], hs[i])
          && DueIn(t.links, hs, firstIdx, i - firstIdx) < maxRemoved)
    && (maxRemoved >= numIdx ==>
          (t.links[i].Allocated() && !r.links[i].Allocated() <==>
             firstIdx <= i < firstIdx + numIdx && Due(t.links[i], hs[i])))
    && (r.links[i].Allocated() == t.links[i].Allocated() ==> r.links[i] == t.links[i])
  }

  lemma {:induction false} SweepReclaims(t: Table, hs: seq<History>, firstIdx: byte, numIdx: byte, maxRemoved: byte,
        i: nat)
    requires TableOk(t, hs) && SweepFits(t.links, firstIdx, numIdx, maxRemoved) && i < |t.links|
    ensures Reclaims(t, hs, firstIdx, numIdx, maxRemoved, Sweep(t, firstIdx, numIdx, maxRemoved), i)
  {
    hide EstimateOk, WellFormed, SweepRange, DoomedIn, DueIn, SweepFrom;
    var (lo, n) := SweepRange(|t.links|, firstIdx, numIdx);
    SweepRemoves(t, lo, n, maxRemoved);
    assert SweptAt(t.links, lo, n, maxRemoved, i, SweepFrom(t, lo, n, maxRemoved).links[i]);
    if firstIdx <= i < firstIdx + numIdx {
      DoomedIsDue(t, hs, firstIdx, i - firstIdx);
    }
  }

  /** In every run from a reset, a link is marked as reclaimable exactly when at least two mark sweeps
      visited it since its last beacon or acked unicast, or one if there never was any; a sweep
      then removes exactly the links so marked that are neither pinned nor without an estimate, within its
      window and its budget. */
  lemma {:induction false} ReclaimsIff(links: seq<Link>, events: seq<Event>, firstIdx: byte, numIdx: byte,
                                       maxRemoved: byte, i: nat)
    requires |links| <= 0xff && WellFormed(Reset(links)) && RunOk(Reset(links), events)
    requires SweepFits(Run(Reset(links), events).links, firstIdx, numIdx, maxRemoved)
    requires i < |Run(Reset(links), events).links|
    ensures var t := Run(Reset(links), events);
            var hs := RunHistory(Reset(links), seq(|links|, _ => History(0, false, false)), events);
            && |hs| == |t.links|
            && (t.links[i].Allocated() ==> (t.links[i].reclaimable <==> Stale(hs[i])))
            && Reclaims(t, hs, firstIdx, numIdx, maxRemoved, Sweep(t, firstIdx, numIdx, maxRemoved), i)
  {
    hide EstimateOk, Reset, WellFormed, SweepFits, Reclaims, Sweep;
    ResetOk(links);
    RunKeepsOk(Reset(links), seq(|links|, _ => History(0, false, false)), events);
    var hs := RunHistory(Reset(links), seq(|links|, _ => History(0, false, false)), events);
    SweepReclaims(Run(Reset(links), events), hs, firstIdx, numIdx, maxRemoved, i);
  }
}
