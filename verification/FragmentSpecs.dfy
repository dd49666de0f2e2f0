/**
 The list of received byte ranges that a reassembled packet carries
 (uc6LoWPANDefragmentation.c), as a value.

 The source keeps the list as a first spec embedded in the packet plus a chain of
 specs drawn from a shared pool.  Here the list is a nonempty sequence of ranges
 (index 0 is the embedded spec) and the pool is the number of specs left in it.
 Module Defragmenter proves that the pointer code computes exactly these functions.
 */
module FragmentSpecs {

  datatype Range = Range(offset: nat, size: nat) {
    function End(): nat {
      offset + size
    }

    predicate Has(x: int) {
      offset <= x < offset + size
    }

    predicate Within(outer: Range) {
      outer.offset <= offset && End() <= outer.End()
    }
  }

  /** What trying to join a range with a stored one yields. */
  datatype Joint =
    | Merged(whole: Range)  // the ranges touch: the stored one grows to their union
    | Kept                  // the new range lies in the stored one and brought identical bytes
    | Apart                 // there is a gap between the ranges
    | Clash                 // the ranges overlap otherwise

  function Min(a: nat, b: nat): nat {
    if a < b then a else b
  }

  function Max(a: nat, b: nat): nat {
    if a < b then b else a
  }

  predicate Touching(r: Range, n: Range) {
    r.End() == n.offset || n.End() == r.offset || (r.size == 0 && n.offset <= r.offset <= n.End())
  }

  function Concatenate(r: Range, n: Range, identical: bool): Joint
  {
    if Touching(r, n) then
      var start := Min(r.offset, n.offset);
      Merged(Range(start, Max(r.End(), n.End()) - start))
    else if r.End() < n.offset || n.End() < r.offset then
      Apart
    else if n.Within(r) && identical then
      Kept
    else
      Clash
  }

  // ---------------------------------------------------------------------------
  // The list
  // ---------------------------------------------------------------------------

  ghost predicate Covers(rs: seq<Range>, x: int) {
    exists i :: 0 <= i < |rs| && rs[i].Has(x)
  }

  /** What holds of the list in every run, whatever fragments arrive. */
  ghost predicate Ordered(rs: seq<Range>) {
    && |rs| > 0
    && rs[0].offset == 0
    && (forall i :: 0 < i < |rs| ==> rs[i].size > 0)
    && (forall i, j :: 0 <= i < j < |rs| ==> rs[i].offset < rs[j].offset)
  }

  /** The canonical list of a set of bytes: the first range at 0 and possibly empty,
      the others nonempty, any two separated by a gap. */
  ghost predicate Canonical(rs: seq<Range>) {
    && |rs| > 0
    && rs[0].offset == 0
    && (forall i :: 0 < i < |rs| ==> rs[i].size > 0)
    && (forall i, j :: 0 <= i < j < |rs| ==> rs[i].End() < rs[j].offset)
  }

  ghost predicate EndsBy(rs: seq<Range>, total: nat) {
    forall i :: 0 <= i < |rs| ==> rs[i].End() <= total
  }

  lemma CanonicalIsOrdered(rs: seq<Range>)
    requires Canonical(rs)
    ensures Ordered(rs)
  {
    forall i, j | 0 <= i < j < |rs|
      ensures rs[i].offset < rs[j].offset
    {
      assert rs[i].End() < rs[j].offset;
    }
  }

  /** The index of the spec after which a fragment at `off` belongs, or i - 1 when no spec from i on starts before it. */
  function FindAfter(rs: seq<Range>, off: nat, i: nat): (k: int)
    requires i <= |rs|
    ensures i - 1 <= k < |rs|
    ensures forall j :: i <= j <= k ==> rs[j].offset < off
    ensures k + 1 < |rs| ==> off <= rs[k + 1].offset
    decreases |rs| - i
  {
    if i == |rs| || off <= rs[i].offset then i - 1 else FindAfter(rs, off, i + 1)
  }

  datatype MergeResult = MergeResult(ok: bool, ranges: seq<Range>, free: nat)

  /** Joins spec k with the one after it; at most one spec is swallowed. */
  function JoinNext(rs: seq<Range>, k: nat, identical: bool, free: nat): (res: MergeResult)
    requires k < |rs|
    ensures res.free + |res.ranges| == free + |rs|
    ensures |res.ranges| > 0
    ensures res.ok
    ensures res.free + 1 >= free
  {
    if k + 1 == |rs| then
      MergeResult(true, rs, free)
    else
      match Concatenate(rs[k], rs[k + 1], identical)
      case Merged(whole) => MergeResult(true, rs[..k] + [whole] + rs[k + 2..], free + 1)
      case Kept => MergeResult(true, rs[..k + 1] + rs[k + 2..], free + 1)
      case Apart => MergeResult(true, rs, free)
      case Clash => MergeResult(true, rs[..k + 1], free + (|rs| - (k + 1)))
  }

  /** The new list after a fragment n that belongs after spec k (k < 0: before all of them). */
  function Merge(rs: seq<Range>, k: int, n: Range, identical: bool, free: nat): (res: MergeResult)
    requires |rs| > 0
    requires k < |rs|
    ensures res.free + |res.ranges| == free + |rs|
    ensures |res.ranges| > 0
    ensures res.free + 1 >= free
  {
    if n.offset == 0 then MergeFirst(rs, n, identical, free)
    else if k < 0 then MergeResult(false, rs, free)
    else MergeAfter(rs, k, n, identical, free)
  }

  /** A fragment at offset 0 joins the first spec or, failing that, replaces the whole list. */
  function MergeFirst(rs: seq<Range>, n: Range, identical: bool, free: nat): (res: MergeResult)
    requires |rs| > 0
    ensures res.free + |res.ranges| == free + |rs|
    ensures |res.ranges| > 0
    ensures res.ok
    ensures res.free + 1 >= free
  {
    match Concatenate(rs[0], n, identical)
    case Merged(whole) => JoinNext(rs[0 := whole], 0, identical, free)
    case Kept => JoinNext(rs, 0, identical, free)
    case _ => MergeResult(true, [n], free + (|rs| - 1))
  }

  function MergeAfter(rs: seq<Range>, k: nat, n: Range, identical: bool, free: nat): (res: MergeResult)
    requires k < |rs|
    ensures res.free + |res.ranges| == free + |rs|
    ensures |res.ranges| > 0
    ensures !res.ok ==> res.free == 0
    ensures res.free + 1 >= free
  {
    match Concatenate(rs[k], n, identical)
    case Merged(whole) => JoinNext(rs[k := whole], k, identical, free)
    case Kept => JoinNext(rs, k, identical, free)
    case Apart => InsertAfter(rs, k, n, identical, free)
    case Clash =>
      var pool := free + (|rs| - 1);
      if pool == 0 then MergeResult(false, rs[..1], pool) else MergeResult(true, [Range(0, 0), n], pool - 1)
  }

  /** n lies beyond spec k with a gap: it joins spec k + 1, replaces what it clashes with, or takes a spec of its own. */
  function InsertAfter(rs: seq<Range>, k: nat, n: Range, identical: bool, free: nat): (res: MergeResult)
    requires k < |rs|
    ensures res.free + |res.ranges| == free + |rs|
    ensures |res.ranges| > 0
    ensures !res.ok ==> res.free == 0
    ensures res.free + 1 >= free
  {
    if k + 1 == |rs| then
      if free == 0 then MergeResult(false, rs, free) else MergeResult(true, rs + [n], free - 1)
    else
      match Concatenate(rs[k + 1], n, identical)
      case Merged(whole) => MergeResult(true, rs[k + 1 := whole], free)
      case Kept => MergeResult(true, rs, free)
      case Clash => MergeResult(true, rs[..k + 1] + [n], free + (|rs| - (k + 1)) - 1)
      case Apart =>
        if free == 0 then MergeResult(false, rs, free)
        else MergeResult(true, rs[..k + 1] + [n] + rs[k + 1..], free - 1)
  }

  /** Merge at the place where the source searches for it. */
  function Store(rs: seq<Range>, n: Range, identical: bool, free: nat): (res: MergeResult)
    requires |rs| > 0
    ensures res.free + |res.ranges| == free + |rs|
    ensures |res.ranges| > 0
    ensures rs[0].offset == 0 && !res.ok ==> res.free == 0 && n.offset > 0
    ensures res.free + 1 >= free
  {
    Merge(rs, FindAfter(rs, n.offset, 0), n, identical, free)
  }

  // ---------------------------------------------------------------------------
  // What storing a fragment guarantees
  // ---------------------------------------------------------------------------

  /** Every byte of r is one that `was` covers or n brings. */
  ghost predicate Sourced(r: Range, was: seq<Range>, n: Range) {
    forall x :: r.Has(x) ==> Covers(was, x) || n.Has(x)
  }

  ghost predicate Contains(rs: seq<Range>, n: Range) {
    exists i :: 0 <= i < |rs| && n.Within(rs[i])
  }

  /** The list covers n, and nothing that neither `was` nor n covers. */
  ghost predicate Extends(rs: seq<Range>, was: seq<Range>, n: Range) {
    && Contains(rs, n)
    && forall i :: 0 <= i < |rs| ==> Sourced(rs[i], was, n)
  }

  lemma ExtendsPointwise(rs: seq<Range>, was: seq<Range>, n: Range)
    requires Extends(rs, was, n)
    ensures forall x :: n.Has(x) ==> Covers(rs, x)
    ensures forall x :: Covers(rs, x) ==> Covers(was, x) || n.Has(x)
  {
    var i :| 0 <= i < |rs| && n.Within(rs[i]);
    forall x | n.Has(x)
      ensures Covers(rs, x)
    {
      assert rs[i].Has(x);
    }
  }

  lemma SourcedSelf(rs: seq<Range>, n: Range)
    ensures forall i :: 0 <= i < |rs| ==> Sourced(rs[i], rs, n)
  {
  }

  /** A head and a tail of ordered lists make an ordered list. */
  lemma OrderedSplice(a: seq<Range>, b: seq<Range>)
    requires Ordered(a)
    requires forall i :: 0 <= i < |b| ==> b[i].size > 0
    requires forall i, j :: 0 <= i < j < |b| ==> b[i].offset < b[j].offset
    requires |b| > 0 ==> a[|a| - 1].offset < b[0].offset
    ensures Ordered(a + b)
  {
    forall i, j | 0 <= i < j < |a + b|
      ensures (a + b)[i].offset < (a + b)[j].offset
    {
      if i < |a| <= j {
        assert a[i].offset <= a[|a| - 1].offset;
        assert b[0].offset <= b[j - |a|].offset;
      }
    }
  }

  /** Dropping specs l .. m leaves an ordered, sourced list. */
  lemma CutSound(rs: seq<Range>, l: nat, m: nat, was: seq<Range>, n: Range, total: nat)
    requires 0 < l <= m <= |rs|
    requires Ordered(rs) && EndsBy(rs, total)
    requires Extends(rs, was, n) && Contains(rs[..l], n)
    ensures var res := rs[..l] + rs[m..];
            Ordered(res) && EndsBy(res, total) && Extends(res, was, n)
  {
    OrderedSplice(rs[..l], rs[m..]);
    var i :| 0 <= i < l && n.Within(rs[i]);
    assert (rs[..l] + rs[m..])[i] == rs[i];
  }

  /** Writing w over spec k leaves an ordered, sourced list. */
  lemma ReplaceSound(rs: seq<Range>, k: nat, w: Range, was: seq<Range>, n: Range, total: nat)
    requires k < |rs|
    requires Ordered(rs) && EndsBy(rs, total)
    requires forall i :: 0 <= i < |rs| ==> Sourced(rs[i], was, n)
    requires w.size > 0 && w.End() <= total && n.Within(w) && Sourced(w, was, n)
    requires if k == 0 then w.offset == 0 else rs[k - 1].offset < w.offset
    requires k + 1 < |rs| ==> w.offset < rs[k + 1].offset
    ensures Ordered(rs[k := w]) && EndsBy(rs[k := w], total) && Extends(rs[k := w], was, n)
  {
    var res := rs[k := w];
    assert res[k] == w;
    forall i, j | 0 <= i < j < |res|
      ensures res[i].offset < res[j].offset
    {
      if j == k {
        assert rs[i].offset <= rs[k - 1].offset;
      } else if i == k {
        assert rs[k + 1].offset <= rs[j].offset;
      }
    }
  }

  /** Spec k grows over the touching spec k + 1, which leaves the list. */
  lemma SwallowSound(rs: seq<Range>, k: nat, whole: Range, was: seq<Range>, n: Range, total: nat)
    requires k + 1 < |rs|
    requires Ordered(rs) && EndsBy(rs, total)
    requires n.Within(rs[k]) && Extends(rs, was, n)
    requires rs[k].End() == rs[k + 1].offset && whole == Range(rs[k].offset, rs[k].size + rs[k + 1].size)
    ensures var res := rs[..k] + [whole] + rs[k + 2..];
            Ordered(res) && EndsBy(res, total) && Extends(res, was, n)
  {
    assert Sourced(rs[k], was, n) && Sourced(rs[k + 1], was, n);
    forall x | whole.Has(x)
      ensures Covers(was, x) || n.Has(x)
    {
      assert rs[k].Has(x) || rs[k + 1].Has(x);
    }
    assert k > 0 ==> rs[k - 1].offset < whole.offset;
    ReplaceSound(rs, k, whole, was, n, total);
    var grown := rs[k := whole];
    assert grown[..k + 1][k] == whole;
    CutSound(grown, k + 1, k + 2, was, n, total);
    assert rs[..k] + [whole] + rs[k + 2..] == grown[..k + 1] + grown[k + 2..];
  }

  lemma {:induction false} JoinNextSound(rs: seq<Range>, k: nat, was: seq<Range>, n: Range, identical: bool,
        free: nat, total: nat)
    requires k < |rs|
    requires Ordered(rs) && EndsBy(rs, total)
    requires n.Within(rs[k]) && Extends(rs, was, n)
    ensures var res := JoinNext(rs, k, identical, free);
            res.ok && Ordered(res.ranges) && EndsBy(res.ranges, total) && Extends(res.ranges, was, n)
  {
    if k + 1 < |rs| {
      hide Ordered, EndsBy, Extends, Concatenate;
      NextNonempty(rs, k);
      assert rs[..k + 1][k] == rs[k] && Contains(rs[..k + 1], n);
      match Concatenate(rs[k], rs[k + 1], identical)
      case Merged(whole) =>
        NextTouches(rs[k], rs[k + 1], identical);
        SwallowSound(rs, k, whole, was, n, total);
      case Kept =>
        CutSound(rs, k + 1, k + 2, was, n, total);
      case Apart =>
      case Clash =>
        CutSound(rs, k + 1, |rs|, was, n, total);
        assert rs[..k + 1] + rs[|rs|..] == rs[..k + 1];
    }
  }

  lemma NextNonempty(rs: seq<Range>, k: nat)
    requires Ordered(rs) && k + 1 < |rs|
    ensures rs[k + 1].size > 0 && rs[k].offset < rs[k + 1].offset
  {
  }

  lemma NextTouches(r: Range, next: Range, identical: bool)
    requires next.size > 0 && r.offset < next.offset && Concatenate(r, next, identical).Merged?
    ensures r.End() == next.offset
    ensures Concatenate(r, next, identical).whole == Range(r.offset, r.size + next.size)
  {
  }

  /** The union of two touching ranges holds no other byte. */
  lemma MergedMeaning(r: Range, n: Range, identical: bool)
    requires n.size > 0 && Concatenate(r, n, identical).Merged?
    ensures var w := Concatenate(r, n, identical).whole;
            n.Within(w) && w.offset == Min(r.offset, n.offset) && w.End() == Max(r.End(), n.End())
            && forall x :: w.Has(x) <==> r.Has(x) || n.Has(x)
  {
  }

  lemma GrowSound(rs: seq<Range>, k: nat, n: Range, identical: bool, total: nat)
    requires k < |rs| && n.size > 0 && n.End() <= total
    requires Ordered(rs) && EndsBy(rs, total)
    requires Concatenate(rs[k], n, identical).Merged?
    requires k > 0 ==> rs[k - 1].offset < n.offset
    requires k + 1 < |rs| ==> Min(rs[k].offset, n.offset) < rs[k + 1].offset
    ensures var grown := rs[k := Concatenate(rs[k], n, identical).whole];
            Ordered(grown) && EndsBy(grown, total) && Extends(grown, rs, n) && n.Within(grown[k])
  {
    var w := Concatenate(rs[k], n, identical).whole;
    MergedMeaning(rs[k], n, identical);
    SourcedSelf(rs, n);
    assert Sourced(rs[k], rs, n);
    assert Sourced(w, rs, n);
    ReplaceSound(rs, k, w, rs, n, total);
  }

  lemma JoinedSound(rs: seq<Range>, k: nat, n: Range, identical: bool, free: nat, total: nat)
    requires k < |rs| && n.size > 0 && n.End() <= total
    requires Ordered(rs) && EndsBy(rs, total)
    requires rs[k].offset <= n.offset
    requires k + 1 < |rs| ==> rs[k].offset < rs[k + 1].offset
    ensures var joint := Concatenate(rs[k], n, identical);
            (joint.Merged? || joint.Kept?) ==>
              var res := JoinNext(if joint.Merged? then rs[k := joint.whole] else rs, k, identical, free);
              res.ok && Ordered(res.ranges) && EndsBy(res.ranges, total) && Extends(res.ranges, rs, n)
  {
    var joint := Concatenate(rs[k], n, identical);
    if joint.Merged? {
      if k > 0 {
        assert rs[k - 1].offset < rs[k].offset;
      }
      GrowSound(rs, k, n, identical, total);
      JoinNextSound(rs[k := joint.whole], k, rs, n, identical, free, total);
    } else if joint.Kept? {
      SourcedSelf(rs, n);
      assert n.Within(rs[k]);
      JoinNextSound(rs, k, rs, n, identical, free, total);
    }
  }

  lemma {:induction false} AppendSound(rs: seq<Range>, k: nat, n: Range, total: nat)
    requires k < |rs| && n.size > 0 && n.End() <= total
    requires Ordered(rs) && EndsBy(rs, total)
    requires rs[k].offset < n.offset
    ensures var head := rs[..k + 1] + [n];
            Ordered(head) && EndsBy(head, total) && Extends(head, rs, n)
  {
    SourcedSelf(rs, n);
    assert Sourced(n, rs, n);
    OrderedSplice(rs[..k + 1], [n]);
    assert (rs[..k + 1] + [n])[k + 1] == n;
  }

  lemma BetweenSound(rs: seq<Range>, k: nat, n: Range, total: nat)
    requires k + 1 < |rs| && n.size > 0 && n.End() <= total
    requires Ordered(rs) && EndsBy(rs, total)
    requires rs[k].offset < n.offset < rs[k + 1].offset
    ensures var res := rs[..k + 1] + [n] + rs[k + 1..];
            Ordered(res) && EndsBy(res, total) && Extends(res, rs, n)
  {
    AppendSound(rs, k, n, total);
    SourcedSelf(rs, n);
    OrderedSplice(rs[..k + 1] + [n], rs[k + 1..]);
    assert (rs[..k + 1] + [n] + rs[k + 1..])[k + 1] == n;
  }

  lemma InsertAfterSound(rs: seq<Range>, k: nat, n: Range, identical: bool, free: nat, total: nat)
    requires k < |rs| && n.size > 0 && n.End() <= total
    requires Ordered(rs) && EndsBy(rs, total)
    requires rs[k].offset < n.offset && (k + 1 < |rs| ==> n.offset <= rs[k + 1].offset)
    ensures var res := InsertAfter(rs, k, n, identical, free);
            res.ok ==> Ordered(res.ranges) && EndsBy(res.ranges, total) && Extends(res.ranges, rs, n)
  {
    hide Sourced;
    AppendSound(rs, k, n, total);
    if k + 1 == |rs| {
      assert rs + [n] == rs[..k + 1] + [n];
    } else {
      match Concatenate(rs[k + 1], n, identical)
      case Merged(whole) =>
        GrowSound(rs, k + 1, n, identical, total);
      case Kept =>
        SourcedSelf(rs, n);
        assert n.Within(rs[k + 1]);
      case Clash =>
      case Apart =>
        BetweenSound(rs, k, n, total);
    }
  }

  /** Whatever the fragment overlaps and whatever its bytes, a stored fragment leaves an
      ordered list that covers it and claims nothing that was not stored before. */
  lemma {:induction false} StoreSound(rs: seq<Range>, n: Range, identical: bool, free: nat, total: nat)
    requires Ordered(rs) && EndsBy(rs, total)
    requires n.size > 0 && n.End() <= total
    ensures var res := Store(rs, n, identical, free);
            res.ok ==> Ordered(res.ranges) && EndsBy(res.ranges, total) && Extends(res.ranges, rs, n)
  {
    var k := FindAfter(rs, n.offset, 0);
    var at := if n.offset == 0 then 0 else k;
    JoinedSound(rs, at, n, identical, free, total);
    match Concatenate(rs[at], n, identical)
    case Merged(_) =>
    case Kept =>
    case Clash =>
      assert [n][0] == n && [Range(0, 0), n][1] == n;
    case Apart =>
      assert [n][0] == n;
      if n.offset > 0 {
        InsertAfterSound(rs, k, n, identical, free, total);
      }
  }

  // ---------------------------------------------------------------------------
  // The canonical form
  // ---------------------------------------------------------------------------

  ghost predicate Gapped(rs: seq<Range>) {
    && (forall i :: 0 < i < |rs| ==> rs[i].size > 0)
    && (forall i, j :: 0 <= i < j < |rs| ==> rs[i].End() < rs[j].offset)
  }

  lemma GappedSplice(a: seq<Range>, b: seq<Range>)
    requires Gapped(a) && Gapped(b)
    requires |a| > 0 && |b| > 0 ==> a[|a| - 1].End() < b[0].offset && b[0].size > 0
    ensures Gapped(a + b)
  {
    forall i, j | 0 <= i < j < |a + b|
      ensures (a + b)[i].End() < (a + b)[j].offset
    {
      if i < |a| <= j {
        assert i < |a| - 1 ==> a[i].End() < a[|a| - 1].offset;
        assert j > |a| ==> b[0].End() < b[j - |a|].offset;
      }
    }
  }

  /** Spec k has grown over its gap, so only what follows it may be too close. */
  ghost predicate GappedBut(rs: seq<Range>, k: nat) {
    && k < |rs|
    && Gapped(rs[..k + 1]) && Gapped(rs[k + 1..])
    && (k + 1 < |rs| ==> rs[k + 1].size > 0 && rs[k].offset < rs[k + 1].offset)
  }

  lemma JoinNextGapped(rs: seq<Range>, k: nat, identical: bool, free: nat)
    requires GappedBut(rs, k)
    ensures Gapped(JoinNext(rs, k, identical, free).ranges) <==>
            !(identical && k + 2 < |rs| && rs[k + 2].offset <= rs[k].End())
  {
    hide Gapped;
    assert rs == rs[..k + 1] + rs[k + 1..];
    if k + 1 < |rs| {
      SpecsAfter(rs, k);
      match Concatenate(rs[k], rs[k + 1], identical)
      case Merged(whole) =>
        SwallowGapped(rs, k, whole);
      case Kept =>
        KeptGapped(rs, k);
      case Apart =>
        GappedSplice(rs[..k + 1], rs[k + 1..]);
      case Clash =>
    } else {
      assert rs[..k + 1] == rs;
    }
  }

  lemma SpecsAfter(rs: seq<Range>, k: nat)
    requires GappedBut(rs, k) && k + 1 < |rs|
    ensures k + 2 < |rs| ==> rs[k + 1].End() < rs[k + 2].offset
    ensures rs[..k + 1][k] == rs[k] && rs[k + 1..][0] == rs[k + 1]
  {
    assert k + 2 < |rs| ==> rs[k + 1..][1] == rs[k + 2];
  }

  lemma KeptGapped(rs: seq<Range>, k: nat)
    requires GappedBut(rs, k) && k + 1 < |rs|
    ensures Gapped(rs[..k + 1] + rs[k + 2..]) <==> !(k + 2 < |rs| && rs[k + 2].offset <= rs[k].End())
  {
    var head, tail := rs[..k + 1], rs[k + 1..];
    var res := head + rs[k + 2..];
    assert tail[1..] == rs[k + 2..];
    assert k + 2 < |rs| ==> res[k] == rs[k] && res[k + 1] == rs[k + 2] == tail[1];
    if k + 2 == |rs| || rs[k].End() < rs[k + 2].offset {
      GappedSplice(head, tail[1..]);
    }
  }

  lemma SwallowGapped(rs: seq<Range>, k: nat, whole: Range)
    requires GappedBut(rs, k) && k + 1 < |rs|
    requires rs[k].End() == rs[k + 1].offset && whole == Range(rs[k].offset, rs[k].size + rs[k + 1].size)
    ensures Gapped(rs[..k] + [whole] + rs[k + 2..])
  {
    var head, tail := rs[..k + 1], rs[k + 1..];
    assert tail[0] == rs[k + 1] && tail[1..] == rs[k + 2..];
    assert k > 0 ==> head[k - 1].End() < head[k].offset;
    assert head[..k] == rs[..k];
    GappedSplice(rs[..k], [whole]);
    GappedSplice(rs[..k] + [whole], tail[1..]);
  }

  /** The one way to lose the canonical form: the fragment starts where spec k ends, brings
      bytes identical to those in the packet, and ends at the start of spec k + 2 or beyond. */
  ghost predicate ReachesTooFar(rs: seq<Range>, n: Range, identical: bool) {
    identical && exists k :: 0 <= k && k + 2 < |rs| && rs[k].End() == n.offset && rs[k + 2].offset <= n.End()
  }

  lemma GappedSlice(rs: seq<Range>, lo: nat, hi: nat)
    requires Gapped(rs) && lo <= hi <= |rs|
    ensures Gapped(rs[lo..hi])
  {
  }

  lemma GrownIsGappedBut(rs: seq<Range>, k: nat, n: Range, identical: bool)
    requires Canonical(rs) && k < |rs| && n.size > 0
    requires rs[k].End() == n.offset
    ensures Concatenate(rs[k], n, identical) == Merged(Range(rs[k].offset, rs[k].size + n.size))
    ensures GappedBut(rs[k := Range(rs[k].offset, rs[k].size + n.size)], k)
  {
    var grown := rs[k := Range(rs[k].offset, rs[k].size + n.size)];
    assert k > 0 ==> rs[k - 1].End() < rs[k].offset;
    assert k + 1 < |rs| ==> rs[k].offset < rs[k + 1].offset && rs[k + 1].size > 0;
    CanonicalIsGapped(rs);
    GrownIsGapped(rs, k, grown[k]);
  }

  lemma GrownIsGapped(rs: seq<Range>, k: nat, w: Range)
    requires Gapped(rs) && k < |rs| && w.size > 0
    requires k > 0 ==> rs[k - 1].End() < w.offset
    ensures Gapped(rs[k := w][..k + 1]) && Gapped(rs[k := w][k + 1..])
  {
    GappedSlice(rs, 0, k);
    GappedSlice(rs, k + 1, |rs|);
    GappedSplice(rs[..k], [w]);
    assert rs[0..k] == rs[..k] && rs[k + 1..|rs|] == rs[k + 1..];
    assert rs[k := w][..k + 1] == rs[..k] + [w];
    assert rs[k := w][k + 1..] == rs[k + 1..];
  }

  lemma {:induction false} InsertAfterGapped(rs: seq<Range>, k: nat, n: Range, identical: bool, free: nat)
    requires Canonical(rs) && k < |rs| && n.size > 0
    requires rs[k].End() < n.offset && (k + 1 < |rs| ==> n.offset <= rs[k + 1].offset)
    ensures var res := InsertAfter(rs, k, n, identical, free);
            res.ok ==> Canonical(res.ranges)
  {
    hide Gapped, Canonical, Concatenate;
    CanonicalIsGapped(rs);
    CanonicalIsGapped(InsertAfter(rs, k, n, identical, free).ranges);
    assert rs[..k + 1][k] == rs[k];
    OneIsGapped(n);
    if k + 1 == |rs| {
      GappedSplice(rs, [n]);
    } else {
      NonemptyAfter(rs, k + 1);
      ConcatenateSense(rs[k + 1], n, identical);
      match Concatenate(rs[k + 1], n, identical)
      case Merged(whole) =>
        WidenLeftGapped(rs, k + 1, n, whole);
      case Kept =>
      case Clash =>
        GappedSlice(rs, 0, k + 1);
        assert rs[0..k + 1] == rs[..k + 1];
        GappedSplice(rs[..k + 1], [n]);
      case Apart =>
        BetweenGapped(rs, k, n);
    }
  }

  lemma NonemptyAfter(rs: seq<Range>, i: nat)
    requires Canonical(rs) && 0 < i < |rs|
    ensures rs[i].size > 0
  {
  }

  lemma OneIsGapped(n: Range)
    ensures Gapped([n])
  {
  }

  /** What the outcome says when the new range starts no later than the stored one. */
  lemma ConcatenateSense(r: Range, n: Range, identical: bool)
    requires r.size > 0 && n.size > 0 && n.offset <= r.offset
    ensures match Concatenate(r, n, identical)
            case Merged(whole) => whole == Range(n.offset, n.size + r.size) && whole.End() == r.End()
            case Apart => n.End() < r.offset
            case _ => true
  {
  }

  lemma WidenLeftGapped(rs: seq<Range>, k: nat, n: Range, whole: Range)
    requires Gapped(rs) && 0 < k < |rs| && rs[k - 1].End() < n.offset
    requires whole == Range(n.offset, n.size + rs[k].size) && whole.End() == rs[k].End()
    ensures Gapped(rs[k := whole])
  {
    assert rs[k := whole] == rs[..k] + ([whole] + rs[k + 1..]);
    assert k + 1 < |rs| ==> rs[k].End() < rs[k + 1].offset;
    GappedSplice([whole], rs[k + 1..]);
    GappedSplice(rs[..k], [whole] + rs[k + 1..]);
  }

  lemma BetweenGapped(rs: seq<Range>, k: nat, n: Range)
    requires Gapped(rs) && k + 1 < |rs| && n.size > 0
    requires rs[k].End() < n.offset && n.End() < rs[k + 1].offset
    ensures Gapped(rs[..k + 1] + [n] + rs[k + 1..])
  {
    GappedSplice(rs[..k + 1], [n]);
    GappedSplice(rs[..k + 1] + [n], rs[k + 1..]);
  }

  lemma CanonicalIsGapped(rs: seq<Range>)
    requires |rs| > 0
    ensures Canonical(rs) <==> Gapped(rs) && rs[0].offset == 0
  {
  }

  /** The spec that a fragment is first tried against. */
  function PlaceOf(rs: seq<Range>, n: Range): (k: nat)
    requires |rs| > 0 && rs[0].offset == 0
    ensures k < |rs|
    ensures n.offset > 0 ==> rs[k].offset < n.offset && (k + 1 < |rs| ==> n.offset <= rs[k + 1].offset)
    ensures n.offset == 0 ==> k == 0
  {
    if n.offset == 0 then 0 else FindAfter(rs, n.offset, 0)
  }

  lemma StoreTouching(rs: seq<Range>, n: Range, k: nat, identical: bool, free: nat)
    requires Canonical(rs) && n.size > 0
    requires k == PlaceOf(rs, n) && rs[k].End() == n.offset
    ensures var grown := rs[k := Range(rs[k].offset, rs[k].size + n.size)];
            GappedBut(grown, k) && Store(rs, n, identical, free) == JoinNext(grown, k, identical, free)
  {
    GrownIsGappedBut(rs, k, n, identical);
  }

  /** Exactly when a stored fragment leaves the list canonical. */
  lemma {:induction false} StoreCanonicalIff(rs: seq<Range>, n: Range, identical: bool, free: nat)
    requires Canonical(rs) && n.size > 0
    ensures var res := Store(rs, n, identical, free);
            res.ok ==> (Canonical(res.ranges) <==> !ReachesTooFar(rs, n, identical))
  {
    assert rs[0].offset == 0;
    hide Store, Canonical;
    var k := PlaceOf(rs, n);
    TouchesOnlyAtPlace(rs, n, k);
    if rs[k].End() == n.offset {
      TouchingCanonicalIff(rs, n, k, identical, free);
    } else {
      NotTouchingCanonical(rs, n, k, identical, free);
    }
  }

  lemma {:induction false} TouchingCanonicalIff(rs: seq<Range>, n: Range, k: nat, identical: bool, free: nat)
    requires Canonical(rs) && n.size > 0
    requires k == PlaceOf(rs, n) && rs[k].End() == n.offset
    ensures var res := Store(rs, n, identical, free);
            Canonical(res.ranges) <==> !(identical && k + 2 < |rs| && rs[k + 2].offset <= n.End())
  {
    var grown := rs[k := Range(rs[k].offset, rs[k].size + n.size)];
    StoreTouching(rs, n, k, identical, free);
    JoinNextGapped(grown, k, identical, free);
    JoinNextKeepsStart(grown, k, identical, free);
    CanonicalIsGapped(JoinNext(grown, k, identical, free).ranges);
  }

  lemma JoinNextKeepsStart(rs: seq<Range>, k: nat, identical: bool, free: nat)
    requires k < |rs| && (k + 1 < |rs| ==> rs[k].offset < rs[k + 1].offset)
    ensures JoinNext(rs, k, identical, free).ranges[0].offset == rs[0].offset
  {
  }

  lemma {:induction false} NotTouchingCanonical(rs: seq<Range>, n: Range, k: nat, identical: bool, free: nat)
    requires Canonical(rs) && n.size > 0
    requires k == PlaceOf(rs, n) && rs[k].End() != n.offset
    ensures var res := Store(rs, n, identical, free);
            res.ok ==> Canonical(res.ranges)
  {
    match Concatenate(rs[k], n, identical)
    case Merged(_) =>
    case Kept =>
      KeptChangesNothing(rs, k, identical, free);
    case Clash =>
    case Apart =>
      if n.offset > 0 {
        InsertAfterGapped(rs, k, n, identical, free);
      }
  }

  lemma KeptChangesNothing(rs: seq<Range>, k: nat, identical: bool, free: nat)
    requires Canonical(rs) && k < |rs|
    ensures JoinNext(rs, k, identical, free) == MergeResult(true, rs, free)
  {
    assert k + 1 < |rs| ==> rs[k].End() < rs[k + 1].offset;
  }

  /** Only the spec at which a fragment is stored can end where it starts. */
  lemma TouchesOnlyAtPlace(rs: seq<Range>, n: Range, k: nat)
    requires Canonical(rs) && n.size > 0
    requires k == PlaceOf(rs, n)
    ensures forall i :: 0 <= i < |rs| && i != k ==> rs[i].End() != n.offset
  {
    forall i | 0 <= i < |rs| && i != k
      ensures rs[i].End() != n.offset
    {
      if i < k {
        assert rs[i].End() < rs[k].offset;
      } else {
        assert k + 1 < i ==> rs[k + 1].End() < rs[i].offset;
      }
    }
  }

  /** The form is lost for this list and fragment: one swallowed spec, one left inside the new range. */
  lemma CanonicalFormCanBeLost(free: nat)
    ensures var rs := [Range(0, 8), Range(16, 8), Range(32, 8)];
            var res := Store(rs, Range(8, 40), true, free);
            Canonical(rs) && ReachesTooFar(rs, Range(8, 40), true)
            && res == MergeResult(true, [Range(0, 48), Range(32, 8)], free + 1) && !Canonical(res.ranges)
  {
    var rs := [Range(0, 8), Range(16, 8), Range(32, 8)];
    assert rs[0].End() == 8 && rs[2].offset <= 48;
    assert FindAfter(rs, 8, 0) == 0;
    var grown := [Range(0, 48), Range(16, 8), Range(32, 8)];
    assert rs[0 := Range(0, 48)] == grown;
    assert grown[..1] + grown[2..] == [Range(0, 48), Range(32, 8)];
    assert !([Range(0, 48), Range(32, 8)][0].End() < [Range(0, 48), Range(32, 8)][1].offset);
  }

  // ---------------------------------------------------------------------------
  // Set union: a fragment that is new as a whole, or known as a whole
  // ---------------------------------------------------------------------------

  ghost predicate Uncovered(rs: seq<Range>, n: Range) {
    forall x :: n.Has(x) ==> !Covers(rs, x)
  }

  ghost predicate Touches(rs: seq<Range>, n: Range) {
    exists i :: 0 <= i < |rs| && (rs[i].End() == n.offset || n.End() == rs[i].offset)
  }

  lemma UncoveredMeansBeside(rs: seq<Range>, n: Range, i: nat)
    requires i < |rs| && rs[i].size > 0 && n.size > 0 && Uncovered(rs, n)
    ensures rs[i].End() <= n.offset || n.End() <= rs[i].offset
  {
    var x := Max(rs[i].offset, n.offset);
    assert rs[i].Has(x) && n.Has(x) ==> Covers(rs, x);
  }

  lemma PlaceBeside(rs: seq<Range>, n: Range, k: nat)
    requires Canonical(rs) && n.size > 0 && Uncovered(rs, n)
    requires k == PlaceOf(rs, n)
    ensures rs[k].End() <= n.offset
    ensures k + 1 < |rs| ==> n.End() <= rs[k + 1].offset
  {
    if rs[k].size > 0 {
      UncoveredMeansBeside(rs, n, k);
    }
    if k + 1 < |rs| {
      UncoveredMeansBeside(rs, n, k + 1);
    }
  }

  ghost predicate Inside(rs: seq<Range>, outer: seq<Range>) {
    forall i :: 0 <= i < |rs| ==> Contains(outer, rs[i])
  }

  lemma InsideCovers(rs: seq<Range>, outer: seq<Range>)
    requires Inside(rs, outer)
    ensures forall x :: Covers(rs, x) ==> Covers(outer, x)
  {
    forall x | Covers(rs, x)
      ensures Covers(outer, x)
    {
      var i :| 0 <= i < |rs| && rs[i].Has(x);
      assert Contains(outer, rs[i]);
      var j :| 0 <= j < |outer| && rs[i].Within(outer[j]);
      assert outer[j].Has(x);
    }
  }

  lemma InsideJoinNext(rs: seq<Range>, grown: seq<Range>, k: nat, identical: bool, free: nat)
    requires k < |rs| == |grown| && rs[k].Within(grown[k])
    requires forall i :: 0 <= i < |rs| && i != k ==> grown[i] == rs[i]
    requires k + 1 < |rs| ==> grown[k].offset < grown[k + 1].offset && grown[k].End() <= grown[k + 1].offset
    ensures Inside(rs, JoinNext(grown, k, identical, free).ranges)
  {
    var res := JoinNext(grown, k, identical, free).ranges;
    forall i | 0 <= i < |rs|
      ensures Contains(res, rs[i])
    {
      if i <= k {
        assert rs[i].Within(res[i]);
      } else if |res| == |rs| {
        assert rs[i].Within(res[i]);
      } else if i == k + 1 {
        assert rs[i].Within(res[k]);
      } else {
        assert res[i - 1] == grown[i];
        assert rs[i].Within(res[i - 1]);
      }
    }
  }

  lemma InsideInsertAfter(rs: seq<Range>, k: nat, n: Range, identical: bool, free: nat)
    requires k < |rs| && n.size > 0 && rs[k].End() < n.offset
    requires k + 1 < |rs| ==> n.End() <= rs[k + 1].offset && rs[k + 1].size > 0
    ensures var res := InsertAfter(rs, k, n, identical, free);
            Inside(rs, res.ranges) && (res.ok <==> free > 0 || (k + 1 < |rs| && n.End() == rs[k + 1].offset))
  {
    var res := InsertAfter(rs, k, n, identical, free);
    forall i | 0 <= i < |rs|
      ensures Contains(res.ranges, rs[i])
    {
      if |res.ranges| == |rs| || i <= k {
        assert rs[i].Within(res.ranges[i]);
      } else {
        assert res.ranges[i + 1] == rs[i];
        assert rs[i].Within(res.ranges[i + 1]);
      }
    }
  }

  /** A fragment none of whose bytes is covered: the canonical list of the union, or a
      failure exactly when it needs a spec of its own and the pool is empty. */
  lemma {:induction false} StoreUncovered(rs: seq<Range>, n: Range, identical: bool, free: nat, total: nat)
    requires Canonical(rs) && n.size > 0 && Uncovered(rs, n)
    requires EndsBy(rs, total) && n.End() <= total
    ensures var res := Store(rs, n, identical, free);
            && (res.ok <==> free > 0 || Touches(rs, n))
            && (res.ok ==> Canonical(res.ranges) && EndsBy(res.ranges, total)
                           && forall x :: Covers(res.ranges, x) <==> Covers(rs, x) || n.Has(x))
  {
    var res := Store(rs, n, identical, free);
    var k := PlaceOf(rs, n);
    PlaceBeside(rs, n, k);
    if rs[k].End() == n.offset {
      JoiningKeepsAll(rs, n, k, identical, free);
    } else {
      InsertingKeepsAll(rs, n, k, identical, free);
    }
    InsideCovers(rs, res.ranges);
    CanonicalIsOrdered(rs);
    StoreSound(rs, n, identical, free, total);
    if res.ok {
      ExtendsPointwise(res.ranges, rs, n);
    }
  }

  lemma {:induction false} JoiningKeepsAll(rs: seq<Range>, n: Range, k: nat, identical: bool, free: nat)
    requires Canonical(rs) && n.size > 0
    requires k == PlaceOf(rs, n) && rs[k].End() == n.offset
    requires k + 1 < |rs| ==> n.End() <= rs[k + 1].offset
    ensures var res := Store(rs, n, identical, free);
            res.ok && Touches(rs, n) && Canonical(res.ranges) && Inside(rs, res.ranges)
  {
    hide Store, JoinNext, GappedBut, Inside;
    StoreTouching(rs, n, k, identical, free);
    var grown := rs[k := Range(rs[k].offset, rs[k].size + n.size)];
    InsideJoinNext(rs, grown, k, identical, free);
    assert k + 2 < |rs| ==> rs[k + 1].End() < rs[k + 2].offset;
    TouchingCanonicalIff(rs, n, k, identical, free);
  }

  lemma InsertingKeepsAll(rs: seq<Range>, n: Range, k: nat, identical: bool, free: nat)
    requires Canonical(rs) && n.size > 0
    requires k == PlaceOf(rs, n) && rs[k].End() < n.offset
    requires k + 1 < |rs| ==> n.End() <= rs[k + 1].offset
    ensures var res := Store(rs, n, identical, free);
            && (res.ok <==> free > 0 || Touches(rs, n))
            && (res.ok ==> Canonical(res.ranges)) && Inside(rs, res.ranges)
  {
    StoreIsInsertAfter(rs, n, k, identical, free);
    InsideInsertAfter(rs, k, n, identical, free);
    EndTouchIsNext(rs, n, k);
    InsertAfterGapped(rs, k, n, identical, free);
  }

  lemma StoreIsInsertAfter(rs: seq<Range>, n: Range, k: nat, identical: bool, free: nat)
    requires |rs| > 0 && rs[0].offset == 0 && n.size > 0
    requires k == PlaceOf(rs, n) && rs[k].End() < n.offset
    ensures Store(rs, n, identical, free) == InsertAfter(rs, k, n, identical, free)
  {
    assert k == FindAfter(rs, n.offset, 0);
    ApartIsInsertAfter(rs, n, k, identical, free);
  }

  lemma ApartIsInsertAfter(rs: seq<Range>, n: Range, k: nat, identical: bool, free: nat)
    requires k < |rs| && n.offset > 0 && n.size > 0
    requires rs[k].offset < n.offset && rs[k].End() < n.offset
    ensures Merge(rs, k, n, identical, free) == InsertAfter(rs, k, n, identical, free)
  {
    assert Concatenate(rs[k], n, identical) == Apart;
  }

  lemma EndTouchIsNext(rs: seq<Range>, n: Range, k: nat)
    requires Canonical(rs) && n.size > 0 && n.offset > 0
    requires k == PlaceOf(rs, n) && rs[k].End() < n.offset
    requires k + 1 < |rs| ==> n.End() <= rs[k + 1].offset
    ensures Touches(rs, n) <==> k + 1 < |rs| && n.End() == rs[k + 1].offset
  {
    TouchesOnlyAtPlace(rs, n, k);
    forall i | 0 <= i < |rs| && i != k + 1
      ensures n.End() != rs[i].offset
    {
      assert i < k ==> rs[i].End() < rs[k].offset;
      assert k + 1 < i ==> rs[k + 1].End() < rs[i].offset;
    }
  }

  lemma WithinIsNear(rs: seq<Range>, n: Range, k: nat, j: nat)
    requires Canonical(rs) && n.size > 0 && j < |rs|
    requires k == PlaceOf(rs, n)
    ensures n.Within(rs[j]) ==> j == k || (j == k + 1 && rs[k].End() < rs[j].offset == n.offset)
  {
    assert j < k ==> rs[j].End() < rs[k].offset;
    assert k < j ==> rs[k].End() < rs[j].offset;
    assert k + 1 < j ==> rs[k + 1].End() < rs[j].offset;
  }

  /** A fragment that is covered already and brings the same bytes changes nothing. */
  lemma StoreKnown(rs: seq<Range>, n: Range, free: nat)
    requires Canonical(rs) && n.size > 0 && Contains(rs, n)
    ensures Store(rs, n, true, free) == MergeResult(true, rs, free)
  {
    var k := PlaceOf(rs, n);
    KeptChangesNothing(rs, k, true, free);
    forall j | 0 <= j < |rs| && n.Within(rs[j])
      ensures j == k || (j == k + 1 && rs[k].End() < rs[j].offset == n.offset)
    {
      WithinIsNear(rs, n, k, j);
    }
  }

  /** Any overlap, when the bytes differ: a stored fragment keeps the canonical form,
      is covered, and adds nothing else; a failure means that the pool is empty. */
  lemma {:induction false} StoreConflicting(rs: seq<Range>, n: Range, free: nat, total: nat)
    requires Canonical(rs) && n.size > 0
    requires EndsBy(rs, total) && n.End() <= total
    ensures var res := Store(rs, n, false, free);
            && (res.ok ==> Canonical(res.ranges) && EndsBy(res.ranges, total)
                           && (forall x :: n.Has(x) ==> Covers(res.ranges, x))
                           && (forall x :: Covers(res.ranges, x) ==> Covers(rs, x) || n.Has(x)))
            && (!res.ok ==> res.free == 0)
  {
    var res := Store(rs, n, false, free);
    CanonicalIsOrdered(rs);
    StoreSound(rs, n, false, free, total);
    StoreCanonicalIff(rs, n, false, free);
    if res.ok {
      ExtendsPointwise(res.ranges, rs, n);
    }
  }

  /** A canonical list covers [0, total) exactly when its first range does. */
  lemma CompleteIff(rs: seq<Range>, total: nat)
    requires Canonical(rs) && EndsBy(rs, total)
    ensures (forall x :: 0 <= x < total ==> Covers(rs, x)) <==> rs[0].size == total
  {
    if rs[0].size == total {
      assert forall x :: 0 <= x < total ==> rs[0].Has(x);
    } else {
      var x := rs[0].size;
      forall i | 0 <= i < |rs|
        ensures !rs[i].Has(x)
      {
        assert i > 0 ==> rs[0].End() < rs[i].offset;
      }
      assert !Covers(rs, x);
    }
  }

  /** A range all of whose bytes a canonical list covers lies in one of its ranges. */
  lemma CoveredIsContained(rs: seq<Range>, n: Range)
    requires Canonical(rs) && n.size > 0
    requires forall x :: n.Has(x) ==> Covers(rs, x)
    ensures Contains(rs, n)
  {
    assert n.Has(n.offset);
    var i :| 0 <= i < |rs| && rs[i].Has(n.offset);
    var x := rs[i].End();
    forall j | 0 <= j < |rs|
      ensures !rs[j].Has(x)
    {
      assert j < i ==> rs[j].End() < rs[i].offset;
      assert i < j ==> rs[i].End() < rs[j].offset;
    }
    assert !Covers(rs, x);
    assert n.Within(rs[i]);
  }

  // ---------------------------------------------------------------------------
  // What is covered afterwards, exactly
  // ---------------------------------------------------------------------------

  /** Storing n, which starts within or after spec k and before spec k + 1 or with it, drops what follows spec k:
      n runs into spec k + 1, unless the bytes are the same, spec k ends where n starts, and n reaches to the end
      of spec k + 1. */
  ghost predicate DropsNext(rs: seq<Range>, k: nat, n: Range, identical: bool) {
    && k + 1 < |rs| && rs[k + 1].offset < n.End()
    && !(identical && rs[k].End() == n.offset && rs[k + 1].End() <= n.End())
  }

  /** Whether x is covered once n is stored.  Known bytes change nothing.  Otherwise n is covered; if it overlaps
      spec k, everything else is dropped; if it overlaps what follows, that may be dropped. */
  ghost predicate CoversAfter(rs: seq<Range>, k: nat, n: Range, identical: bool, x: int)
    requires k < |rs|
  {
    if identical && Contains(rs, n) then Covers(rs, x)
    else
      || n.Has(x)
      || (rs[k].End() <= n.offset
          && (Covers(rs[..k + 1], x) || (!DropsNext(rs, k, n, identical) && Covers(rs[k + 1..], x))))
  }

  /** No spec is left for n, which needs one of its own: it lies apart from all others, or it overlaps the only one. */
  ghost predicate LacksSpec(rs: seq<Range>, k: nat, n: Range, identical: bool, free: nat)
    requires k < |rs|
  {
    && free == 0 && n.offset > 0 && !(identical && Contains(rs, n))
    && if rs[k].End() > n.offset then |rs| == 1
       else rs[k].End() < n.offset && (k + 1 == |rs| || n.End() < rs[k + 1].offset)
  }

  lemma CoversSplit(a: seq<Range>, b: seq<Range>, x: int)
    ensures Covers(a + b, x) <==> Covers(a, x) || Covers(b, x)
  {
    if Covers(a, x) {
      var i :| 0 <= i < |a| && a[i].Has(x);
      assert (a + b)[i].Has(x);
    }
    if Covers(b, x) {
      var i :| 0 <= i < |b| && b[i].Has(x);
      assert (a + b)[|a| + i].Has(x);
    }
  }

  lemma CoversOne(r: Range, x: int)
    ensures Covers([r], x) <==> r.Has(x)
  {
    assert [r][0] == r;
  }

  lemma CoversParts(rs: seq<Range>, k: nat, x: int)
    requires k < |rs|
    ensures Covers(rs, x) <==> Covers(rs[..k + 1], x) || Covers(rs[k + 1..], x)
    ensures Covers(rs[..k + 1], x) <==> Covers(rs[..k], x) || rs[k].Has(x)
  {
    CoversSplit(rs[..k + 1], rs[k + 1..], x);
    assert rs[..k + 1] + rs[k + 1..] == rs;
    CoversSplit(rs[..k], [rs[k]], x);
    CoversOne(rs[k], x);
    assert rs[..k] + [rs[k]] == rs[..k + 1];
  }

  /** What joining spec k with the next one leaves covered. */
  lemma JoinNextCovers(rs: seq<Range>, k: nat, identical: bool, free: nat, x: int)
    requires k < |rs| && (k + 1 < |rs| ==> rs[k + 1].size > 0 && rs[k].offset < rs[k + 1].offset)
    ensures var drops := k + 1 < |rs| && rs[k + 1].offset < rs[k].End() && !(identical
            && rs[k + 1].End() <= rs[k].End());
            Covers(JoinNext(rs, k, identical, free).ranges, x)
            <==> Covers(rs[..k + 1], x) || (!drops && Covers(rs[k + 1..], x))
  {
    hide Covers, Concatenate;
    CoversParts(rs, k, x);
    if k + 1 < |rs| {
      NextMeets(rs[k], rs[k + 1], identical);
      var rest := rs[k + 1..];
      CoversParts(rest, 0, x);
      assert rest[..0] == [] && rest[0 + 1..] == rs[k + 2..];
      CoversNothing(x);
      match Concatenate(rs[k], rs[k + 1], identical)
      case Merged(whole) =>
        MergedMeaning(rs[k], rs[k + 1], identical);
        CoversSplit(rs[..k] + [whole], rs[k + 2..], x);
        CoversSplit(rs[..k], [whole], x);
        CoversOne(whole, x);
      case Kept =>
        CoversSplit(rs[..k + 1], rs[k + 2..], x);
        WithinCovered(rs[k + 1], rs[k], x);
      case Apart =>
      case Clash =>
    } else {
      assert rs[k + 1..] == [];
      CoversNothing(x);
    }
  }

  lemma CoversNothing(x: int)
    ensures !Covers([], x)
  {
  }

  lemma WithinCovered(r: Range, outer: Range, x: int)
    requires r.Within(outer)
    ensures r.Has(x) ==> outer.Has(x)
  {
  }

  /** The outcomes for a spec and the one after it. */
  lemma NextMeets(r: Range, next: Range, identical: bool)
    requires next.size > 0 && r.offset < next.offset
    ensures Concatenate(r, next, identical).Merged? <==> r.End() == next.offset
    ensures Concatenate(r, next, identical).Apart? <==> r.End() < next.offset
    ensures Concatenate(r, next, identical).Kept? <==> next.offset < r.End() && next.End() <= r.End() && identical
  {
  }

  /** The outcomes for spec k and a fragment that does not start before it. */
  lemma PlaceMeets(r: Range, n: Range, identical: bool)
    requires n.size > 0 && r.offset <= n.offset && (r.offset == n.offset ==> n.offset == 0)
    ensures Concatenate(r, n, identical).Merged? <==> r.End() == n.offset
    ensures Concatenate(r, n, identical).Apart? <==> r.End() < n.offset
    ensures Concatenate(r, n, identical).Kept? <==> n.offset < r.End() && n.End() <= r.End() && identical
  {
  }

  /** The outcomes for a fragment and a spec that does not start before it. */
  lemma AheadMeets(r: Range, n: Range, identical: bool)
    requires r.size > 0 && n.size > 0 && n.offset <= r.offset
    ensures Concatenate(r, n, identical).Merged? <==> n.End() == r.offset
    ensures Concatenate(r, n, identical).Apart? <==> n.End() < r.offset
    ensures Concatenate(r, n, identical).Kept? <==> n.Within(r) && identical && r.offset < n.End()
  {
  }

  /** A fragment with a gap after spec k. */
  lemma InsertAfterCovers(rs: seq<Range>, k: nat, n: Range, identical: bool, free: nat, x: int)
    requires k < |rs| && n.size > 0 && (k + 1 < |rs| ==> rs[k + 1].size > 0 && n.offset <= rs[k + 1].offset)
    ensures var res := InsertAfter(rs, k, n, identical, free);
            var known := identical && k + 1 < |rs| && n.Within(rs[k + 1]);
            && (res.ok <==> !(free == 0 && (k + 1 == |rs| || n.End() < rs[k + 1].offset)))
            && (res.ok ==>
                  (Covers(res.ranges, x) <==>
                   || n.Has(x) || Covers(rs[..k + 1], x)
                   || ((known || !(k + 1 < |rs| && rs[k + 1].offset < n.End())) && Covers(rs[k + 1..], x))))
  {
    hide Covers, Concatenate;
    CoversParts(rs, k, x);
    CoversNothing(x);
    CoversOne(n, x);
    if k + 1 == |rs| {
      assert rs[k + 1..] == [] && rs[..k + 1] == rs;
      CoversSplit(rs, [n], x);
    } else {
      var rest := rs[k + 1..];
      CoversParts(rest, 0, x);
      assert rest[..0] == [] && rest[0 + 1..] == rs[k + 2..];
      AheadMeets(rs[k + 1], n, identical);
      CoversSplit(rs[..k + 1], [n], x);
      match Concatenate(rs[k + 1], n, identical)
      case Merged(whole) =>
        MergedMeaning(rs[k + 1], n, identical);
        assert rs[k + 1 := whole] == rs[..k + 1] + [whole] + rs[k + 2..];
        CoversSplit(rs[..k + 1] + [whole], rs[k + 2..], x);
        CoversSplit(rs[..k + 1], [whole], x);
        CoversOne(whole, x);
      case Kept =>
        WithinCovered(n, rs[k + 1], x);
      case Apart =>
        CoversSplit(rs[..k + 1] + [n], rs[k + 1..], x);
      case Clash =>
    }
  }

  /** Storing a fragment, whatever it overlaps and whatever its bytes: when that fails for want of a spec, and
      exactly what is covered afterwards. */
  lemma {:induction false} StoreCovers(rs: seq<Range>, n: Range, identical: bool, free: nat)
    requires Canonical(rs) && n.size > 0
    ensures var k, res := PlaceOf(rs, n), Store(rs, n, identical, free);
            && (res.ok <==> !LacksSpec(rs, k, n, identical, free))
            && (res.ok ==> forall x :: Covers(res.ranges, x) <==> CoversAfter(rs, k, n, identical, x))
  {
    hide CoversAfter, Covers, Store, LacksSpec;
    StoreCoversAt(rs, n, identical, free, 0);
    forall x
      ensures var k, res := PlaceOf(rs, n), Store(rs, n, identical, free);
              res.ok ==> (Covers(res.ranges, x) <==> CoversAfter(rs, k, n, identical, x))
    {
      StoreCoversAt(rs, n, identical, free, x);
    }
  }

  lemma {:induction false} StoreCoversAt(rs: seq<Range>, n: Range, identical: bool, free: nat, x: int)
    requires Canonical(rs) && n.size > 0
    ensures var k, res := PlaceOf(rs, n), Store(rs, n, identical, free);
            && (res.ok <==> !LacksSpec(rs, k, n, identical, free))
            && (res.ok ==> (Covers(res.ranges, x) <==> CoversAfter(rs, k, n, identical, x)))
  {
    hide Covers;
    var k := PlaceOf(rs, n);
    assert k + 1 < |rs| ==> rs[k + 1].size > 0 && rs[k].End() < rs[k + 1].offset;
    ContainsNear(rs, n, k);
    if rs[k].End() == n.offset {
      TouchingCovers(rs, n, k, identical, free, x);
    } else if rs[k].End() < n.offset {
      StoreIsInsertAfter(rs, n, k, identical, free);
      InsertAfterCovers(rs, k, n, identical, free, x);
      CoversParts(rs, k, x);
      WithinCoveredNext(rs, k, n, x);
    } else {
      OverlappingCovers(rs, n, k, identical, free, x);
    }
  }

  lemma ContainsNear(rs: seq<Range>, n: Range, k: nat)
    requires Canonical(rs) && n.size > 0 && k == PlaceOf(rs, n)
    ensures Contains(rs, n) <==> n.Within(rs[k]) || (k + 1 < |rs| && rs[k].End() < n.offset && n.Within(rs[k + 1]))
  {
    forall j | 0 <= j < |rs| && n.Within(rs[j])
      ensures j == k || (j == k + 1 && rs[k].End() < rs[j].offset == n.offset)
    {
      WithinIsNear(rs, n, k, j);
    }
  }

  lemma WithinCoveredNext(rs: seq<Range>, k: nat, n: Range, x: int)
    ensures k + 1 < |rs| && n.Within(rs[k + 1]) && n.Has(x) ==> Covers(rs[k + 1..], x)
  {
    if k + 1 < |rs| && n.Within(rs[k + 1]) && n.Has(x) {
      assert rs[k + 1..][0].Has(x);
    }
  }

  lemma TouchingCovers(rs: seq<Range>, n: Range, k: nat, identical: bool, free: nat, x: int)
    requires Canonical(rs) && n.size > 0 && k == PlaceOf(rs, n) && rs[k].End() == n.offset
    requires !Contains(rs, n)
    ensures var res := Store(rs, n, identical, free);
            res.ok && (Covers(res.ranges, x) <==> CoversAfter(rs, k, n, identical, x))
  {
    hide Covers, Store, GappedBut, JoinNext;
    StoreTouching(rs, n, k, identical, free);
    var grown := rs[k := Range(rs[k].offset, rs[k].size + n.size)];
    assert k + 1 < |rs| ==> rs[k + 1].size > 0 && rs[k].End() < rs[k + 1].offset;
    JoinNextCovers(grown, k, identical, free, x);
    CoversParts(rs, k, x);
    CoversParts(grown, k, x);
    assert grown[..k] == rs[..k] && grown[k + 1..] == rs[k + 1..];
  }

  lemma OverlappingCovers(rs: seq<Range>, n: Range, k: nat, identical: bool, free: nat, x: int)
    requires Canonical(rs) && n.size > 0 && k == PlaceOf(rs, n) && rs[k].End() > n.offset
    requires Contains(rs, n) <==> n.Within(rs[k])
    ensures var res := Store(rs, n, identical, free);
            && (res.ok <==> !LacksSpec(rs, k, n, identical, free))
            && (res.ok ==> (Covers(res.ranges, x) <==> CoversAfter(rs, k, n, identical, x)))
  {
    hide Covers, Concatenate, JoinNext;
    PlaceMeets(rs[k], n, identical);
    KeptChangesNothing(rs, k, identical, free);
    CoversOne(n, x);
    CoversOne(Range(0, 0), x);
    CoversSplit([Range(0, 0)], [n], x);
    assert [Range(0, 0), n] == [Range(0, 0)] + [n];
  }
}
