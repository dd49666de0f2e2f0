/**
 A byte sequence cut into parts, and places in it: a part and an offset.  Module IoVec keeps
 the parts in chunks of memory.
 */
module Chunks {
  import opened LowpanTypes
  import opened Sequences

  function Flatten(parts: seq<seq<byte>>): seq<byte> {
    if |parts| == 0 then [] else parts[0] + Flatten(parts[1..])
  }

  /** How many bytes come before part k. */
  function Before(parts: seq<seq<byte>>, k: nat): nat
    requires k <= |parts|
  {
    if k == 0 then 0 else Before(parts, k - 1) + |parts[k - 1]|
  }

  ghost predicate NoneEmpty(parts: seq<seq<byte>>) {
    forall i :: 0 <= i < |parts| ==> |parts[i]| > 0
  }

  /** A part and an offset into it; past the last part, how far past the end. */
  datatype Place = Place(part: nat, offset: nat)

  predicate Normal(parts: seq<seq<byte>>, p: Place) {
    p.part == |parts| || (p.part < |parts| && p.offset < |parts[p.part]|)
  }

  function Position(parts: seq<seq<byte>>, p: Place): nat
    requires p.part <= |parts|
  {
    Before(parts, p.part) + p.offset
  }

  /** The place `offset` bytes after the start of part k. */
  function Locate(parts: seq<seq<byte>>, k: nat, offset: nat): (p: Place)
    requires k <= |parts|
    ensures k <= p.part <= |parts| && Normal(parts, p)
    ensures Position(parts, p) == Before(parts, k) + offset
    decreases |parts| - k
  {
    if k == |parts| || offset < |parts[k]| then Place(k, offset)
    else Locate(parts, k + 1, offset - |parts[k]|)
  }

  lemma {:induction false} FlattenSplit(parts: seq<seq<byte>>, k: nat)
    requires k <= |parts|
    ensures Flatten(parts) == Flatten(parts[..k]) + Flatten(parts[k..])
    decreases k
  {
    if k == 0 {
      assert parts[0..] == parts && parts[..0] == [];
    } else {
      FlattenSplit(parts[1..], k - 1);
      assert parts[..k][1..] == parts[1..][..k - 1] && parts[k..] == parts[1..][k - 1..];
    }
  }

  lemma {:induction false} BeforeIsLength(parts: seq<seq<byte>>, k: nat)
    requires k <= |parts|
    ensures |Flatten(parts[..k])| == Before(parts, k)
    decreases k
  {
    if k > 0 {
      BeforeIsLength(parts, k - 1);
      FlattenSplit(parts[..k], k - 1);
      assert parts[..k][..k - 1] == parts[..k - 1] && parts[..k][k - 1..] == [parts[k - 1]];
      assert Flatten([parts[k - 1]]) == parts[k - 1] + Flatten([]);
    }
  }

  lemma {:induction false} BeforeGrows(parts: seq<seq<byte>>, j: nat, k: nat)
    requires j <= k <= |parts|
    ensures Before(parts, j) <= Before(parts, k)
    ensures NoneEmpty(parts) && j < k ==> Before(parts, j) < Before(parts, k)
    decreases k
  {
    if j < k {
      BeforeGrows(parts, j, k - 1);
    }
  }

  lemma TotalLength(parts: seq<seq<byte>>)
    ensures Before(parts, |parts|) == |Flatten(parts)|
  {
    BeforeIsLength(parts, |parts|);
    assert parts[..|parts|] == parts;
  }

  /** The flattened bytes around part k. */
  lemma {:induction false} AroundPart(parts: seq<seq<byte>>, k: nat)
    requires k < |parts|
    ensures Flatten(parts) == Flatten(parts[..k]) + parts[k] + Flatten(parts[k + 1..])
    ensures |Flatten(parts[..k])| == Before(parts, k)
  {
    FlattenSplit(parts, k);
    BeforeIsLength(parts, k);
    assert parts[k..][1..] == parts[k + 1..];
  }

  /** A stretch of a part is a stretch of the whole. */
  lemma {:induction false} PartSlice(parts: seq<seq<byte>>, k: nat, a: nat, b: nat)
    requires k < |parts| && a <= b <= |parts[k]|
    ensures Before(parts, k) + |parts[k]| <= |Flatten(parts)|
    ensures Flatten(parts)[Before(parts, k) + a..Before(parts, k) + b] == parts[k][a..b]
  {
    AroundPart(parts, k);
    var x, y, z := Flatten(parts[..k]), parts[k], Flatten(parts[k + 1..]);
    assert (x + y + z)[|x| + a..|x| + b] == y[a..b];
  }

  /** Overwriting a stretch of a part overwrites that stretch of the whole. */
  lemma PartSplice(parts: seq<seq<byte>>, k: nat, a: nat, data: seq<byte>)
    requires k < |parts| && a + |data| <= |parts[k]|
    ensures Before(parts, k) + |parts[k]| <= |Flatten(parts)|
    ensures Flatten(parts[k := Splice(parts[k], a, data)]) == Splice(Flatten(parts), Before(parts, k) + a, data)
    ensures forall j :: 0 <= j <= |parts| ==> Before(parts[k := Splice(parts[k], a, data)], j) == Before(parts, j)
  {
    var parts' := parts[k := Splice(parts[k], a, data)];
    AroundPart(parts, k);
    AroundPart(parts', k);
    assert parts'[..k] == parts[..k] && parts'[k + 1..] == parts[k + 1..];
    forall j | 0 <= j <= |parts|
      ensures Before(parts', j) == Before(parts, j)
    {
      BeforeSame(parts, parts', j);
    }
    SpliceMiddle(Flatten(parts[..k]), parts[k], Flatten(parts[k + 1..]), a, data);
  }

  lemma SpliceMiddle(x: seq<byte>, y: seq<byte>, z: seq<byte>, a: nat, data: seq<byte>)
    requires a + |data| <= |y|
    ensures x + Splice(y, a, data) + z == Splice(x + y + z, |x| + a, data)
  {
  }

  lemma {:induction false} BeforeSame(a: seq<seq<byte>>, b: seq<seq<byte>>, j: nat)
    requires |a| == |b| && j <= |a| && forall i :: 0 <= i < |a| ==> |a[i]| == |b[i]|
    ensures Before(a, j) == Before(b, j)
  {
    if j > 0 {
      BeforeSame(a, b, j - 1);
    }
  }

  /** A place before the end is determined by its position. */
  lemma NormalUnique(parts: seq<seq<byte>>, p: Place, q: Place)
    requires p.part < |parts| && q.part < |parts| && Normal(parts, p) && Normal(parts, q)
    requires Position(parts, p) == Position(parts, q)
    ensures p == q
  {
    if p.part < q.part {
      BeforeGrows(parts, p.part + 1, q.part);
    } else if q.part < p.part {
      BeforeGrows(parts, q.part + 1, p.part);
    }
  }

  /** A normal place is past the last part exactly when its position is past the last byte. */
  lemma NormalAtEnd(parts: seq<seq<byte>>, p: Place)
    requires p.part <= |parts| && Normal(parts, p)
    ensures p.part == |parts| <==> Position(parts, p) >= |Flatten(parts)|
  {
    TotalLength(parts);
    if p.part < |parts| {
      BeforeGrows(parts, p.part + 1, |parts|);
    }
  }
}
