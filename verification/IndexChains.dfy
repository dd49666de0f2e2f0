/**
 Chains of indices: every element of a pool has a next index, and 0xff ends a chain.
 A hash index is a map from buckets to chains, one chain for the keys of each bucket.
 The source threads a free list and two such indices through one pool
 (uc6LoWPANMeshManipulation.c).
 */
module IndexChains {
  import opened LowpanTypes
  import opened Sequences

  const INVALID_IDX: byte := 0xff

  function Head(c: seq<nat>): int {
    if |c| == 0 then INVALID_IDX else c[0]
  }

  /** From start, the next indices lead through the elements of c, each once, to the end. */
  ghost predicate Chain(nexts: seq<byte>, start: byte, c: seq<nat>) {
    && start == Head(c)
    && (forall k :: 0 <= k < |c| ==> c[k] < |nexts|)
    && (forall k {:trigger nexts[c[k]]} :: 0 <= k < |c| ==>
              nexts[c[k]] == if k + 1 < |c| then c[k + 1] else INVALID_IDX)
    && (forall j, k :: 0 <= j < k < |c| ==> c[j] != c[k])
  }

  /** A chain does not depend on the other elements. */
  lemma ChainFrame(nexts: seq<byte>, nexts': seq<byte>, start: byte, c: seq<nat>)
    requires Chain(nexts, start, c)
    requires forall k :: 0 <= k < |c| ==> c[k] < |nexts'| && nexts'[c[k]] == nexts[c[k]]
    ensures Chain(nexts', start, c)
  {
  }

  lemma ChainPush(nexts: seq<byte>, start: byte, c: seq<nat>, i: nat)
    requires Chain(nexts, start, c) && i < |nexts| <= 0xff && i !in c
    ensures Chain(nexts[i := start], i, [i] + c)
  {
    var d := [i] + c;
    forall k {:trigger nexts[i := start][d[k]]} | 0 <= k < |d|
      ensures nexts[i := start][d[k]] == if k + 1 < |d| then d[k + 1] else INVALID_IDX
    {
      assert k > 0 ==> d[k] == c[k - 1] && nexts[c[k - 1]] == nexts[i := start][d[k]];
    }
  }

  lemma ChainPop(nexts: seq<byte>, start: byte, c: seq<nat>)
    requires Chain(nexts, start, c) && |c| > 0
    ensures Chain(nexts, nexts[c[0]], c[1..]) && c[0] !in c[1..]
  {
    var d := c[1..];
    assert forall k :: 0 <= k < |d| ==> d[k] == c[k + 1] && nexts[c[k + 1]] == nexts[d[k]];
  }

  lemma ChainUnlink(nexts: seq<byte>, start: byte, c: seq<nat>, k: nat)
    requires Chain(nexts, start, c) && 0 < k < |c|
    ensures Chain(nexts[c[k - 1] := nexts[c[k]]], start, Without(c, k)) && c[k] !in Without(c, k)
  {
    var d, nexts' := Without(c, k), nexts[c[k - 1] := nexts[c[k]]];
    WithoutAt(c, k);
    forall j {:trigger nexts'[d[j]]} | 0 <= j < |d|
      ensures nexts'[d[j]] == if j + 1 < |d| then d[j + 1] else INVALID_IDX
    {
      var m := if j < k then j else j + 1;
      assert d[j] == c[m] && nexts[c[m]] == if m + 1 < |c| then c[m + 1] else INVALID_IDX;
    }
  }

  // ---------------------------------------------------------------------------
  // Hash indices
  // ---------------------------------------------------------------------------

  function ByteSum(s: seq<byte>, n: nat): byte
    requires n <= |s|
  {
    if n == 0 then 0 else (ByteSum(s, n - 1) + s[n - 1]) % 0x100
  }

  function Sum(s: seq<byte>): nat {
    if |s| == 0 then 0 else s[0] + Sum(s[1..])
  }

  lemma {:induction false} SumOfMore(s: seq<byte>, b: byte)
    ensures Sum(s + [b]) == Sum(s) + b
  {
    if |s| == 0 {
      assert s + [b] == [b] && [b][1..] == [];
    } else {
      assert (s + [b])[1..] == s[1..] + [b];
      SumOfMore(s[1..], b);
    }
  }

  /** Summing in 8 bits yields the sum modulo 256. */
  lemma {:induction false} ByteSumIsSum(s: seq<byte>, n: nat)
    requires n <= |s|
    ensures ByteSum(s, n) == Sum(s[..n]) % 0x100
  {
    if n == 0 {
      assert s[..0] == [];
    } else {
      hide Sum;
      ByteSumIsSum(s, n - 1);
      SumOfMore(s[..n - 1], s[n - 1]);
      assert s[..n] == s[..n - 1] + [s[n - 1]];
      AddModulo(Sum(s[..n - 1]), s[n - 1]);
    }
  }

  lemma AddModulo(a: nat, b: nat)
    ensures (a % 0x100 + b) % 0x100 == (a + b) % 0x100
  {
  }

  /** The bucket of a key: the sum of its bytes in 8 bits, modulo the number of buckets. */
  function Bucket(key: seq<byte>, numBuckets: nat): (b: nat)
    requires numBuckets > 0
    ensures b < numBuckets
  {
    ByteSum(key, |key|) % numBuckets
  }

  method Hash(key: seq<byte>, numBuckets: byte) returns (b: byte)
    requires numBuckets > 0 && |key| <= 0xff
    ensures b == Bucket(key, numBuckets) == Sum(key) % 0x100 % numBuckets
  {
    ByteSumIsSum(key, |key|);
    assert key[..|key|] == key;
    var sum: byte := 0;
    for i := 0 to |key|
      invariant sum == ByteSum(key, i)
    {
      sum := (sum + key[i]) % 0x100;
    }
    b := sum % numBuckets;
  }

  predicate InBucket(keys: seq<Option<seq<byte>>>, i: nat, b: nat, numBuckets: nat)
    requires numBuckets > 0
  {
    i < |keys| && keys[i].Some? && Bucket(keys[i].value, numBuckets) == b
  }

  /** Each bucket's chain holds exactly the elements whose keys belong there. */
  ghost predicate Indexed(keys: seq<Option<seq<byte>>>, nexts: seq<byte>, heads: seq<byte>, chains: seq<seq<nat>>) {
    && |nexts| == |keys| <= 0xff && |heads| == |chains| > 0
    && (forall b :: 0 <= b < |heads| ==> Chain(nexts, heads[b], chains[b]))
    && (forall b, i: nat :: 0 <= b < |heads| ==> (i in chains[b] <==> InBucket(keys, i, b, |heads|)))
  }

  lemma IndexedChain(keys: seq<Option<seq<byte>>>, nexts: seq<byte>, heads: seq<byte>, chains: seq<seq<nat>>, b: nat)
    requires Indexed(keys, nexts, heads, chains) && b < |heads|
    ensures |heads| == |chains| && |nexts| == |keys| && Chain(nexts, heads[b], chains[b])
    ensures forall i: nat :: i in chains[b] <==> InBucket(keys, i, b, |heads|)
  {
  }

  lemma IndexedSizes(keys: seq<Option<seq<byte>>>, nexts: seq<byte>, heads: seq<byte>, chains: seq<seq<nat>>)
    requires Indexed(keys, nexts, heads, chains)
    ensures |nexts| == |keys| && |heads| == |chains|
  {
  }

  /** The next index of an element without a key is free for other use. */
  lemma IndexedFrame(keys: seq<Option<seq<byte>>>, nexts: seq<byte>, heads: seq<byte>, chains: seq<seq<nat>>, i: nat,
        v: byte)
    requires Indexed(keys, nexts, heads, chains) && i < |keys| && keys[i].None?
    ensures Indexed(keys, nexts[i := v], heads, chains)
  {
    hide Chain;
    forall b | 0 <= b < |heads|
      ensures Chain(nexts[i := v], heads[b], chains[b])
    {
      assert !InBucket(keys, i, b, |heads|);
      ChainInRange(nexts, heads[b], chains[b]);
      ChainFrame(nexts, nexts[i := v], heads[b], chains[b]);
    }
  }

  lemma ChainInRange(nexts: seq<byte>, start: byte, c: seq<nat>)
    requires Chain(nexts, start, c)
    ensures forall k :: 0 <= k < |c| ==> c[k] < |nexts|
    ensures start == Head(c)
  {
  }

  /** Adding an element in front of its key's chain. */
  lemma IndexedAdd(keys: seq<Option<seq<byte>>>, nexts: seq<byte>, heads: seq<byte>, chains: seq<seq<nat>>,
                   i: nat, key: seq<byte>)
    requires Indexed(keys, nexts, heads, chains) && i < |keys| && keys[i].None?
    ensures var b := Bucket(key, |heads|);
            Indexed(keys[i := Some(key)], nexts[i := heads[b]], heads[b := i], chains[b := [i] + chains[b]])
  {
    hide Chain;
    var b := Bucket(key, |heads|);
    var keys', nexts', heads', chains' := keys[i := Some(key)], nexts[i := heads[b]], heads[b := i],
          chains[b := [i] + chains[b]];
    IndexedFrame(keys, nexts, heads, chains, i, heads[b]);
    assert !InBucket(keys, i, b, |heads|);
    ChainPush(nexts, heads[b], chains[b], i);
    forall b', j: nat | 0 <= b' < |heads|
      ensures j in chains'[b'] <==> InBucket(keys', j, b', |heads|)
    {
      assert j in chains[b'] <==> InBucket(keys, j, b', |heads|);
    }
  }

  /** Taking element k of bucket b out of its chain. */
  function Unlinked(nexts: seq<byte>, c: seq<nat>, k: nat): seq<byte>
    requires k < |c| && forall j :: 0 <= j < |c| ==> c[j] < |nexts|
  {
    (if k == 0 then nexts else nexts[c[k - 1] := nexts[c[k]]])[c[k] := INVALID_IDX]
  }

  lemma IndexedRemove(keys: seq<Option<seq<byte>>>, nexts: seq<byte>, heads: seq<byte>, chains: seq<seq<nat>>,
        b: nat, k: nat)
    requires Indexed(keys, nexts, heads, chains) && b < |heads| && k < |chains[b]|
    ensures forall j :: 0 <= j < |chains[b]| ==> chains[b][j] < |nexts|
    ensures var i := chains[b][k];
            Indexed(keys[i := None], Unlinked(nexts, chains[b], k),
                    if k == 0 then heads[b := nexts[i]] else heads, chains[b := Without(chains[b], k)])
  {
    hide Chain;
    var c := chains[b];
    ChainInRange(nexts, heads[b], c);
    var i := c[k];
    var keys', nexts' := keys[i := None], Unlinked(nexts, c, k);
    var heads', chains' := if k == 0 then heads[b := nexts[i]] else heads, chains[b := Without(c, k)];
    UnlinkedChain(nexts, heads[b], c, k);
    forall b' | 0 <= b' < |heads|
      ensures Chain(nexts', heads'[b'], chains'[b'])
    {
      if b' != b {
        forall j | 0 <= j < |chains[b']|
          ensures chains[b'][j] !in c
        {
          assert chains[b'][j] in chains[b'];
          assert InBucket(keys, chains[b'][j], b', |heads|);
        }
        ChainInRange(nexts, heads[b'], chains[b']);
        ChainFrame(nexts, nexts', heads[b'], chains[b']);
      }
    }
    forall b', j: nat | 0 <= b' < |heads|
      ensures j in chains'[b'] <==> InBucket(keys', j, b', |heads|)
    {
      assert j in chains[b'] <==> InBucket(keys, j, b', |heads|);
      assert i in c && InBucket(keys, i, b, |heads|);
      WithoutHas(c, k, j);
    }
  }

  lemma UnlinkedChain(nexts: seq<byte>, start: byte, c: seq<nat>, k: nat)
    requires Chain(nexts, start, c) && k < |c|
    ensures Chain(Unlinked(nexts, c, k), if k == 0 then nexts[c[0]] else start, Without(c, k))
    ensures forall j :: 0 <= j < |c| && j != k ==> c[j] != c[k]
    ensures forall i :: 0 <= i < |nexts| && i !in c ==> Unlinked(nexts, c, k)[i] == nexts[i]
  {
    WithoutAt(c, k);
    if k == 0 {
      ChainPop(nexts, start, c);
      assert Without(c, 0) == c[1..];
      ChainFrame(nexts, Unlinked(nexts, c, k), nexts[c[0]], c[1..]);
    } else {
      ChainUnlink(nexts, start, c, k);
      var mid := nexts[c[k - 1] := nexts[c[k]]];
      ChainFrame(mid, Unlinked(nexts, c, k), start, Without(c, k));
    }
  }

  lemma WithoutHas(c: seq<nat>, k: nat, i: nat)
    requires k < |c| && forall j :: 0 <= j < |c| && j != k ==> c[j] != c[k]
    ensures i in Without(c, k) <==> i in c && i != c[k]
  {
    WithoutAt(c, k);
    if i in c && i != c[k] {
      var j :| 0 <= j < |c| && c[j] == i;
      assert Without(c, k)[if j < k then j else j - 1] == i;
    }
  }
}
