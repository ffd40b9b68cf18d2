/** Sorting by a key. The contract says nothing about equal keys, so it also covers an unstable sort. */
module Sorting {

  /** `perm` lists the numbers below `n`, each once. */
  ghost predicate Permutation(perm: seq<nat>, n: nat)
  {
    && (forall k | 0 <= k < |perm| :: perm[k] < n)
    && (forall k, l | 0 <= k < l < |perm| :: perm[k] != perm[l])
    && (forall j: nat | j < n :: j in perm)
  }

  ghost predicate Ordered(keys: seq<nat>, perm: seq<nat>)
  {
    && (forall k | 0 <= k < |perm| :: perm[k] < |keys|)
    && (forall k, l | 0 <= k < l < |perm| :: keys[perm[k]] <= keys[perm[l]])
  }

  function InsertAt(perm: seq<nat>, j: nat, n: nat): (r: seq<nat>)
    requires j <= |perm|
    ensures |r| == |perm| + 1 && r[j] == n
    ensures forall k | 0 <= k < j :: r[k] == perm[k]
    ensures forall k | j < k < |r| :: r[k] == perm[k - 1]
  {
    perm[..j] + [n] + perm[j..]
  }

  lemma InsertPermutes(perm: seq<nat>, j: nat, n: nat)
    requires j <= |perm| && Permutation(perm, n)
    ensures Permutation(InsertAt(perm, j, n), n + 1)
  {
    var r := InsertAt(perm, j, n);
    forall i: nat | i < n + 1 ensures i in r {
      if i == n {
        assert r[j] == n;
      } else {
        assert i in perm;
        var k :| 0 <= k < |perm| && perm[k] == i;
        assert r[if k < j then k else k + 1] == i;
      }
    }
  }

  lemma InsertOrders(keys: seq<nat>, perm: seq<nat>, j: nat, n: nat)
    requires j <= |perm| && n < |keys| && Ordered(keys, perm)
    requires forall k | 0 <= k < j :: keys[perm[k]] <= keys[n]
    requires j < |perm| ==> keys[n] <= keys[perm[j]]
    ensures Ordered(keys, InsertAt(perm, j, n))
  {
    var r := InsertAt(perm, j, n);
    forall k, l | 0 <= k < l < |r| ensures r[k] < |keys| && r[l] < |keys| && keys[r[k]] <= keys[r[l]] {
      var a, b := if k < j then k else k - 1, if l < j then l else l - 1;
      assert k != j ==> r[k] == perm[a];
      assert l != j ==> r[l] == perm[b];
    }
  }

  /** The order in which to take the elements so that their keys ascend. */
  method SortIndices(keys: seq<nat>) returns (perm: seq<nat>)
    ensures Permutation(perm, |keys|) && Ordered(keys, perm)
  {
    perm := [];
    for n := 0 to |keys|
      invariant Permutation(perm, n) && Ordered(keys, perm)
    {
      var j: nat := 0;
      while j < |perm| && keys[perm[j]] <= keys[n]
        invariant j <= |perm|
        invariant forall k | 0 <= k < j :: keys[perm[k]] <= keys[n]
      {
        j := j + 1;
      }
      InsertPermutes(perm, j, n);
      InsertOrders(keys, perm, j, n);
      perm := InsertAt(perm, j, n);
    }
  }

  function Permute<T>(items: seq<T>, perm: seq<nat>): (r: seq<T>)
    requires forall k | 0 <= k < |perm| :: perm[k] < |items|
    ensures |r| == |perm| && forall k | 0 <= k < |perm| :: r[k] == items[perm[k]]
  {
    seq(|perm|, k requires 0 <= k < |perm| => items[perm[k]])
  }
}
