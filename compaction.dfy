/**
 * The dof compaction loop, one copy of which each of `SetPETScMatSeq` and
 * `CreatePETScMatSeqBAIJ` runs for the rows and for the columns: every index of
 * `[0, n)` gets a dense new number if the subset selects it, and -1 otherwise.
 */
module Compaction {
  import opened Wrappers
  import opened Dofs

  /** The new number of index `k`: the number of included indices before it, or -1 if it is excluded. */
  function Compacted(subset: Subset, k: nat): int
  {
    if Included(subset, k) then CountIncluded(subset, k) as int else -1
  }

  /** The compaction map of `[0, n)`, index by index. */
  function CompactionMap(subset: Subset, n: nat): (cmap: seq<int>)
    ensures |cmap| == n
  {
    if n == 0 then [] else CompactionMap(subset, n - 1) + [Compacted(subset, n - 1)]
  }

  /** Entry `k` of the map is `Compacted(subset, k)`, whatever the map's length beyond `k`. */
  lemma {:induction false} CompactionMapAt(subset: Subset, n: nat)
    ensures forall k :: 0 <= k < n ==> CompactionMap(subset, n)[k] == Compacted(subset, k)
  {
    if n > 0 {
      CompactionMapAt(subset, n - 1);
    }
  }

  /** The compaction loop over `[0, n)`: each selected index takes the running count, which then grows by one; every other index gets -1. */
  method Compact(n: nat, subset: Subset) returns (cmap: seq<int>, count: nat)
    requires Fits(subset, n)
    ensures cmap == CompactionMap(subset, n)
    ensures count == CountIncluded(subset, n)
  {
    var compress := new int[n];
    count := 0;
    for k := 0 to n
      invariant count == CountIncluded(subset, k)
      invariant compress[..k] == CompactionMap(subset, k)
    {
      ghost var before := compress[..k];
      if Included(subset, k) {
        compress[k] := count;
        count := count + 1;
      } else {
        compress[k] := -1;
      }
      assert compress[..k] == before;
      assert compress[..k + 1] == before + [Compacted(subset, k)];
    }
    assert compress[..] == compress[..n];
    cmap := compress[..];
  }

  /**
   * The map is dense and order preserving: excluded indices get -1, included ones
   * a number in `[0, M)` with `M` the number of included indices, ...
   */
  lemma {:induction false} CompactionRange(subset: Subset, n: nat)
    ensures |CompactionMap(subset, n)| == n
    ensures forall k :: 0 <= k < n ==> (CompactionMap(subset, n)[k] == -1 <==> !Included(subset, k))
    ensures forall k :: 0 <= k < n && Included(subset, k) ==>
              0 <= CompactionMap(subset, n)[k] < CountIncluded(subset, n)
  {
    CompactionMapAt(subset, n);
    forall k | 0 <= k < n && Included(subset, k)
      ensures CountIncluded(subset, k) < CountIncluded(subset, n)
    {
      CountIncludedStrict(subset, k, n);
    }
  }

  /** ... strictly increasing with the original index, ... */
  lemma {:induction false} CompactionIncreasing(subset: Subset, n: nat)
    ensures forall i, j :: 0 <= i < j < n && Included(subset, i) && Included(subset, j) ==>
              CompactionMap(subset, n)[i] < CompactionMap(subset, n)[j]
  {
    CompactionMapAt(subset, n);
    forall i, j | 0 <= i < j < n && Included(subset, i)
      ensures CountIncluded(subset, i) < CountIncluded(subset, j)
    {
      CountIncludedStrict(subset, i, j);
    }
  }

  /** ... and every number of `[0, M)` is taken, by the `v`-th retained index. */
  lemma {:induction false} CompactionOnto(subset: Subset, n: nat)
    ensures forall v :: 0 <= v < CountIncluded(subset, n) ==>
              CompactionMap(subset, n)[Retained(subset, n)[v]] == v
  {
    CompactionMapAt(subset, n);
    forall v | 0 <= v < CountIncluded(subset, n)
      ensures CountIncluded(subset, Retained(subset, n)[v]) == v
    {
      RetainedCount(subset, n, v);
    }
  }

  /** Reading the compacted number of an included index back through `Retained` gives the index. */
  lemma {:induction false} CompactionInverse(subset: Subset, n: nat, k: nat)
    requires k < n && Included(subset, k)
    ensures 0 <= CompactionMap(subset, n)[k] < |Retained(subset, n)|
    ensures Retained(subset, n)[CompactionMap(subset, n)[k]] == k
  {
    CompactionMapAt(subset, n);
    RetainedIndexOf(subset, n, k);
  }

  /** Without a subset the compaction is the identity and keeps all `n` indices. */
  lemma {:induction false} CompactionWithoutSubset(n: nat)
    ensures CountIncluded(None, n) == n
    ensures forall k :: 0 <= k < n ==> CompactionMap(None, n)[k] == k
  {
    CompactionMapAt(None, n);
    CountAllIncluded(n);
    forall k | 0 <= k < n
      ensures CountIncluded(None, k) == k
    {
      CountAllIncluded(k);
    }
  }
}
