/**
 * Degrees of freedom: the optional bit array that selects a subset of them, the
 * parallel ownership information (which dofs this rank is master of), and the
 * counts every other module is built from.
 */
module Dofs {
  import opened Wrappers

  /** An optional bit array over the dofs; `None` (a null pointer) means "all included". */
  type Subset = Option<seq<bool>>

  /** The bit array, when there is one, has a bit for each of the first `n` dofs. */
  predicate Fits(subset: Subset, n: nat)
  {
    subset.Some? ==> n <= |subset.value|
  }

  /**
   * Dof `k` is selected: there is no subset, or its bit is set. Beyond the end of the bit array the answer is
   * false; every operation requires `Fits`, so that case is never consulted.
   */
  predicate Included(subset: Subset, k: nat)
  {
    subset.None? || (k < |subset.value| && subset.value[k])
  }

  /** Number of included dofs among `0 .. n-1`. */
  function CountIncluded(subset: Subset, n: nat): (c: nat)
    ensures c <= n
  {
    if n == 0 then 0 else CountIncluded(subset, n - 1) + (if Included(subset, n - 1) then 1 else 0)
  }

  /** `BitArray::NumSet`: the number of set bits of the whole bit array. */
  function NumSet(bits: seq<bool>): (c: nat)
    ensures c <= |bits|
  {
    CountIncluded(Some(bits), |bits|)
  }

  /** The included dofs among `0 .. n-1`, in increasing order. */
  function Retained(subset: Subset, n: nat): (r: seq<nat>)
    ensures |r| == CountIncluded(subset, n)
    ensures forall i :: 0 <= i < |r| ==> r[i] < n && Included(subset, r[i])
  {
    if n == 0 then [] else Retained(subset, n - 1) + (if Included(subset, n - 1) then [n - 1] else [])
  }

  /** Without a subset every dof is included. */
  lemma {:induction false} CountAllIncluded(n: nat)
    ensures CountIncluded(None, n) == n
  {
    if n > 0 {
      CountAllIncluded(n - 1);
    }
  }

  /** Counting over a longer prefix never gives less. */
  lemma {:induction false} CountIncludedMonotone(subset: Subset, i: nat, j: nat)
    requires i <= j
    ensures CountIncluded(subset, i) <= CountIncluded(subset, j)
  {
    if i < j {
      CountIncludedMonotone(subset, i, j - 1);
    }
  }

  /** An included dof is counted before any later dof: the counts separate them. */
  lemma {:induction false} CountIncludedStrict(subset: Subset, i: nat, j: nat)
    requires i < j && Included(subset, i)
    ensures CountIncluded(subset, i) < CountIncluded(subset, j)
  {
    CountIncludedMonotone(subset, i + 1, j);
  }

  /**
   * `Retained` lists the included dofs strictly increasing, and an included dof
   * `k` stands at position `CountIncluded(subset, k)`: exactly the dofs it should
   * hold, each once.
   */
  lemma {:induction false} RetainedIndexOf(subset: Subset, n: nat, k: nat)
    requires k < n && Included(subset, k)
    ensures CountIncluded(subset, k) < |Retained(subset, n)|
    ensures Retained(subset, n)[CountIncluded(subset, k)] == k
  {
    if k < n - 1 {
      RetainedIndexOf(subset, n - 1, k);
    }
  }

  lemma {:induction false} RetainedIncreasing(subset: Subset, n: nat, i: nat, j: nat)
    requires i < j < |Retained(subset, n)|
    ensures Retained(subset, n)[i] < Retained(subset, n)[j]
  {
    var r := Retained(subset, n - 1);
    if j >= |r| {
      assert Retained(subset, n)[j] == n - 1;
      assert Retained(subset, n)[i] == r[i];
    } else {
      RetainedIncreasing(subset, n - 1, i, j);
    }
  }

  /** The position of the `i`-th retained dof is counted as `i`. */
  lemma {:induction false} RetainedCount(subset: Subset, n: nat, i: nat)
    requires i < |Retained(subset, n)|
    ensures CountIncluded(subset, Retained(subset, n)[i]) == i
  {
    var r := Retained(subset, n - 1);
    if i < |r| {
      RetainedCount(subset, n - 1, i);
    }
  }

  /** Parallel dof information: entry size and, per local dof, whether this rank is its master. */
  datatype ParallelDofs = ParallelDofs(entrySize: nat, master: seq<bool>)
  {
    function NDofLocal(): nat { |master| }

    predicate IsMasterDof(k: nat) { k < |master| && master[k] }
  }

  /**
   * The dof is owned by this rank (there is no parallel information, or this
   * rank is its master) and the subset selects it.
   */
  predicate Owned(pardofs: Option<ParallelDofs>, subset: Subset, k: nat)
  {
    (pardofs.None? || pardofs.value.IsMasterDof(k)) && Included(subset, k)
  }

  /** Number of owned-and-selected dofs among `0 .. n-1`. */
  function CountOwned(pardofs: Option<ParallelDofs>, subset: Subset, n: nat): (c: nat)
    ensures c <= CountIncluded(subset, n)
  {
    if n == 0 then 0 else CountOwned(pardofs, subset, n - 1) + (if Owned(pardofs, subset, n - 1) then 1 else 0)
  }

  /** Without parallel information, ownership is just the subset test. */
  lemma {:induction false} CountOwnedSequential(subset: Subset, n: nat)
    ensures CountOwned(None, subset, n) == CountIncluded(subset, n)
  {
    if n > 0 {
      CountOwnedSequential(subset, n - 1);
    }
  }
}
