/**
 * What the vector map's two copies do, as functions of whole vectors: the
 * solver-side vector holds, one after another, the `bs`-entry slices of the
 * owned-and-selected dofs in increasing dof order; going back, those slices
 * are restored and every other dof's slice is zero.
 */
module VecSpec {
  import opened Wrappers
  import opened Dofs

  /**
   * Which of the first `n` dofs the solver-side vector holds: those this rank
   * owns and the subset selects.
   */
  function OwnedMask(pardofs: Option<ParallelDofs>, subset: Subset, n: nat): (m: seq<bool>)
    ensures |m| == n
  {
    if n == 0 then [] else OwnedMask(pardofs, subset, n - 1) + [Owned(pardofs, subset, n - 1)]
  }

  /** Bit `k` of the mask is the ownership test of dof `k`. */
  lemma {:induction false} OwnedMaskAt(pardofs: Option<ParallelDofs>, subset: Subset, n: nat, k: nat)
    requires k < n
    ensures OwnedMask(pardofs, subset, n)[k] == Owned(pardofs, subset, k)
  {
    if k < n - 1 {
      OwnedMaskAt(pardofs, subset, n - 1, k);
    }
  }

  /** Number of held dofs among `0 .. n-1`. */
  function Held(m: seq<bool>, n: nat): (c: nat)
    requires n <= |m|
    ensures c <= n
  {
    if n == 0 then 0 else Held(m, n - 1) + (if m[n - 1] then 1 else 0)
  }

  /** The mask counts exactly the owned-and-selected dofs. */
  lemma {:induction false} HeldIsCountOwned(pardofs: Option<ParallelDofs>, subset: Subset, n: nat, i: nat)
    requires i <= n
    ensures Held(OwnedMask(pardofs, subset, n), i) == CountOwned(pardofs, subset, i)
  {
    if i > 0 {
      HeldIsCountOwned(pardofs, subset, n, i - 1);
      OwnedMaskAt(pardofs, subset, n, i - 1);
    }
  }

  /** Held dofs never outnumber the ones further on. */
  lemma {:induction false} HeldMonotone(m: seq<bool>, i: nat, j: nat)
    requires i <= j <= |m|
    ensures Held(m, i) <= Held(m, j)
    decreases j - i
  {
    if i < j {
      HeldMonotone(m, i, j - 1);
    }
  }

  /** `bs` zeros: the slice of a dof the solver-side vector does not hold. */
  function Zeros(bs: nat): (z: seq<real>)
    ensures |z| == bs && forall j :: 0 <= j < bs ==> z[j] == 0.0
  {
    seq(bs, _ => 0.0)
  }

  /**
   * Where dof `k`'s slice starts in a flat vector of `bs`-entry slices: the
   * source's `k * bs`, written as a sum so that proofs about it stay linear.
   */
  function Offset(k: nat, bs: nat): (o: nat)
  {
    if k == 0 then 0 else Offset(k - 1, bs) + bs
  }

  /** `Offset` is the product the source computes. */
  lemma {:induction false} OffsetIsProduct(k: nat, bs: nat)
    ensures Offset(k, bs) == k * bs
  {
    if k > 0 {
      OffsetIsProduct(k - 1, bs);
      assert k * bs == (k - 1) * bs + bs;
    }
  }

  /** The source's `bs * k`: where dof `k`'s slice starts. */
  function SliceStart(k: nat, bs: nat): (o: nat)
    ensures o == Offset(k, bs)
  {
    OffsetIsProduct(k, bs);
    bs * k
  }

  /** Slices of earlier dofs start no later. */
  lemma {:induction false} SliceEnds(k: nat, n: nat, bs: nat)
    requires k <= n
    ensures Offset(k, bs) <= Offset(n, bs)
    decreases n - k
  {
    if k < n {
      SliceEnds(k, n - 1, bs);
    }
  }

  /**
   * The solver-side entries `NGs2PETSc` writes for dofs `0 .. n-1` of the flat
   * vector `fv`: the slice of each owned-and-selected dof, in dof order.
   */
  function Gather(m: seq<bool>, bs: nat, fv: seq<real>, n: nat): (g: seq<real>)
    requires n <= |m| && Offset(n, bs) <= |fv|
    ensures |g| == Offset(Held(m, n), bs)
  {
    if n == 0 then []
    else
      SliceEnds(n - 1, n, bs);
      Gather(m, bs, fv, n - 1)
      + (if m[n - 1] then fv[Offset(n - 1, bs) .. Offset(n, bs)] else [])
  }

  /**
   * The flat vector `PETSc2NGs` writes for dofs `0 .. n-1` from the
   * solver-side entries `pv`: an owned-and-selected dof gets the next `bs`
   * entries, any other dof `bs` zeros.
   */
  function Scatter(m: seq<bool>, bs: nat, pv: seq<real>, n: nat): (s: seq<real>)
    requires n <= |m| && Offset(Held(m, n), bs) <= |pv|
    ensures |s| == Offset(n, bs)
  {
    if n == 0 then []
    else
      var c := Held(m, n - 1);
      SliceEnds(n - 1, n, bs);
      SliceEnds(c, Held(m, n), bs);
      Scatter(m, bs, pv, n - 1)
      + (if m[n - 1] then pv[Offset(c, bs) .. Offset(c + 1, bs)] else Zeros(bs))
  }

  /** `fv` with the slice of every dof that is not owned-and-selected set to zero. */
  function Masked(m: seq<bool>, bs: nat, fv: seq<real>, n: nat): (s: seq<real>)
    requires n <= |m| && Offset(n, bs) <= |fv|
    ensures |s| == Offset(n, bs)
  {
    if n == 0 then []
    else
      SliceEnds(n - 1, n, bs);
      Masked(m, bs, fv, n - 1)
      + (if m[n - 1] then fv[Offset(n - 1, bs) .. Offset(n, bs)] else Zeros(bs))
  }

  /** One more dof of `Gather`: its slice follows the others when it is held. */
  lemma GatherNext(m: seq<bool>, bs: nat, fv: seq<real>, k: nat)
    requires k < |m| && Offset(k + 1, bs) <= |fv|
    ensures Offset(k, bs) + bs == Offset(k + 1, bs)
    ensures Held(m, k + 1) == Held(m, k) + (if m[k] then 1 else 0)
    ensures Offset(Held(m, k + 1), bs) == Offset(Held(m, k), bs) + (if m[k] then bs else 0)
    ensures Gather(m, bs, fv, k + 1)
            == Gather(m, bs, fv, k) + (if m[k] then fv[Offset(k, bs) .. Offset(k, bs) + bs] else [])
  {
  }

  /** One more dof of `Scatter`: the next `bs` solver-side entries when it is held, zeros otherwise. */
  lemma ScatterNext(m: seq<bool>, bs: nat, pv: seq<real>, k: nat)
    requires k < |m| && Offset(Held(m, k + 1), bs) <= |pv|
    ensures Offset(k, bs) + bs == Offset(k + 1, bs)
    ensures Held(m, k + 1) == Held(m, k) + (if m[k] then 1 else 0)
    ensures Offset(Held(m, k + 1), bs) == Offset(Held(m, k), bs) + (if m[k] then bs else 0)
    ensures Scatter(m, bs, pv, k + 1)
            == Scatter(m, bs, pv, k)
               + (if m[k] then pv[Offset(Held(m, k), bs) .. Offset(Held(m, k), bs) + bs] else Zeros(bs))
  {
  }

  /** `Scatter` reads only the entries its owned dofs take. */
  lemma {:induction false} ScatterPrefix(m: seq<bool>, bs: nat, pv: seq<real>,
                                         pw: seq<real>, n: nat)
    requires n <= |m| && Offset(Held(m, n), bs) <= |pv| && Offset(Held(m, n), bs) <= |pw|
    requires pv[..Offset(Held(m, n), bs)] == pw[..Offset(Held(m, n), bs)]
    ensures Scatter(m, bs, pv, n) == Scatter(m, bs, pw, n)
  {
    if n > 0 {
      var c := Held(m, n - 1);
      var e := Offset(Held(m, n), bs);
      SliceEnds(c, Held(m, n), bs);
      assert pv[..Offset(c, bs)] == pv[..e][..Offset(c, bs)] && pw[..Offset(c, bs)] == pw[..e][..Offset(c, bs)];
      ScatterPrefix(m, bs, pv, pw, n - 1);
      if m[n - 1] {
        assert pv[Offset(c, bs) .. Offset(c + 1, bs)] == pv[..e][Offset(c, bs) .. Offset(c + 1, bs)];
        assert pw[Offset(c, bs) .. Offset(c + 1, bs)] == pw[..e][Offset(c, bs) .. Offset(c + 1, bs)];
      }
    }
  }

  /** `Gather` reads only the slices of dofs `0 .. n-1`. */
  lemma {:induction false} GatherPrefix(m: seq<bool>, bs: nat, fv: seq<real>,
                                        fw: seq<real>, n: nat)
    requires n <= |m| && Offset(n, bs) <= |fv| && Offset(n, bs) <= |fw| && fv[..Offset(n, bs)] == fw[..Offset(n, bs)]
    ensures Gather(m, bs, fv, n) == Gather(m, bs, fw, n)
  {
    if n > 0 {
      SliceEnds(n - 1, n, bs);
      assert fv[..Offset(n - 1, bs)] == fv[..Offset(n, bs)][..Offset(n - 1, bs)];
      assert fw[..Offset(n - 1, bs)] == fw[..Offset(n, bs)][..Offset(n - 1, bs)];
      GatherPrefix(m, bs, fv, fw, n - 1);
      assert fv[Offset(n - 1, bs) .. Offset(n, bs)] == fv[..Offset(n, bs)][Offset(n - 1, bs) ..];
      assert fw[Offset(n - 1, bs) .. Offset(n, bs)] == fw[..Offset(n, bs)][Offset(n - 1, bs) ..];
    }
  }

  /**
   * `NGs2PETSc` then `PETSc2NGs`: the owned-and-selected slices come back
   * unchanged and every other slice comes back zero.
   */
  lemma {:induction false} ScatterGather(m: seq<bool>, bs: nat, fv: seq<real>, n: nat)
    requires n <= |m| && Offset(n, bs) <= |fv|
    ensures Scatter(m, bs, Gather(m, bs, fv, n), n) == Masked(m, bs, fv, n)
  {
    if n > 0 {
      GatherNext(m, bs, fv, n - 1);
      var g0 := Gather(m, bs, fv, n - 1);
      var slice := fv[Offset(n - 1, bs) .. Offset(n - 1, bs) + bs];
      var block := if m[n - 1] then slice else [];
      ScatterAppend(m, bs, g0, block, n);
      ScatterGather(m, bs, fv, n - 1);
    }
  }

  /** Scattering one more dof reads the entries appended for it, or none when it is not held. */
  lemma ScatterAppend(m: seq<bool>, bs: nat, pv: seq<real>, block: seq<real>, n: nat)
    requires 0 < n <= |m| && |pv| == Offset(Held(m, n - 1), bs)
    requires |block| == if m[n - 1] then bs else 0
    ensures Offset(Held(m, n), bs) == |pv + block|
    ensures Scatter(m, bs, pv + block, n) == Scatter(m, bs, pv, n - 1) + (if m[n - 1] then block else Zeros(bs))
  {
    var s := pv + block;
    var c := Held(m, n - 1);
    assert s[..Offset(c, bs)] == pv[..Offset(c, bs)];
    ScatterPrefix(m, bs, s, pv, n - 1);
    if m[n - 1] {
      assert s[Offset(c, bs) .. Offset(c, bs) + bs] == block;
    }
  }

  /**
   * `PETSc2NGs` then `NGs2PETSc`: the solver-side entries come back unchanged,
   * all `nrows_loc` of them.
   */
  lemma {:induction false} GatherScatter(m: seq<bool>, bs: nat, pv: seq<real>, n: nat)
    requires n <= |m| && Offset(Held(m, n), bs) <= |pv|
    ensures Gather(m, bs, Scatter(m, bs, pv, n), n) == pv[..Offset(Held(m, n), bs)]
  {
    if n > 0 {
      ScatterNext(m, bs, pv, n - 1);
      var o := Offset(Held(m, n - 1), bs);
      var block := if m[n - 1] then pv[o .. o + bs] else Zeros(bs);
      GatherAppend(m, bs, Scatter(m, bs, pv, n - 1), block, n);
      GatherScatter(m, bs, pv, n - 1);
      if m[n - 1] {
        assert pv[..o + bs] == pv[..o] + block;
      }
    }
  }

  /** Gathering one more dof appends its slice when the dof is held. */
  lemma GatherAppend(m: seq<bool>, bs: nat, fv: seq<real>, block: seq<real>, n: nat)
    requires 0 < n <= |m| && |fv| == Offset(n - 1, bs) && |block| == bs
    ensures Gather(m, bs, fv + block, n) == Gather(m, bs, fv, n - 1) + (if m[n - 1] then block else [])
  {
    var s := fv + block;
    assert s[..Offset(n - 1, bs)] == fv[..Offset(n - 1, bs)];
    GatherPrefix(m, bs, s, fv, n - 1);
    assert s[Offset(n - 1, bs) .. Offset(n, bs)] == block;
  }

  /** When every dof is held the round trip is the identity. */
  lemma {:induction false} MaskedKeepsAll(m: seq<bool>, bs: nat, fv: seq<real>, n: nat)
    requires n <= |m| && Offset(n, bs) <= |fv|
    requires forall k :: 0 <= k < n ==> m[k]
    ensures Masked(m, bs, fv, n) == fv[..Offset(n, bs)]
  {
    if n > 0 {
      SliceEnds(n - 1, n, bs);
      MaskedKeepsAll(m, bs, fv, n - 1);
      assert fv[..Offset(n, bs)] == fv[..Offset(n - 1, bs)] + fv[Offset(n - 1, bs) .. Offset(n, bs)];
    }
  }

  /**
   * Entry `j` of dof `k` after `PETSc2NGs`: the solver-side entry `j` of the
   * dof's slot if the dof is owned and selected, and exactly zero otherwise,
   * whatever the solver-side vector holds.
   */
  lemma {:induction false} ScatterAt(m: seq<bool>, bs: nat, pv: seq<real>,
                                     n: nat, k: nat, j: nat)
    requires n <= |m| && Offset(Held(m, n), bs) <= |pv| && k < n && j < bs
    ensures Offset(k, bs) + j < Offset(n, bs)
    ensures !m[k] ==> Scatter(m, bs, pv, n)[Offset(k, bs) + j] == 0.0
    ensures m[k] ==>
              Offset(Held(m, k), bs) + j < |pv|
              && Scatter(m, bs, pv, n)[Offset(k, bs) + j] == pv[Offset(Held(m, k), bs) + j]
  {
    SliceEnds(k + 1, n, bs);
    ScatterNext(m, bs, pv, n - 1);
    var s0 := Scatter(m, bs, pv, n - 1);
    var i := Offset(k, bs) + j;
    if k < n - 1 {
      SliceEnds(Held(m, n - 1), Held(m, n), bs);
      ScatterAt(m, bs, pv, n - 1, k, j);
      assert Scatter(m, bs, pv, n)[i] == s0[i];
    }
  }
}
