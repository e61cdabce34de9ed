/**
 * `NGs2PETScVecMap`: the map between a finite element vector (`ndof` dofs of
 * `bs` entries each, stored flat) and the solver-side vector that holds only
 * the dofs this rank owns and the subset selects.
 */
module VecMap {
  import opened Wrappers
  import opened Dofs
  import opened Buffers
  import opened VecSpec

  /** The finite element vector `CreateNGsVector` allocates: `size` dofs of `entrySize` entries. */
  datatype NGsVector = NGsVector(size: nat, entrySize: nat, distributed: bool)
  {
    function Length(): nat { size * entrySize }
  }

  /** The solver-side vector `CreatePETScVector` allocates. */
  datatype PETScVector =
    | SeqVector(n: nat)                   // one rank, `n` entries
    | MPIVector(nLoc: nat, nGlob: nat)    // `nLoc` entries on this rank, `nGlob` in all
  {
    function LocalSize(): nat { if SeqVector? then n else nLoc }
  }

  /** Copies `src[from .. from + len]` into `dst` at `to`, one entry at a time; the entries after the copy keep their values. */
  method CopyBlock(src: seq<real>, from: nat, dst: array<real>, to: nat, len: nat)
    requires from + len <= |src| && to + len <= dst.Length
    modifies dst
    ensures dst[..to + len] == old(dst[..to]) + src[from .. from + len]
    ensures dst[to + len..] == old(dst[to + len..])
  {
    for l := 0 to len
      invariant dst[..to + l] == old(dst[..to]) + src[from .. from + l]
      invariant dst[to + l..] == old(dst[to + l..])
    {
      ghost var rest := dst[to + l + 1..];
      assert rest == old(dst[to + l..])[1..];
      Put(dst, to + l, src[from + l]);
      assert src[from .. from + l + 1] == src[from .. from + l] + [src[from + l]];
    }
  }

  /** Sets `dst[to .. to + len]` to zero, one entry at a time; the entries after them keep their values. */
  method ZeroBlock(dst: array<real>, to: nat, len: nat)
    requires to + len <= dst.Length
    modifies dst
    ensures dst[..to + len] == old(dst[..to]) + Zeros(len)
    ensures dst[to + len..] == old(dst[to + len..])
  {
    for l := 0 to len
      invariant dst[..to + l] == old(dst[..to]) + Zeros(l)
      invariant dst[to + l..] == old(dst[to + l..])
    {
      Put(dst, to + l, 0.0);
      assert Zeros(l + 1) == Zeros(l) + [0.0];
    }
  }

  class NGs2PETScVecMap {
    const ndof: nat
    const bs: nat
    const pardofs: Option<ParallelDofs>
    const subset: Subset
    /** Entries of the solver-side vector on this rank. */
    const nrowsLoc: nat
    /** Entries of the solver-side vector on all ranks together. */
    const nrowsGlob: nat

    /**
     * The bit array and the parallel information cover the `ndof` dofs, and
     * `nrowsLoc` is the room the held dofs' slices take.
     */
    ghost predicate Valid()
    {
      && Fits(subset, ndof)
      && (pardofs.Some? ==> ndof <= pardofs.value.NDofLocal())
      && nrowsLoc == Offset(Held(Mask(), ndof), bs)
      && (pardofs.None? ==> nrowsGlob == nrowsLoc)
    }

    /** Which dofs the solver-side vector holds. */
    ghost function Mask(): (m: seq<bool>)
      ensures |m| == ndof
    {
      OwnedMask(pardofs, subset, ndof)
    }

    /** The test the map applies to dof `k`: owned by this rank and selected by the subset. */
    method IsHeld(k: nat) returns (b: bool)
      requires k < ndof
      ensures b == Mask()[k]
    {
      OwnedMaskAt(pardofs, subset, ndof, k);
      b := Owned(pardofs, subset, k);
    }

    /**
     * `reducedTotal` is what the communicator's sum of `nrowsLoc` over all
     * ranks returns; it is consulted only with parallel information.
     */
    constructor (ndof: nat, bs: nat, pardofs: Option<ParallelDofs>, subset: Subset, reducedTotal: nat)
      requires Fits(subset, ndof)
      requires pardofs.Some? ==> ndof <= pardofs.value.NDofLocal()
      ensures this.ndof == ndof && this.bs == bs && this.pardofs == pardofs && this.subset == subset
      ensures nrowsLoc == bs * CountOwned(pardofs, subset, ndof)
      ensures nrowsGlob == if pardofs.None? then nrowsLoc else reducedTotal
      ensures Valid()
    {
      HeldIsCountOwned(pardofs, subset, ndof, ndof);
      OffsetIsProduct(CountOwned(pardofs, subset, ndof), bs);
      var loc: nat := 0;
      if pardofs.None? && subset.None? {
        loc := bs * ndof;
        CountOwnedSequential(subset, ndof);
        CountAllIncluded(ndof);
      } else {
        for k := 0 to ndof
          invariant loc == Offset(CountOwned(pardofs, subset, k), bs)
        {
          if Owned(pardofs, subset, k) {
            loc := loc + bs;
          }
        }
      }
      this.ndof := ndof;
      this.bs := bs;
      this.pardofs := pardofs;
      this.subset := subset;
      nrowsLoc := loc;
      nrowsGlob := if pardofs.None? then loc else reducedTotal;
    }

    /** `nrowsLoc` is `bs` entries for each owned-and-selected dof. */
    lemma RowsCounted()
      requires Valid()
      ensures nrowsLoc == bs * CountOwned(pardofs, subset, ndof)
    {
      var c := CountOwned(pardofs, subset, ndof);
      HeldIsCountOwned(pardofs, subset, ndof, ndof);
      assert nrowsLoc == Offset(c, bs);
      OffsetIsProduct(c, bs);
    }

    /**
     * Copies the slice of every held dof of the flat vector `fv`, in dof
     * order, into the solver-side array `pvs`.
     */
    method NGs2PETSc(fv: seq<real>, pvs: array<real>)
      requires Valid()
      requires Offset(ndof, bs) <= |fv| && pvs.Length == nrowsLoc
      modifies pvs
      ensures pvs[..] == Gather(Mask(), bs, fv, ndof)
    {
      ghost var m := Mask();
      var cnt: nat := 0;
      for k := 0 to ndof
        invariant Offset(k, bs) <= Offset(ndof, bs)
        invariant cnt == Offset(Held(m, k), bs) <= pvs.Length
        invariant pvs[..cnt] == Gather(m, bs, fv, k)
      {
        SliceEnds(k + 1, ndof, bs);
        GatherNext(m, bs, fv, k);
        HeldMonotone(m, k + 1, ndof);
        SliceEnds(Held(m, k + 1), Held(m, ndof), bs);
        var held := IsHeld(k);
        if held {
          ghost var done := pvs[..cnt];
          CopyBlock(fv, SliceStart(k, bs), pvs, cnt, bs);
          assert pvs[..cnt + bs] == done + fv[Offset(k, bs) .. Offset(k, bs) + bs];
          cnt := cnt + bs;
        }
      }
      assert pvs[..] == pvs[..cnt];
    }

    /**
     * Writes the flat vector `fv` from the solver-side entries `pvs`: a held
     * dof gets the next `bs` entries, every other dof zeros.
     */
    method PETSc2NGs(pvs: seq<real>, fv: array<real>)
      requires Valid()
      requires fv.Length == Offset(ndof, bs) && |pvs| == nrowsLoc
      modifies fv
      ensures fv[..] == Scatter(Mask(), bs, pvs, ndof)
    {
      ghost var m := Mask();
      var cnt: nat := 0;
      for k := 0 to ndof
        invariant Offset(k, bs) <= Offset(ndof, bs)
        invariant cnt == Offset(Held(m, k), bs) <= |pvs|
        invariant fv[..Offset(k, bs)] == Scatter(m, bs, pvs, k)
      {
        SliceEnds(k + 1, ndof, bs);
        HeldMonotone(m, k + 1, ndof);
        SliceEnds(Held(m, k + 1), Held(m, ndof), bs);
        ScatterNext(m, bs, pvs, k);
        var held := IsHeld(k);
        ghost var done := fv[..Offset(k, bs)];
        if held {
          CopyBlock(pvs, cnt, fv, SliceStart(k, bs), bs);
          assert fv[..Offset(k + 1, bs)] == done + pvs[cnt .. cnt + bs];
          cnt := cnt + bs;
        } else {
          ZeroBlock(fv, SliceStart(k, bs), bs);
          assert fv[..Offset(k + 1, bs)] == done + Zeros(bs);
        }
      }
      assert fv[..] == fv[..Offset(ndof, bs)];
    }

    /** With parallel information, a distributed vector over all local dofs; otherwise `ndof` dofs of `bs` entries. */
    function CreateNGsVector(): (v: NGsVector)
      ensures pardofs.Some? ==> v.distributed && v.size == pardofs.value.NDofLocal() && v.entrySize == pardofs.value.entrySize
      ensures pardofs.None? ==> !v.distributed && v.size == ndof && v.entrySize == bs
    {
      if pardofs.Some? then NGsVector(pardofs.value.NDofLocal(), pardofs.value.entrySize, true)
      else NGsVector(ndof, bs, false)
    }

    /** A sequential vector without parallel information, a distributed one otherwise; `nrowsLoc` entries here. */
    function CreatePETScVector(): (v: PETScVector)
      ensures v.LocalSize() == nrowsLoc
      ensures pardofs.None? <==> v.SeqVector?
      ensures v.MPIVector? ==> v.nGlob == nrowsGlob
    {
      if pardofs.None? then SeqVector(nrowsLoc) else MPIVector(nrowsLoc, nrowsGlob)
    }

    /**
     * The two vectors the map creates fit its two copies: the finite element
     * vector has the `ndof * bs` entries both copies index, and the
     * solver-side vector exactly the entries `NGs2PETSc` gathers and
     * `PETSc2NGs` scatters.
     */
    lemma CreatedVectorsFit()
      requires Valid()
      requires pardofs.Some? ==> pardofs.value.NDofLocal() == ndof && pardofs.value.entrySize == bs
      ensures CreateNGsVector().Length() == ndof * bs == Offset(ndof, bs)
      ensures CreatePETScVector().LocalSize() == Offset(Held(Mask(), ndof), bs)
    {
      OffsetIsProduct(ndof, bs);
    }

    /**
     * On one rank without a subset the map holds every dof: `PETSc2NGs` after
     * `NGs2PETSc` gives back the finite element vector unchanged.
     */
    lemma SequentialRoundTrip(fv: seq<real>)
      requires Valid() && pardofs.None? && subset.None?
      requires |fv| == Offset(ndof, bs)
      ensures Held(Mask(), ndof) == ndof
      ensures Scatter(Mask(), bs, Gather(Mask(), bs, fv, ndof), ndof) == fv
    {
      HeldIsCountOwned(pardofs, subset, ndof, ndof);
      CountOwnedSequential(subset, ndof);
      CountAllIncluded(ndof);
      forall k | 0 <= k < ndof
        ensures Mask()[k]
      {
        OwnedMaskAt(pardofs, subset, ndof, k);
      }
      ScatterGather(Mask(), bs, fv, ndof);
      MaskedKeepsAll(Mask(), bs, fv, ndof);
    }
  }
}
