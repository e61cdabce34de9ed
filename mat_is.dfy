/**
 * `CreatePETScMatIS`: the local-to-global maps its `create_map` builds, the
 * owned-dof counts of its `count_ssm`, and the sizes and maps it hands to
 * `MatCreateIS` to glue the local block matrix into the global index space.
 */
module MatIS {
  import opened Wrappers
  import opened Dofs
  import opened Compaction
  import opened Buffers

  /**
   * What `ParallelDofs::EnumerateGlobally(subset, globnums, glob_nd)` hands
   * back, taken as given: a global number per local dof (-1 for the dofs
   * outside the subset) and the number of global dofs.
   */
  datatype Enumeration = Enumeration(globnums: seq<int>, globNd: nat)

  /** The enumeration's promise: the first `n` local dofs get -1 exactly when the subset leaves them out. */
  predicate Marks(subset: Subset, en: Enumeration, n: nat)
    requires n <= |en.globnums|
  {
    forall k :: 0 <= k < n ==> (en.globnums[k] == -1 <==> !Included(subset, k))
  }

  /**
   * The enumeration a single rank that is master of every local dof gets:
   * the compaction of the subset, and as many global dofs as it selects.
   */
  predicate SingleRank(pd: ParallelDofs, subset: Subset, en: Enumeration)
  {
    && (forall k :: 0 <= k < pd.NDofLocal() ==> pd.IsMasterDof(k))
    && en.globnums == CompactionMap(subset, pd.NDofLocal())
    && en.globNd == CountIncluded(subset, pd.NDofLocal())
  }

  /** An `ISLocalToGlobalMapping`: block size, number of local blocks and their global numbers. */
  datatype L2GMap = L2GMap(bs: nat, n: nat, indices: seq<int>)

  /** The global numbers of the first `n` local dofs that the subset selects, in local order. */
  function SubsetGlobnums(globnums: seq<int>, subset: Subset, n: nat): (g: seq<int>)
    requires n <= |globnums|
    ensures |g| == CountIncluded(subset, n)
  {
    if n == 0 then []
    else SubsetGlobnums(globnums, subset, n - 1) + (if Included(subset, n - 1) then [globnums[n - 1]] else [])
  }

  /** The mapping `create_map` builds for one space. */
  function MapOf(pd: ParallelDofs, subset: Subset, en: Enumeration): L2GMap
    requires |en.globnums| == pd.NDofLocal()
  {
    L2GMap(pd.entrySize, CountIncluded(subset, pd.NDofLocal()), SubsetGlobnums(en.globnums, subset, pd.NDofLocal()))
  }

  /**
   * `create_map`: every global number that is not -1, which by the
   * enumeration's promise are those of the subset's dofs, copied in local
   * order into a buffer sized `subset->NumSet()` (or the local dof count
   * without a subset), of which the first `loc_nfd` make the mapping.
   */
  method CreateMap(pd: ParallelDofs, subset: Subset, en: Enumeration) returns (lmap: L2GMap)
    requires Fits(subset, pd.NDofLocal()) && |en.globnums| == pd.NDofLocal()
    requires Marks(subset, en, pd.NDofLocal())
    ensures lmap == MapOf(pd, subset, en)
  {
    var n := pd.NDofLocal();
    var size := if subset.Some? then NumSet(subset.value) else n;
    BufferLargeEnough(subset, n);
    var compress := new int[size];
    var locNfd := 0;
    for k := 0 to n
      invariant locNfd == CountIncluded(subset, k) <= CountIncluded(subset, n)
      invariant compress[..locNfd] == SubsetGlobnums(en.globnums, subset, k)
    {
      CountIncludedMonotone(subset, k + 1, n);
      if en.globnums[k] != -1 {
        Put(compress, locNfd, en.globnums[k]);
        locNfd := locNfd + 1;
      }
    }
    lmap := L2GMap(pd.entrySize, locNfd, compress[..locNfd]);
  }

  /** The buffer of `create_map` has room for every selected dof. */
  lemma {:induction false} BufferLargeEnough(subset: Subset, n: nat)
    requires Fits(subset, n)
    ensures CountIncluded(subset, n) <= if subset.Some? then NumSet(subset.value) else n
  {
    if subset.Some? {
      CountIncludedMonotone(subset, n, |subset.value|);
    }
  }

  /** Position `i` of the mapping holds the global number of the `i`-th selected dof. */
  lemma {:induction false} SubsetGlobnumsAt(globnums: seq<int>, subset: Subset, n: nat)
    requires n <= |globnums|
    ensures forall i :: 0 <= i < CountIncluded(subset, n) ==>
              SubsetGlobnums(globnums, subset, n)[i] == globnums[Retained(subset, n)[i]]
  {
    if n > 0 {
      SubsetGlobnumsAt(globnums, subset, n - 1);
    }
  }

  /**
   * Each selected dof's global number sits at the dof's compacted index, the
   * numbering the local matrix uses, so local block `i` of the matrix is glued
   * to the global number of the dof it came from.
   */
  lemma {:induction false} MapAtCompactedIndex(globnums: seq<int>, subset: Subset, n: nat, k: nat)
    requires n <= |globnums| && k < n && Included(subset, k)
    ensures 0 <= CompactionMap(subset, n)[k] < |SubsetGlobnums(globnums, subset, n)|
    ensures SubsetGlobnums(globnums, subset, n)[CompactionMap(subset, n)[k]] == globnums[k]
  {
    CompactionInverse(subset, n, k);
    SubsetGlobnumsAt(globnums, subset, n);
  }

  /** When the enumeration marks exactly the unselected dofs with -1, the mapping holds no -1. */
  lemma {:induction false} MapHasNoSentinel(subset: Subset, en: Enumeration, n: nat)
    requires n <= |en.globnums| && Marks(subset, en, n)
    ensures forall i :: 0 <= i < |SubsetGlobnums(en.globnums, subset, n)| ==> SubsetGlobnums(en.globnums, subset, n)[i] != -1
  {
    SubsetGlobnumsAt(en.globnums, subset, n);
  }

  /** On a single rank the mapping is the identity on `[0, loc_nfd)`. */
  lemma {:induction false} MapSingleRank(pd: ParallelDofs, subset: Subset, en: Enumeration)
    requires SingleRank(pd, subset, en)
    ensures var m := MapOf(pd, subset, en);
      m.n == |m.indices| == en.globNd && forall i :: 0 <= i < m.n ==> m.indices[i] == i
  {
    var n := pd.NDofLocal();
    SubsetGlobnumsAt(en.globnums, subset, n);
    CompactionOnto(subset, n);
  }

  /** `count_ssm`: the local dofs that are in the subset and of which this rank is master. */
  method CountSubsetMasters(pd: ParallelDofs, subset: Subset) returns (x: nat)
    requires Fits(subset, pd.NDofLocal())
    ensures x == CountOwned(Some(pd), subset, pd.NDofLocal())
  {
    x := 0;
    for k := 0 to pd.NDofLocal()
      invariant x == CountOwned(Some(pd), subset, k)
    {
      if Included(subset, k) && pd.IsMasterDof(k) {
        x := x + 1;
      }
    }
  }

  /** A rank that is master of all its dofs owns every selected one: `count_ssm` equals `loc_nfd`. */
  lemma {:induction false} CountOwnedAllMaster(pd: ParallelDofs, subset: Subset, n: nat)
    requires n <= pd.NDofLocal()
    requires forall k :: 0 <= k < pd.NDofLocal() ==> pd.IsMasterDof(k)
    ensures CountOwned(Some(pd), subset, n) == CountIncluded(subset, n)
  {
    if n > 0 {
      CountOwnedAllMaster(pd, subset, n - 1);
    }
  }

  /**
   * The arguments of `MatCreateIS`: block size, owned rows and columns, global
   * rows and columns, the row mapping (absent, `NULL`, when both spaces are
   * the same) and the column mapping. The matrix's rows are the column space
   * (`css`, the height) and its columns the row space (`rss`, the width).
   */
  datatype ISMat = ISMat(bs: nat, nRowsOwned: nat, nColsOwned: nat, globNRows: nat, globNCols: nat,
                         rowMap: Option<L2GMap>, colMap: L2GMap)

  /** A matrix layout from block counts: every size is a number of blocks of `bs` rows or columns. */
  function Blocked(bs: nat, ownedRows: nat, ownedCols: nat, globRows: nat, globCols: nat,
                   rowMap: Option<L2GMap>, colMap: L2GMap): ISMat
  {
    ISMat(bs, ownedRows * bs, ownedCols * bs, globRows * bs, globCols * bs, rowMap, colMap)
  }

  /** What `CreatePETScMatIS` may be called with. */
  predicate ISArgs(sameSpaces: bool, rowPd: ParallelDofs, colPd: ParallelDofs, rss: Subset, css: Subset,
                   rowEnum: Enumeration, colEnum: Enumeration)
  {
    && (sameSpaces ==> rowPd == colPd && rss == css)
    && Fits(rss, rowPd.NDofLocal()) && |rowEnum.globnums| == rowPd.NDofLocal()
    && Marks(rss, rowEnum, rowPd.NDofLocal())
    && Fits(css, colPd.NDofLocal())
    && (!sameSpaces ==> |colEnum.globnums| == colPd.NDofLocal() && Marks(css, colEnum, colPd.NDofLocal()))
  }

  /**
   * The layout as written: both owned counts are counted over the row space,
   * `n_ssm_col` being `count_ssm(row_pardofs, rss)` again.
   */
  function ISLayoutAsWritten(sameSpaces: bool, rowPd: ParallelDofs, colPd: ParallelDofs, rss: Subset, css: Subset,
                             rowEnum: Enumeration, colEnum: Enumeration): (l: ISMat)
    requires ISArgs(sameSpaces, rowPd, colPd, rss, css, rowEnum, colEnum)
    ensures l.nRowsOwned == l.nColsOwned
  {
    var bs := rowPd.entrySize;
    var nSsmRow := CountOwned(Some(rowPd), rss, rowPd.NDofLocal());
    var nSsmCol := if sameSpaces then nSsmRow else CountOwned(Some(rowPd), rss, rowPd.NDofLocal());
    var globNdRow := rowEnum.globNd;
    var globNdCol := if sameSpaces then globNdRow else colEnum.globNd;
    Blocked(bs, nSsmRow, nSsmCol, globNdCol, globNdRow,
            if sameSpaces then None else Some(MapOf(colPd, css, colEnum)), MapOf(rowPd, rss, rowEnum))
  }

  /**
   * As written, a single rank with different row and column subsets announces
   * as many owned rows as its row space has dofs, while the matrix has as many
   * global rows as the column space has: one dof with `rss` absent and `css`
   * empty gives one owned row out of zero.
   */
  lemma {:induction false} ISLayoutAsWrittenMismatch()
    ensures var pd := ParallelDofs(1, [true]);
      var rowEnum, colEnum := Enumeration([0], 1), Enumeration([-1], 0);
      var l := ISLayoutAsWritten(false, pd, pd, None, Some([false]), rowEnum, colEnum);
      && SingleRank(pd, None, rowEnum) && SingleRank(pd, Some([false]), colEnum)
      && l.nRowsOwned == 1 && l.globNRows == 0
  {
    var pd := ParallelDofs(1, [true]);
    assert CompactionMap(None, 1) == [0] by {
      assert Compacted(None, 0) == 0;
    }
    assert CompactionMap(Some([false]), 1) == [-1];
    assert CountOwned(Some(pd), None, 1) == 1 by {
      assert Owned(Some(pd), None, 0);
    }
  }

  /**
   * The layout with the owned rows counted over the column space, as the row
   * mapping and the global row count are: `n_rows_owned` is `bs` times
   * `count_ssm(col_pardofs, css)`, `n_cols_owned` `bs` times
   * `count_ssm(row_pardofs, rss)`, shared when the spaces are the same.
   */
  function ISLayout(sameSpaces: bool, rowPd: ParallelDofs, colPd: ParallelDofs, rss: Subset, css: Subset,
                    rowEnum: Enumeration, colEnum: Enumeration): (l: ISMat)
    requires ISArgs(sameSpaces, rowPd, colPd, rss, css, rowEnum, colEnum)
    ensures l.bs == rowPd.entrySize && l.colMap == MapOf(rowPd, rss, rowEnum)
    ensures l.rowMap.None? <==> sameSpaces
  {
    var bs := rowPd.entrySize;
    var globNdRow := rowEnum.globNd;
    var globNdCol := if sameSpaces then globNdRow else colEnum.globNd;
    Blocked(bs, CountOwned(Some(colPd), css, colPd.NDofLocal()), CountOwned(Some(rowPd), rss, rowPd.NDofLocal()),
            globNdCol, globNdRow,
            if sameSpaces then None else Some(MapOf(colPd, css, colEnum)), MapOf(rowPd, rss, rowEnum))
  }

  /**
   * When the row and column spaces are the same, the correction changes nothing:
   * the layout as written is already the intended one.
   */
  lemma {:induction false} ISLayoutAgreesOnSameSpaces(rowPd: ParallelDofs, colPd: ParallelDofs, rss: Subset, css: Subset,
                                                      rowEnum: Enumeration, colEnum: Enumeration)
    requires ISArgs(true, rowPd, colPd, rss, css, rowEnum, colEnum)
    ensures ISLayout(true, rowPd, colPd, rss, css, rowEnum, colEnum)
            == ISLayoutAsWritten(true, rowPd, colPd, rss, css, rowEnum, colEnum)
  {
  }

  /**
   * On a single rank the corrected layout is consistent: it owns all its
   * global rows and columns, and each mapping has one entry per owned block,
   * numbered `0, 1, ...` in local order.
   */
  lemma {:induction false} ISLayoutSingleRank(sameSpaces: bool, rowPd: ParallelDofs, colPd: ParallelDofs,
                                              rss: Subset, css: Subset, rowEnum: Enumeration, colEnum: Enumeration)
    requires ISArgs(sameSpaces, rowPd, colPd, rss, css, rowEnum, colEnum)
    requires SingleRank(rowPd, rss, rowEnum) && SingleRank(colPd, css, colEnum)
    ensures var l := ISLayout(sameSpaces, rowPd, colPd, rss, css, rowEnum, colEnum);
      && l.nRowsOwned == l.globNRows && l.nColsOwned == l.globNCols
      && l.colMap.n * l.bs == l.nColsOwned
      && (forall i :: 0 <= i < l.colMap.n ==> l.colMap.indices[i] == i)
      && (l.rowMap.Some? ==> l.rowMap.value.n * l.bs == l.nRowsOwned)
      && (l.rowMap.Some? ==> forall i :: 0 <= i < l.rowMap.value.n ==> l.rowMap.value.indices[i] == i)
  {
    CountOwnedAllMaster(rowPd, rss, rowPd.NDofLocal());
    CountOwnedAllMaster(colPd, css, colPd.NDofLocal());
    MapSingleRank(rowPd, rss, rowEnum);
    if !sameSpaces {
      MapSingleRank(colPd, css, colEnum);
    }
  }

  /**
   * `CreatePETScMatIS`: the row-space mapping, the column-space one unless
   * both spaces are the same, the owned counts and the global sizes.
   * `sameSpaces` is the source's pointer comparison of the two parallel dof
   * objects and the two subsets; identical objects have equal values.
   */
  method CreatePETScMatIS(sameSpaces: bool, rowPd: ParallelDofs, colPd: ParallelDofs, rss: Subset, css: Subset,
                          rowEnum: Enumeration, colEnum: Enumeration)
    returns (mat: ISMat)
    requires ISArgs(sameSpaces, rowPd, colPd, rss, css, rowEnum, colEnum)
    ensures mat == ISLayout(sameSpaces, rowPd, colPd, rss, css, rowEnum, colEnum)
  {
    var bs := rowPd.entrySize;
    var mapRow := CreateMap(rowPd, rss, rowEnum);
    var globNdRow := rowEnum.globNd;
    var nSsmRow := CountSubsetMasters(rowPd, rss);
    var mapCol: Option<L2GMap>, globNdCol, nSsmCol;
    if sameSpaces {
      mapCol, globNdCol, nSsmCol := None, globNdRow, nSsmRow;
    } else {
      var m := CreateMap(colPd, css, colEnum);
      mapCol, globNdCol := Some(m), colEnum.globNd;
      nSsmCol := CountSubsetMasters(colPd, css);
    }
    mat := Blocked(bs, nSsmCol, nSsmRow, globNdCol, globNdRow, mapCol, mapRow);
  }
}
