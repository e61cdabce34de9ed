/**
 * `CreatePETScMatSeqBAIJ`, `SetPETScMatSeq`, the block-size dispatch of
 * `CreatePETScMatSeq` and `PETScMatrix::UpdateValues`: the loops that compute
 * what is handed to the solver library, proved against `BuiltBAIJ`.
 */
module SeqBaij {
  import opened Wrappers
  import opened Dofs
  import opened Compaction
  import opened BlockPattern
  import opened Buffers

  datatype MatError =
    | BlockSizeMismatch(petscBs: int, ngsBs: nat)  // "Block-Size of petsc-mat (..) != block-size of ngs-mat(..)"
    | UnsupportedMatrix                            // "Cannot make PETSc-Mat ..." / "Can not update values ..."

  /**
   * The guard of the `nzepr` loop as written, `!css | css->Test(k)`: the bitwise
   * `|` evaluates `css->Test(k)` even when `css` is null. `None` stands for that
   * null dereference.
   */
  function NzeprGuardAsWritten(css: Subset, k: nat): (r: Option<bool>)
    ensures r.None? <==> css.None?
    ensures r.Some? ==> r.value == Included(css, k)
  {
    match css
    case None => None
    case Some(bits) => Some(false || (k < |bits| && bits[k]))
  }

  /** Without a column subset the guard as written faults, where every row should be counted. */
  lemma {:induction false} NzeprGuardFaultsWithoutSubset(k: nat)
    ensures NzeprGuardAsWritten(None, k).None?
    ensures Included(None, k)
  {
  }

  /**
   * The `nzepr` loop: for each retained source row, in order, the number of its
   * column indices that pass `rss`. The guard is the short-circuit
   * subset test of the neighbouring loops.
   */
  method CountBlocksPerRow<B>(m: SparseMatrix<B>, rss: Subset, css: Subset, nbcol: nat) returns (nzepr: seq<int>)
    requires nbcol == CountIncluded(css, |m.rows|)
    ensures nzepr == BlocksPerRow(m, rss, css, |m.rows|)
  {
    var counts := new int[nbcol](_ => 0);
    var row := 0;
    for k := 0 to |m.rows|
      invariant row == CountIncluded(css, k) <= nbcol
      invariant counts[..row] == BlocksPerRow(m, rss, css, k)
    {
      CountStep(m, rss, css, k, k + 1, nbcol);
      if Included(css, k) {
        var c := CountRow(m, rss, k);
        Put(counts, row, c);
        row := row + 1;
      }
    }
    nzepr := counts[..];
  }

  /** What row `k` adds to `nzepr`, and that `nzepr` has a slot for it. */
  lemma {:induction false} CountStep<B>(m: SparseMatrix<B>, rss: Subset, css: Subset, k: nat, next: nat, nbcol: nat)
    requires k < |m.rows| && next == k + 1 && nbcol == CountIncluded(css, |m.rows|)
    ensures Included(css, k) ==>
              && CountIncluded(css, next) == CountIncluded(css, k) + 1 <= nbcol
              && BlocksPerRow(m, rss, css, next) == BlocksPerRow(m, rss, css, k) + [|RowKept(m, rss, k)|]
    ensures !Included(css, k) ==>
              && CountIncluded(css, next) == CountIncluded(css, k)
              && BlocksPerRow(m, rss, css, next) == BlocksPerRow(m, rss, css, k)
  {
    CountIncludedMonotone(css, next, |m.rows|);
    BlocksPerRowStep(m, rss, css, k, next);
  }

  /** The count of one retained row: its column indices that pass `rss`. */
  method CountRow<B>(m: SparseMatrix<B>, rss: Subset, k: nat) returns (c: nat)
    requires k < |m.rows|
    ensures c == |RowKept(m, rss, k)|
  {
    c := 0;
    for j := 0 to |m.rows[k]|
      invariant c == |RowItems(m, rss, k, j)|
    {
      RowItemsStep(m, rss, k, j, j + 1);
      if Included(rss, m.rows[k][j].col) {
        c := c + 1;
      }
    }
  }

  /** `n_b_entries += nzepr[k]` over all retained rows. */
  method SumBlocks(nzepr: seq<int>) returns (total: int)
    ensures total == Sum(nzepr)
  {
    total := 0;
    for k := 0 to |nzepr|
      invariant total == Sum(nzepr[..k])
    {
      assert nzepr[..k + 1][..k] == nzepr[..k];
      total := total + nzepr[k];
    }
    assert nzepr[..|nzepr|] == nzepr;
  }

  /**
   * The `cols` loop: `row_compress[j]` for every selected entry, in source
   * order, each appended after the ones before it.
   */
  method FillColumnIndices<B>(m: SparseMatrix<B>, rss: Subset, css: Subset, rowCompress: seq<int>)
    returns (cols: seq<int>)
    requires m.Valid() && |rowCompress| == m.width
    ensures cols == Columns(rowCompress, Kept(m, rss, css))
  {
    cols := [];
    ghost var done: seq<Item<B>> := [];
    for k := 0 to |m.rows|
      invariant done == Items(m, rss, css, k)
      invariant cols == Columns(rowCompress, done)
    {
      ItemsStep(m, rss, css, k, k + 1);
      if Included(css, k) {
        cols := FillRowColumns(m, rss, rowCompress, k, cols, done);
        done := done + RowKept(m, rss, k);
      }
    }
  }

  /** One retained row of the `cols` loop: `row_compress[j]` for each of its columns passing `rss`. */
  method FillRowColumns<B>(m: SparseMatrix<B>, rss: Subset, rowCompress: seq<int>, k: nat, cols0: seq<int>,
                           ghost done: seq<Item<B>>)
    returns (cols: seq<int>)
    requires m.Valid() && |rowCompress| == m.width && k < |m.rows|
    requires cols0 == Columns(rowCompress, done)
    ensures cols == Columns(rowCompress, done + RowKept(m, rss, k))
  {
    cols := cols0;
    assert cols0 + Columns(rowCompress, RowItems(m, rss, k, 0)) == cols0;
    for j := 0 to |m.rows[k]|
      invariant cols == cols0 + Columns(rowCompress, RowItems(m, rss, k, j))
    {
      var col := m.rows[k][j].col;
      FillRowStep(m, rss, rowCompress, k, j, j + 1);
      if Included(rss, col) {
        AppendAfter(cols0, Columns(rowCompress, RowItems(m, rss, k, j)), rowCompress[col]);
        cols := cols + [rowCompress[col]];
      }
    }
    ColumnsConcat(rowCompress, done, RowKept(m, rss, k));
  }

  /** What entry `j` of row `k` adds to the row's column indices. */
  lemma {:induction false} FillRowStep<B>(m: SparseMatrix<B>, rss: Subset, rowCompress: seq<int>, k: nat, j: nat,
                                          next: nat)
    requires m.Valid() && |rowCompress| == m.width && k < |m.rows| && j < |m.rows[k]| && next == j + 1
    ensures Included(rss, m.rows[k][j].col) ==>
              Columns(rowCompress, RowItems(m, rss, k, next))
              == Columns(rowCompress, RowItems(m, rss, k, j)) + [rowCompress[m.rows[k][j].col]]
    ensures !Included(rss, m.rows[k][j].col) ==>
              Columns(rowCompress, RowItems(m, rss, k, next)) == Columns(rowCompress, RowItems(m, rss, k, j))
  {
    RowItemsStep(m, rss, k, j, next);
    if Included(rss, m.rows[k][j].col) {
      ColumnsConcat(rowCompress, RowItems(m, rss, k, j), [ItemAt(m, k, j)]);
    }
  }

  /**
   * The insertion loop shared by `SetPETScMatSeq` and `CreatePETScMatSeqBAIJ`:
   * rows with `col_compress[k] != -1`, entries with `row_compress[ris[j]] != -1`,
   * each inserted at `(col_compress[k], row_compress[ris[j]])` with its own block.
   */
  method InsertBlocks<B>(m: SparseMatrix<B>, rowCompress: seq<int>, colCompress: seq<int>, ghost rss: Subset, ghost css: Subset)
    returns (ins: seq<Insertion<B>>)
    requires m.Valid() && |rowCompress| == m.width && |colCompress| == |m.rows|
    requires forall c :: 0 <= c < m.width ==> (rowCompress[c] != -1 <==> Included(rss, c))
    requires forall k :: 0 <= k < |m.rows| ==> (colCompress[k] != -1 <==> Included(css, k))
    ensures ins == Inserts(colCompress, rowCompress, Kept(m, rss, css))
  {
    ins := [];
    ghost var done: seq<Item<B>> := [];
    for k := 0 to |m.rows|
      invariant done == Items(m, rss, css, k)
      invariant ins == Inserts(colCompress, rowCompress, done)
    {
      ItemsStep(m, rss, css, k, k + 1);
      var ck := colCompress[k];
      if ck != -1 {
        ins := InsertRow(m, rowCompress, colCompress, rss, k, ins, done);
        done := done + RowKept(m, rss, k);
      }
    }
  }

  /** One row of the insertion loop, a row with `col_compress[k] != -1`. */
  method InsertRow<B>(m: SparseMatrix<B>, rowCompress: seq<int>, colCompress: seq<int>, ghost rss: Subset, k: nat,
                      ins0: seq<Insertion<B>>, ghost done: seq<Item<B>>)
    returns (ins: seq<Insertion<B>>)
    requires m.Valid() && k < |m.rows| && |rowCompress| == m.width && |colCompress| == |m.rows|
    requires forall c :: 0 <= c < m.width ==> (rowCompress[c] != -1 <==> Included(rss, c))
    requires ins0 == Inserts(colCompress, rowCompress, done)
    ensures ins == Inserts(colCompress, rowCompress, done + RowKept(m, rss, k))
  {
    ins := ins0;
    var ck := colCompress[k];
    assert ins0 + Inserts(colCompress, rowCompress, RowItems(m, rss, k, 0)) == ins0;
    for j := 0 to |m.rows[k]|
      invariant ins == ins0 + Inserts(colCompress, rowCompress, RowItems(m, rss, k, j))
    {
      var cj := rowCompress[m.rows[k][j].col];
      InsertRowStep(m, rss, rowCompress, colCompress, k, j, j + 1);
      if cj != -1 {
        AppendAfter(ins0, Inserts(colCompress, rowCompress, RowItems(m, rss, k, j)), Insertion(ck, cj, m.rows[k][j].block));
        ins := ins + [Insertion(ck, cj, m.rows[k][j].block)];
      }
    }
    InsertsConcat(colCompress, rowCompress, done, RowKept(m, rss, k));
  }

  /** What entry `j` of row `k` adds to the row's insertions. */
  lemma {:induction false} InsertRowStep<B>(m: SparseMatrix<B>, rss: Subset, rowCompress: seq<int>, colCompress: seq<int>,
                                            k: nat, j: nat, next: nat)
    requires m.Valid() && |rowCompress| == m.width && |colCompress| == |m.rows|
    requires forall c :: 0 <= c < m.width ==> (rowCompress[c] != -1 <==> Included(rss, c))
    requires k < |m.rows| && j < |m.rows[k]| && next == j + 1
    ensures rowCompress[m.rows[k][j].col] != -1 ==>
              Inserts(colCompress, rowCompress, RowItems(m, rss, k, next))
              == Inserts(colCompress, rowCompress, RowItems(m, rss, k, j))
                 + [Insertion(colCompress[k], rowCompress[m.rows[k][j].col], m.rows[k][j].block)]
    ensures rowCompress[m.rows[k][j].col] == -1 ==>
              Inserts(colCompress, rowCompress, RowItems(m, rss, k, next))
              == Inserts(colCompress, rowCompress, RowItems(m, rss, k, j))
  {
    RowItemsStep(m, rss, k, j, next);
    if Included(rss, m.rows[k][j].col) {
      InsertsConcat(colCompress, rowCompress, RowItems(m, rss, k, j), [ItemAt(m, k, j)]);
    }
  }

  /** Appending to a sequence that extends `prefix` keeps it extending `prefix`. */
  lemma {:induction false} AppendAfter<T>(prefix: seq<T>, s: seq<T>, v: T)
    ensures prefix + s + [v] == prefix + (s + [v])
  {
  }

  /**
   * `CreatePETScMatSeqBAIJ`: compaction of both index spaces, the preallocation
   * `nzepr`, the column index array and the insertions. Square blocks only
   * (the source's `static_assert`). The matrix is `nbcol` by `nbrow` blocks of
   * `bh` x `bh` scalars, which is the source's `nrows = nbcol*bh`, `ncols = nbrow*bw`.
   */
  method CreatePETScMatSeqBAIJ<B>(m: SparseMatrix<B>, rss: Subset, css: Subset) returns (mat: SeqBAIJ<B>)
    requires m.Valid() && m.bw == m.bh
    requires Fits(rss, m.width) && Fits(css, |m.rows|)
    ensures mat == BuiltBAIJ(m, rss, css)
  {
    var rowCompress, nbrow := Compact(m.width, rss);
    var bh := m.bh;
    var colCompress, nbcol := Compact(|m.rows|, css);
    var nzepr, _, cols := AllocatePattern(m, rss, css, rowCompress, nbcol);
    assert forall c :: 0 <= c < m.width ==> (rowCompress[c] != -1 <==> Included(rss, c)) by {
      CompactionRange(rss, m.width);
    }
    assert forall k :: 0 <= k < |m.rows| ==> (colCompress[k] != -1 <==> Included(css, k)) by {
      CompactionRange(css, |m.rows|);
    }
    var ins := InsertBlocks(m, rowCompress, colCompress, rss, css);
    mat := SeqBAIJ(bh, nbcol, nbrow, nzepr, cols, ins);
    ghost var built := BuiltBAIJ(m, rss, css);
    assert mat.nzepr == built.nzepr && mat.cols == built.cols && mat.inserts == built.inserts;
  }

  /**
   * The preallocation `nzepr`, its total `n_b_entries` and the column index
   * array `cols` of `CreatePETScMatSeqBAIJ`; `cols` fills exactly the
   * `n_b_entries` slots allocated for it.
   */
  method AllocatePattern<B>(m: SparseMatrix<B>, rss: Subset, css: Subset, rowCompress: seq<int>, nbcol: nat)
    returns (nzepr: seq<int>, nEntries: int, cols: seq<int>)
    requires m.Valid() && |rowCompress| == m.width && nbcol == CountIncluded(css, |m.rows|)
    ensures nzepr == BlocksPerRow(m, rss, css, |m.rows|)
    ensures cols == Columns(rowCompress, Kept(m, rss, css))
    ensures nEntries == |cols|
  {
    nzepr := CountBlocksPerRow(m, rss, css, nbcol);
    nEntries := SumBlocks(nzepr);
    cols := FillColumnIndices(m, rss, css, rowCompress);
    SumBlocksPerRow(m, rss, css, |m.rows|);
  }

  /**
   * `SetPETScMatSeq`: refuses a library matrix whose block size differs from the
   * source block width, and then inserts nothing; otherwise it makes the same
   * insertions as the build. (Its `ncols` and `nrows` are computed and unused.)
   */
  method SetPETScMatSeq<B>(petscBs: int, m: SparseMatrix<B>, rss: Subset, css: Subset)
    returns (r: Result<seq<Insertion<B>>, MatError>)
    requires m.Valid() && Fits(rss, m.width) && Fits(css, |m.rows|)
    ensures petscBs != m.bw ==> r == Failure(BlockSizeMismatch(petscBs, m.bw))
    ensures petscBs == m.bw ==> r == Success(BuiltBAIJ(m, rss, css).inserts)
  {
    if petscBs != m.bw {
      return Failure(BlockSizeMismatch(petscBs, m.bw));
    }
    var rowCompress, nbrow := Compact(m.width, rss);
    var colCompress, nbcol := Compact(|m.rows|, css);
    assert forall c :: 0 <= c < m.width ==> (rowCompress[c] != -1 <==> Included(rss, c)) by {
      CompactionRange(rss, m.width);
    }
    assert forall k :: 0 <= k < |m.rows| ==> (colCompress[k] != -1 <==> Included(css, k)) by {
      CompactionRange(css, |m.rows|);
    }
    var ins := InsertBlocks(m, rowCompress, colCompress, rss, css);
    r := Success(ins);
  }

  /** Block sizes with an instantiation: `double` (size 1) and `Mat<n,n>` for `n` from 2 to 8. */
  predicate UpdatableBlock(bh: nat, bw: nat)
  {
    bh == bw && 1 <= bw <= 8
  }

  /**
   * `PETScMatrix::UpdateValues` on the local sparse matrix: dispatch on the block
   * type, then `SetPETScMatSeq`; the new insertions go after the earlier ones,
   * and the block size, dimensions and pattern stay as they were.
   */
  method UpdateValues<B>(mat: SeqBAIJ<B>, m: SparseMatrix<B>, rss: Subset, css: Subset)
    returns (r: Result<SeqBAIJ<B>, MatError>)
    requires m.Valid() && Fits(rss, m.width) && Fits(css, |m.rows|)
    ensures !UpdatableBlock(m.bh, m.bw) ==> r == Failure(UnsupportedMatrix)
    ensures UpdatableBlock(m.bh, m.bw) && mat.bs != m.bw ==> r == Failure(BlockSizeMismatch(mat.bs, m.bw))
    ensures UpdatableBlock(m.bh, m.bw) && mat.bs == m.bw ==>
              r == Success(mat.(inserts := mat.inserts + BuiltBAIJ(m, rss, css).inserts))
    ensures mat == BuiltBAIJ(m, rss, css) && UpdatableBlock(m.bh, m.bw) ==> r.Success?
  {
    if !UpdatableBlock(m.bh, m.bw) {
      return Failure(UnsupportedMatrix);
    }
    var refreshed := SetPETScMatSeq(mat.bs, m, rss, css);
    match refreshed
    case Failure(e) => r := Failure(e);
    case Success(ins) => r := Success(mat.(inserts := mat.inserts + ins));
  }

  /**
   * The `dynamic_pointer_cast` chain of `CreatePETScMatSeq` as written: the
   * branches compiled in for `MAX_SYS_DIM >= 7` and `>= 8` test `Mat<6>` again.
   * `Some(n)` is the block size of the instantiation that matches.
   */
  function SeqBlockSizeAsWritten(bh: nat, bw: nat, maxSysDim: nat): (r: Option<int>)
    ensures r.Some? ==> r.value == bh == bw && bh <= 6
  {
    if bh == 1 && bw == 1 then Some(1)
    else if maxSysDim >= 2 && bh == 2 && bw == 2 then Some(2)
    else if maxSysDim >= 3 && bh == 3 && bw == 3 then Some(3)
    else if maxSysDim >= 4 && bh == 4 && bw == 4 then Some(4)
    else if maxSysDim >= 5 && bh == 5 && bw == 5 then Some(5)
    else if maxSysDim >= 6 && bh == 6 && bw == 6 then Some(6)
    else if maxSysDim >= 7 && bh == 6 && bw == 6 then Some(6)
    else if maxSysDim >= 8 && bh == 6 && bw == 6 then Some(6)
    else None
  }

  /** As written, 7x7 and 8x8 block matrices are refused even when `MAX_SYS_DIM` is 8. */
  lemma {:induction false} SeqBlockSizeAsWrittenRefusesSevenAndEight()
    ensures SeqBlockSizeAsWritten(7, 7, 8).None?
    ensures SeqBlockSizeAsWritten(8, 8, 8).None?
  {
  }

  /** The dispatch with `Mat<7>` and `Mat<8>` in the last two branches. */
  function SeqBlockSize(bh: nat, bw: nat, maxSysDim: nat): (r: Option<nat>)
    ensures r.Some? <==> bh == bw && 1 <= bh <= 8 && (bh == 1 || bh <= maxSysDim)
    ensures r.Some? ==> r.value == bh
  {
    if bh == 1 && bw == 1 then Some(1)
    else if maxSysDim >= 2 && bh == 2 && bw == 2 then Some(2)
    else if maxSysDim >= 3 && bh == 3 && bw == 3 then Some(3)
    else if maxSysDim >= 4 && bh == 4 && bw == 4 then Some(4)
    else if maxSysDim >= 5 && bh == 5 && bw == 5 then Some(5)
    else if maxSysDim >= 6 && bh == 6 && bw == 6 then Some(6)
    else if maxSysDim >= 7 && bh == 7 && bw == 7 then Some(7)
    else if maxSysDim >= 8 && bh == 8 && bw == 8 then Some(8)
    else None
  }

  /**
   * `CreatePETScMatSeq`: a sparse matrix with a supported square block size is
   * built by `CreatePETScMatSeqBAIJ`; any other is refused.
   */
  method CreatePETScMatSeq<B>(m: SparseMatrix<B>, rss: Subset, css: Subset, maxSysDim: nat)
    returns (r: Result<SeqBAIJ<B>, MatError>)
    requires m.Valid() && Fits(rss, m.width) && Fits(css, |m.rows|)
    ensures SeqBlockSize(m.bh, m.bw, maxSysDim).None? ==> r == Failure(UnsupportedMatrix)
    ensures SeqBlockSize(m.bh, m.bw, maxSysDim).Some? ==> r == Success(BuiltBAIJ(m, rss, css))
  {
    if SeqBlockSize(m.bh, m.bw, maxSysDim).None? {
      return Failure(UnsupportedMatrix);
    }
    var mat := CreatePETScMatSeqBAIJ(m, rss, css);
    r := Success(mat);
  }
}
