/**
 * The block-sparse pattern that `CreatePETScMatSeqBAIJ` hands to the solver
 * library and the insertions that it and `SetPETScMatSeq` make, as functions of
 * the source matrix and the two subsets.
 *
 * Naming follows the source: the source matrix's rows (`Height()` of them) are
 * filtered by the column subset `css` and compacted by `col_compress`; its
 * column indices (`Width()`) are filtered by the row subset `rss` and compacted
 * by `row_compress`. A retained source row `k` becomes block row
 * `col_compress[k]` of the library matrix.
 */
module BlockPattern {
  import opened Wrappers
  import opened Dofs
  import opened Compaction

  /** One stored entry of a sparse row: its column index and its dense block. */
  datatype Entry<B> = Entry(col: nat, block: B)

  /**
   * `SparseMatrixTM<TM>`: `Height()` rows of entries, `Width()` columns and
   * blocks of `bh` x `bw` scalars (`mat_traits<TM>::HEIGHT`/`WIDTH`).
   */
  datatype SparseMatrix<B> = SparseMatrix(width: nat, bh: nat, bw: nat, rows: seq<seq<Entry<B>>>)
  {
    function Height(): nat { |rows| }

    /** Every column index lies below `Width()`. */
    predicate Valid()
    {
      forall k, j | 0 <= k < |rows| && 0 <= j < |rows[k]| :: rows[k][j].col < width
    }
  }

  /** A stored entry together with where it sits: source row `row`, index `idx` within `GetRowIndices(row)`. */
  datatype Item<B> = Item(row: nat, idx: nat, col: nat, block: B)

  /** One `MatSetValuesBlocked(mat, 1, &row, 1, &col, block, INSERT_VALUES)` call. */
  datatype Insertion<B> = Insertion(row: int, col: int, block: B)

  function ItemAt<B>(m: SparseMatrix<B>, k: nat, j: nat): Item<B>
    requires k < |m.rows| && j < |m.rows[k]|
  {
    Item(k, j, m.rows[k][j].col, m.rows[k][j].block)
  }

  /** `it` is a stored entry of `m`, its row passes `css` and its column passes `rss`. */
  ghost predicate Selected<B>(m: SparseMatrix<B>, rss: Subset, css: Subset, it: Item<B>)
  {
    && it.row < |m.rows| && it.idx < |m.rows[it.row]| && it == ItemAt(m, it.row, it.idx)
    && Included(css, it.row) && Included(rss, it.col)
  }

  /** The entries among the first `j` of row `k` whose column passes `rss`, in order. */
  function RowItems<B>(m: SparseMatrix<B>, rss: Subset, k: nat, j: nat): (items: seq<Item<B>>)
    requires k < |m.rows| && j <= |m.rows[k]|
    ensures |items| <= j
  {
    if j == 0 then []
    else RowItems(m, rss, k, j - 1) + (if Included(rss, m.rows[k][j - 1].col) then [ItemAt(m, k, j - 1)] else [])
  }

  /** All retained entries of source row `k`. */
  function RowKept<B>(m: SparseMatrix<B>, rss: Subset, k: nat): seq<Item<B>>
    requires k < |m.rows|
  {
    RowItems(m, rss, k, |m.rows[k]|)
  }

  /** The selected entries of the first `k` source rows, row by row, each row in its own order. */
  function Items<B>(m: SparseMatrix<B>, rss: Subset, css: Subset, k: nat): seq<Item<B>>
    requires k <= |m.rows|
  {
    if k == 0 then []
    else Items(m, rss, css, k - 1) + (if Included(css, k - 1) then RowKept(m, rss, k - 1) else [])
  }

  /** The selected entries of the whole matrix, in source order. */
  function Kept<B>(m: SparseMatrix<B>, rss: Subset, css: Subset): seq<Item<B>>
  {
    Items(m, rss, css, |m.rows|)
  }

  /** `nzepr` after the first `k` source rows: one count per retained row. */
  function BlocksPerRow<B>(m: SparseMatrix<B>, rss: Subset, css: Subset, k: nat): (counts: seq<nat>)
    requires k <= |m.rows|
    ensures |counts| == CountIncluded(css, k)
  {
    if k == 0 then []
    else BlocksPerRow(m, rss, css, k - 1) + (if Included(css, k - 1) then [|RowKept(m, rss, k - 1)|] else [])
  }

  /** `s[i]`, or -1 past the end of `s` (a compaction map answers -1 for what it drops). */
  function At(s: seq<int>, i: nat): int
  {
    if i < |s| then s[i] else -1
  }

  /** The column index array: `row_compress` of the column of each item. */
  function Columns<B>(rmap: seq<int>, items: seq<Item<B>>): (cols: seq<int>)
    ensures |cols| == |items|
  {
    if items == [] then []
    else Columns(rmap, items[..|items| - 1]) + [At(rmap, items[|items| - 1].col)]
  }

  /** The insertion made for an item: its compacted row and column and its own block. */
  function InsertionOf<B>(cmap: seq<int>, rmap: seq<int>, it: Item<B>): Insertion<B>
  {
    Insertion(At(cmap, it.row), At(rmap, it.col), it.block)
  }

  /** The insertions made for a sequence of items, in order. */
  function Inserts<B>(cmap: seq<int>, rmap: seq<int>, items: seq<Item<B>>): (ins: seq<Insertion<B>>)
    ensures |ins| == |items|
  {
    if items == [] then []
    else Inserts(cmap, rmap, items[..|items| - 1]) + [InsertionOf(cmap, rmap, items[|items| - 1])]
  }

  function Sum(s: seq<int>): int
  {
    if s == [] then 0 else Sum(s[..|s| - 1]) + s[|s| - 1]
  }

  /** The block row of each slot of a CSR pattern with per-row counts `counts`. */
  function ExpandRows(counts: seq<nat>): seq<int>
  {
    if counts == [] then []
    else ExpandRows(counts[..|counts| - 1]) + seq(counts[|counts| - 1], _ => |counts| - 1)
  }

  /** The library matrix: block size, scalar dimensions, preallocation and the insertions it received. */
  datatype SeqBAIJ<B> = SeqBAIJ(bs: nat, blockRows: nat, blockCols: nat, nzepr: seq<int>, cols: seq<int>,
                                inserts: seq<Insertion<B>>)
  {
    /** The scalar row count handed to `MatCreateSeqBAIJ`. */
    function NRows(): nat { blockRows * bs }

    /** The scalar column count handed to `MatCreateSeqBAIJ`. */
    function NCols(): nat { blockCols * bs }
  }

  /** What `CreatePETScMatSeqBAIJ` builds from `spmat`, `rss` and `css`. */
  function BuiltBAIJ<B>(m: SparseMatrix<B>, rss: Subset, css: Subset): SeqBAIJ<B>
  {
    var rmap := CompactionMap(rss, m.width);
    var cmap := CompactionMap(css, |m.rows|);
    var kept := Kept(m, rss, css);
    SeqBAIJ(m.bh, CountIncluded(css, |m.rows|), CountIncluded(rss, m.width),
            BlocksPerRow(m, rss, css, |m.rows|), Columns(rmap, kept), Inserts(cmap, rmap, kept))
  }

  // ---------------------------------------------------------------------------
  // Steps of the recursive definitions, as the loops take them.

  // The step lemmas name both ends of the step (`next == k + 1`), so that their
  // conclusions match the terms of a loop (`k`, `k + 1`) and of an induction (`k - 1`, `k`) alike.

  lemma {:induction false} RowItemsStep<B>(m: SparseMatrix<B>, rss: Subset, k: nat, j: nat, next: nat)
    requires k < |m.rows| && j < |m.rows[k]| && next == j + 1
    ensures Included(rss, m.rows[k][j].col) ==> RowItems(m, rss, k, next) == RowItems(m, rss, k, j) + [ItemAt(m, k, j)]
    ensures !Included(rss, m.rows[k][j].col) ==> RowItems(m, rss, k, next) == RowItems(m, rss, k, j)
  {
    if !Included(rss, m.rows[k][j].col) {
      assert RowItems(m, rss, k, j) + [] == RowItems(m, rss, k, j);
    }
  }

  lemma {:induction false} ItemsStep<B>(m: SparseMatrix<B>, rss: Subset, css: Subset, k: nat, next: nat)
    requires k < |m.rows| && next == k + 1
    ensures Included(css, k) ==> Items(m, rss, css, next) == Items(m, rss, css, k) + RowKept(m, rss, k)
    ensures !Included(css, k) ==> Items(m, rss, css, next) == Items(m, rss, css, k)
  {
    if !Included(css, k) {
      assert Items(m, rss, css, k) + [] == Items(m, rss, css, k);
    }
  }

  lemma {:induction false} BlocksPerRowStep<B>(m: SparseMatrix<B>, rss: Subset, css: Subset, k: nat, next: nat)
    requires k < |m.rows| && next == k + 1
    ensures Included(css, k) ==>
              BlocksPerRow(m, rss, css, next) == BlocksPerRow(m, rss, css, k) + [|RowKept(m, rss, k)|]
    ensures !Included(css, k) ==> BlocksPerRow(m, rss, css, next) == BlocksPerRow(m, rss, css, k)
  {
    if !Included(css, k) {
      assert BlocksPerRow(m, rss, css, k) + [] == BlocksPerRow(m, rss, css, k);
    }
  }

  /** `Columns` of a concatenation is the concatenation of the `Columns`. */
  lemma {:induction false} ColumnsConcat<B>(rmap: seq<int>, a: seq<Item<B>>, b: seq<Item<B>>)
    ensures Columns(rmap, a + b) == Columns(rmap, a) + Columns(rmap, b)
  {
    var ab := a + b;
    var l, r := Columns(rmap, ab), Columns(rmap, a) + Columns(rmap, b);
    ColumnsAt(rmap, ab);
    ColumnsAt(rmap, a);
    ColumnsAt(rmap, b);
    forall t | 0 <= t < |l|
      ensures l[t] == r[t]
    {
      if t < |a| {
        assert ab[t] == a[t];
      } else {
        assert ab[t] == b[t - |a|];
      }
    }
  }

  /** `Inserts` of a concatenation is the concatenation of the `Inserts`. */
  lemma {:induction false} InsertsConcat<B>(cmap: seq<int>, rmap: seq<int>, a: seq<Item<B>>, b: seq<Item<B>>)
    ensures Inserts(cmap, rmap, a + b) == Inserts(cmap, rmap, a) + Inserts(cmap, rmap, b)
  {
    var ab := a + b;
    var l, r := Inserts(cmap, rmap, ab), Inserts(cmap, rmap, a) + Inserts(cmap, rmap, b);
    InsertsAt(cmap, rmap, ab);
    InsertsAt(cmap, rmap, a);
    InsertsAt(cmap, rmap, b);
    forall t | 0 <= t < |l|
      ensures l[t] == r[t]
    {
      if t < |a| {
        assert ab[t] == a[t];
      } else {
        assert ab[t] == b[t - |a|];
      }
    }
  }

  lemma {:induction false} ColumnsAt<B>(rmap: seq<int>, items: seq<Item<B>>)
    ensures forall t :: 0 <= t < |items| ==> Columns(rmap, items)[t] == At(rmap, items[t].col)
  {
    if items != [] {
      ColumnsAt(rmap, items[..|items| - 1]);
    }
  }

  lemma {:induction false} InsertsAt<B>(cmap: seq<int>, rmap: seq<int>, items: seq<Item<B>>)
    ensures forall t :: 0 <= t < |items| ==> Inserts(cmap, rmap, items)[t] == InsertionOf(cmap, rmap, items[t])
  {
    if items != [] {
      InsertsAt(cmap, rmap, items[..|items| - 1]);
    }
  }

  // ---------------------------------------------------------------------------
  // Every selected entry is kept exactly once, in source order.

  /** Row `k`'s items are entries of row `k` whose column passes `rss`, taken from its first `j`. */
  lemma {:induction false} RowItemsSelected<B>(m: SparseMatrix<B>, rss: Subset, k: nat, j: nat)
    requires k < |m.rows| && j <= |m.rows[k]|
    ensures forall t :: 0 <= t < |RowItems(m, rss, k, j)| ==>
              var it := RowItems(m, rss, k, j)[t];
              it.row == k && it.idx < j && it == ItemAt(m, k, it.idx) && Included(rss, it.col)
  {
    if j > 0 {
      RowItemsSelected(m, rss, k, j - 1);
    }
  }

  /** The first `k` rows' items are selected entries of those rows. */
  lemma {:induction false} ItemsSelected<B>(m: SparseMatrix<B>, rss: Subset, css: Subset, k: nat)
    requires k <= |m.rows|
    ensures forall t :: 0 <= t < |Items(m, rss, css, k)| ==>
              Items(m, rss, css, k)[t].row < k && Selected(m, rss, css, Items(m, rss, css, k)[t])
  {
    if k > 0 {
      ItemsSelected(m, rss, css, k - 1);
      if Included(css, k - 1) {
        RowItemsSelected(m, rss, k - 1, |m.rows[k - 1]|);
        var a, b := Items(m, rss, css, k - 1), RowKept(m, rss, k - 1);
        var ab: seq<Item<B>> := a + b;
        assert Items(m, rss, css, k) == ab;
        forall t | 0 <= t < |ab|
          ensures ab[t].row < k && Selected(m, rss, css, ab[t])
        {
          if t >= |a| {
            assert ab[t] == b[t - |a|];
          } else {
            assert ab[t] == a[t];
          }
        }
      }
    }
  }

  predicate Before<B>(p: Item<B>, q: Item<B>)
  {
    p.row < q.row || (p.row == q.row && p.idx < q.idx)
  }

  predicate Ordered<B>(items: seq<Item<B>>)
  {
    forall s, t :: 0 <= s < t < |items| ==> Before(items[s], items[t])
  }

  lemma {:induction false} RowItemsComplete<B>(m: SparseMatrix<B>, rss: Subset, k: nat, j: nat, i: nat)
    requires k < |m.rows| && i < j <= |m.rows[k]| && Included(rss, m.rows[k][i].col)
    ensures ItemAt(m, k, i) in RowItems(m, rss, k, j)
  {
    if i < j - 1 {
      RowItemsComplete(m, rss, k, j - 1, i);
    }
  }

  lemma {:induction false} ItemsComplete<B>(m: SparseMatrix<B>, rss: Subset, css: Subset, k: nat, it: Item<B>)
    requires k <= |m.rows| && it.row < k && Selected(m, rss, css, it)
    ensures it in Items(m, rss, css, k)
  {
    var a := Items(m, rss, css, k - 1);
    var b := if Included(css, k - 1) then RowKept(m, rss, k - 1) else [];
    assert Items(m, rss, css, k) == a + b;
    if it.row < k - 1 {
      ItemsComplete(m, rss, css, k - 1, it);
      assert it in a;
    } else {
      RowItemsComplete(m, rss, it.row, |m.rows[it.row]|, it.idx);
      assert it in b;
    }
  }

  lemma {:induction false} RowItemsOrdered<B>(m: SparseMatrix<B>, rss: Subset, k: nat, j: nat)
    requires k < |m.rows| && j <= |m.rows[k]|
    ensures Ordered(RowItems(m, rss, k, j))
  {
    if j > 0 {
      RowItemsOrdered(m, rss, k, j - 1);
      RowItemsSelected(m, rss, k, j - 1);
    }
  }

  lemma {:induction false} ItemsOrdered<B>(m: SparseMatrix<B>, rss: Subset, css: Subset, k: nat)
    requires k <= |m.rows|
    ensures Ordered(Items(m, rss, css, k))
  {
    if k > 0 {
      ItemsOrdered(m, rss, css, k - 1);
      ItemsOrderedStep(m, rss, css, k - 1, k);
    }
  }

  /** One row's worth of `ItemsOrdered`. */
  lemma {:induction false} ItemsOrderedStep<B>(m: SparseMatrix<B>, rss: Subset, css: Subset, prev: nat, k: nat)
    requires k == prev + 1 <= |m.rows| && Ordered(Items(m, rss, css, prev))
    ensures Ordered(Items(m, rss, css, k))
  {
    ItemsStep(m, rss, css, prev, k);
    if Included(css, prev) {
      RowItemsOrdered(m, rss, prev, |m.rows[prev]|);
      ItemsSelected(m, rss, css, prev);
      RowItemsSelected(m, rss, prev, |m.rows[prev]|);
      OrderedAppend(Items(m, rss, css, prev), RowKept(m, rss, prev), prev);
    }
  }

  /** Appending, in order, items of row `r` to ordered items of earlier rows keeps the order. */
  lemma {:induction false} OrderedAppend<B>(a: seq<Item<B>>, b: seq<Item<B>>, r: nat)
    requires Ordered(a) && Ordered(b)
    requires forall s :: 0 <= s < |a| ==> a[s].row < r
    requires forall t :: 0 <= t < |b| ==> b[t].row == r
    ensures Ordered(a + b)
  {
    var ab: seq<Item<B>> := a + b;
    forall s, t | 0 <= s < t < |ab|
      ensures Before(ab[s], ab[t])
    {
      if t < |a| {
        assert ab[s] == a[s] && ab[t] == a[t];
      } else if s >= |a| {
        assert ab[s] == b[s - |a|] && ab[t] == b[t - |a|];
      } else {
        assert ab[s] == a[s] && ab[t] == b[t - |a|];
      }
    }
  }

  /**
   * The kept items are exactly the selected entries (a stored block whose
   * source row passes `css` and whose column passes `rss`), in strictly
   * increasing (row, index) order: each one is taken exactly once, in source
   * row order and then source column order.
   */
  lemma {:induction false} KeptExactlyOnce<B>(m: SparseMatrix<B>, rss: Subset, css: Subset)
    ensures forall it :: it in Kept(m, rss, css) <==> Selected(m, rss, css, it)
    ensures Ordered(Kept(m, rss, css))
  {
    forall it | Selected(m, rss, css, it)
      ensures it in Kept(m, rss, css)
    {
      ItemsComplete(m, rss, css, |m.rows|, it);
    }
    ItemsSelected(m, rss, css, |m.rows|);
    ItemsOrdered(m, rss, css, |m.rows|);
  }

  // ---------------------------------------------------------------------------
  // The preallocation and the column array describe exactly the insertions.

  lemma {:induction false} SumBlocksPerRow<B>(m: SparseMatrix<B>, rss: Subset, css: Subset, k: nat)
    requires k <= |m.rows|
    ensures Sum(BlocksPerRow(m, rss, css, k)) == |Items(m, rss, css, k)|
  {
    if k > 0 {
      SumBlocksPerRow(m, rss, css, k - 1);
      SumBlocksPerRowStep(m, rss, css, k);
    }
  }

  /** One row's worth of `SumBlocksPerRow`: both sides grow by the row's retained count. */
  lemma {:induction false} SumBlocksPerRowStep<B>(m: SparseMatrix<B>, rss: Subset, css: Subset, k: nat)
    requires 0 < k <= |m.rows|
    ensures Sum(BlocksPerRow(m, rss, css, k)) ==
            Sum(BlocksPerRow(m, rss, css, k - 1)) + (if Included(css, k - 1) then |RowKept(m, rss, k - 1)| else 0)
    ensures |Items(m, rss, css, k)| ==
            |Items(m, rss, css, k - 1)| + (if Included(css, k - 1) then |RowKept(m, rss, k - 1)| else 0)
  {
    if Included(css, k - 1) {
      SumAppend(BlocksPerRow(m, rss, css, k - 1), |RowKept(m, rss, k - 1)|);
    } else {
      assert BlocksPerRow(m, rss, css, k) == BlocksPerRow(m, rss, css, k - 1);
    }
  }

  lemma {:induction false} SumAppend(s: seq<int>, x: int)
    ensures Sum(s + [x]) == Sum(s) + x
  {
    assert (s + [x])[..|s|] == s;
  }

  lemma {:induction false} BlocksPerRowAt<B>(m: SparseMatrix<B>, rss: Subset, css: Subset, n: nat, k: nat)
    requires k < n <= |m.rows| && Included(css, k)
    ensures CountIncluded(css, k) < |BlocksPerRow(m, rss, css, n)|
    ensures BlocksPerRow(m, rss, css, n)[CountIncluded(css, k)] == |RowKept(m, rss, k)|
  {
    if k < n - 1 {
      BlocksPerRowAt(m, rss, css, n - 1, k);
    }
  }

  lemma {:induction false} ExpandRowsAppend(counts: seq<nat>, c: nat)
    ensures ExpandRows(counts + [c]) == ExpandRows(counts) + seq(c, _ => |counts|)
  {
    assert (counts + [c])[..|counts|] == counts;
  }

  /** Slot `t` of `slots` is the block row of `items[t]`, for every slot. */
  ghost predicate SlotRows<B>(css: Subset, slots: seq<int>, items: seq<Item<B>>)
  {
    && |slots| == |items|
    && forall t :: 0 <= t < |items| ==> slots[t] == CountIncluded(css, items[t].row)
  }

  /** Each slot of the CSR pattern lies in the block row of the source row whose entry fills it. */
  lemma {:induction false} ItemRows<B>(m: SparseMatrix<B>, rss: Subset, css: Subset, k: nat)
    requires k <= |m.rows|
    ensures SlotRows(css, ExpandRows(BlocksPerRow(m, rss, css, k)), Items(m, rss, css, k))
  {
    if k > 0 {
      ItemRows(m, rss, css, k - 1);
      ItemRowsStep(m, rss, css, k - 1, k);
    }
  }

  /** One row's worth of `ItemRows`. */
  lemma {:induction false} ItemRowsStep<B>(m: SparseMatrix<B>, rss: Subset, css: Subset, prev: nat, k: nat)
    requires k == prev + 1 <= |m.rows|
    requires SlotRows(css, ExpandRows(BlocksPerRow(m, rss, css, prev)), Items(m, rss, css, prev))
    ensures SlotRows(css, ExpandRows(BlocksPerRow(m, rss, css, k)), Items(m, rss, css, k))
  {
    BlocksPerRowStep(m, rss, css, prev, k);
    ItemsStep(m, rss, css, prev, k);
    if Included(css, prev) {
      var b := RowKept(m, rss, prev);
      RowItemsSelected(m, rss, prev, |m.rows[prev]|);
      ExpandRowsAppend(BlocksPerRow(m, rss, css, prev), |b|);
      RowsOfAppend(css, ExpandRows(BlocksPerRow(m, rss, css, prev)), Items(m, rss, css, prev), b, prev);
    }
  }

  /** Appending a row's items and that row's slots keeps each slot in the block row of its item. */
  lemma {:induction false} RowsOfAppend<B>(css: Subset, e: seq<int>, a: seq<Item<B>>, b: seq<Item<B>>, r: nat)
    requires SlotRows(css, e, a)
    requires forall t :: 0 <= t < |b| ==> b[t].row == r
    ensures SlotRows(css, e + seq(|b|, _ => CountIncluded(css, r)), a + b)
  {
    var tail: seq<int> := seq(|b|, _ => CountIncluded(css, r));
    var ab: seq<Item<B>> := a + b;
    forall t | 0 <= t < |ab|
      ensures (e + tail)[t] == CountIncluded(css, ab[t].row)
    {
      if t < |a| {
        assert (e + tail)[t] == e[t] && ab[t] == a[t];
      } else {
        assert (e + tail)[t] == tail[t - |a|] && ab[t] == b[t - |a|];
      }
    }
  }

  /**
   * The matrix `CreatePETScMatSeqBAIJ` builds has `nrows = nbcol*bh` and
   * `ncols = nbrow*bw`; `nzepr` has one entry per retained source row, namely
   * the number of that row's columns that pass `rss`; `cols` has
   * `sum(nzepr)` entries, each a compacted column in `[0, nbrow)`, never -1.
   */
  lemma {:induction false} BuiltPattern<B>(m: SparseMatrix<B>, rss: Subset, css: Subset)
    requires m.Valid() && m.bw == m.bh
    ensures var b := BuiltBAIJ(m, rss, css);
      && b.NRows() == CountIncluded(css, |m.rows|) * m.bh
      && b.NCols() == CountIncluded(rss, m.width) * m.bw
      && |b.nzepr| == CountIncluded(css, |m.rows|)
      && (forall k :: 0 <= k < |m.rows| && Included(css, k) ==>
            && 0 <= CompactionMap(css, |m.rows|)[k] < |b.nzepr|
            && b.nzepr[CompactionMap(css, |m.rows|)[k]] == |RowKept(m, rss, k)|)
      && |b.cols| == Sum(b.nzepr)
      && (forall t :: 0 <= t < |b.cols| ==> 0 <= b.cols[t] < CountIncluded(rss, m.width))
  {
    var b := BuiltBAIJ(m, rss, css);
    CompactionMapAt(css, |m.rows|);
    forall k | 0 <= k < |m.rows| && Included(css, k)
      ensures CountIncluded(css, k) < |b.nzepr| && b.nzepr[CountIncluded(css, k)] == |RowKept(m, rss, k)|
    {
      BlocksPerRowAt(m, rss, css, |m.rows|, k);
    }
    SumBlocksPerRow(m, rss, css, |m.rows|);
    KeptColumnsInRange(m, rss, css);
  }

  /** Every kept column compacts to a column of the library matrix. */
  lemma {:induction false} KeptColumnsInRange<B>(m: SparseMatrix<B>, rss: Subset, css: Subset)
    requires m.Valid()
    ensures forall t :: 0 <= t < |Kept(m, rss, css)| ==>
              0 <= Columns(CompactionMap(rss, m.width), Kept(m, rss, css))[t] < CountIncluded(rss, m.width)
  {
    var kept := Kept(m, rss, css);
    var rmap := CompactionMap(rss, m.width);
    CompactionMapAt(rss, m.width);
    ColumnsAt(rmap, kept);
    ItemsSelected(m, rss, css, |m.rows|);
    forall t | 0 <= t < |kept|
      ensures 0 <= At(rmap, kept[t].col) < CountIncluded(rss, m.width)
    {
      var it := kept[t];
      assert Selected(m, rss, css, it);
      assert it.col == m.rows[it.row][it.idx].col < m.width;
      CountIncludedStrict(rss, it.col, m.width);
    }
  }

  /**
   * Insertion `t` is the `t`-th kept entry's own block, put at
   * `(col_compress[row], row_compress[col])`; it lands in the block row that
   * slot `t` of the preallocated pattern belongs to and in column `cols[t]`, so
   * the insertions fill the announced pattern exactly, slot by slot.
   */
  lemma {:induction false} BuiltInsertions<B>(m: SparseMatrix<B>, rss: Subset, css: Subset)
    ensures var b := BuiltBAIJ(m, rss, css);
      var kept := Kept(m, rss, css);
      && |b.inserts| == |kept| == |b.cols| == |ExpandRows(b.nzepr)|
      && (forall t :: 0 <= t < |b.inserts| ==>
            && b.inserts[t].block == kept[t].block
            && kept[t].row < |m.rows|
            && b.inserts[t].row == CompactionMap(css, |m.rows|)[kept[t].row] == ExpandRows(b.nzepr)[t]
            && b.inserts[t].col == At(CompactionMap(rss, m.width), kept[t].col) == b.cols[t])
  {
    var kept := Kept(m, rss, css);
    ItemRows(m, rss, css, |m.rows|);
    ItemsSelected(m, rss, css, |m.rows|);
    CompactionMapAt(css, |m.rows|);
    ColumnsAt(CompactionMap(rss, m.width), kept);
    InsertsAt(CompactionMap(css, |m.rows|), CompactionMap(rss, m.width), kept);
  }
}
