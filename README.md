# ngs-petsc index maps, in Dafny

This project models the index-mapping and data-movement core of the NGSolve–PETSc
interface, `src/petsc_linalg.cpp`. That core turns a finite element block-sparse
matrix and its vectors into the index spaces PETSc expects. It has five parts:

- **Dof compaction** (`row_compress`, `col_compress`). Every dof that an optional
  bit array selects gets the next dense number. Every other dof gets `-1`.
- **The sequential block matrix** (`CreatePETScMatSeqBAIJ`). It produces:
  - the per-row block counts `nzepr`;
  - the flat column-index array `cols`;
  - the sequence of blocked insertions `(row, col, block)` handed to
    `MatSetValuesBlocked`.

  `SetPETScMatSeq` and `UpdateValues` refresh the values of such a matrix, after a
  block-size check. `CreatePETScMatSeq` dispatches on the block size.
- **The parallel (IS) matrix layout** (`CreatePETScMatIS`):
  - the local-to-global mappings that `create_map` builds from the global
    enumeration;
  - the owned counts from `count_ssm`;
  - the global sizes.
- **The vector map** (`NGs2PETScVecMap`). It counts the rows this rank holds.
  `NGs2PETSc` gathers the `bs`-entry slices of the owned-and-selected dofs into
  the solver-side array. `PETSc2NGs` scatters them back and zeroes every other
  dof. It also gives the layouts of the two vectors it creates.

The source's naming is followed throughout. The source matrix's columns (its width)
form the "row" space: they are filtered by `rss` and numbered by `row_compress`.
Its rows (its height) form the "col" space: they are filtered by `css` and numbered
by `col_compress`. Block values are copied but never computed on, so blocks have a
generic type `B`. Vector entries are `real`. A subset is `Option<seq<bool>>`, where
`None` stands for the null pointer and means "all dofs". Parallel dof information is
the entry size plus one master flag per local dof.

Files, each holding one module:

| file | module | contents |
|---|---|---|
| `wrappers.dfy` | `Wrappers` | `Option`, `Result` |
| `dofs.dfy` | `Dofs` | subsets, parallel dof information, the included and owned counts |
| `compaction.dfy` | `Compaction` | the compaction map and the loop that builds it |
| `buffers.dfy` | `Buffers` | one array write, the step every filling loop takes |
| `block_pattern.dfy` | `BlockPattern` | the sparse matrix, the specification of the block pattern and its properties |
| `seq_baij.dfy` | `SeqBaij` | the loops of `CreatePETScMatSeqBAIJ`, `SetPETScMatSeq`, `UpdateValues`, `CreatePETScMatSeq` |
| `mat_is.dfy` | `MatIS` | `create_map`, `count_ssm` and the layout of `CreatePETScMatIS` |
| `vec_spec.dfy` | `VecSpec` | gather, scatter and their round trips, as functions of whole vectors |
| `vec_map.dfy` | `VecMap` | the class `NGs2PETScVecMap` |

## Model

| member | source | states |
|---|---|---|
| Dofs.CountIncluded | src/petsc_linalg.cpp:63-66 | the counter `nbrow`/`nbcol` after the first `n` dofs never exceeds `n` |
| Dofs.CountAllIncluded | src/petsc_linalg.cpp:22-24 | without a subset every dof is counted |
| Dofs.CountIncludedStrict | src/petsc_linalg.cpp:64-66 | an included dof raises the count of every later prefix, which makes dense numbers distinct |
| Dofs.Retained | src/petsc_linalg.cpp:197-199 | the included dofs in increasing order: as many as the count, each below `n` and included |
| Dofs.RetainedIndexOf | src/petsc_linalg.cpp:197-199 | the included dof `k` sits at position "number of included dofs before `k`" |
| Dofs.RetainedIncreasing | src/petsc_linalg.cpp:197-199 | the retained dofs are strictly increasing |
| Dofs.RetainedCount | src/petsc_linalg.cpp:197-199 | the `i`-th retained dof has exactly `i` included dofs before it |
| Dofs.CountOwned | src/petsc_linalg.cpp:250-253 | owned-and-selected dofs never outnumber the selected ones |
| Dofs.CountOwnedSequential | src/petsc_linalg.cpp:250-253 | without parallel information the owned count is the subset count |
| Compaction.Compact | src/petsc_linalg.cpp:64-66 | the compaction loop returns the compaction map and the number of included dofs |
| Compaction.CompactionMapAt | src/petsc_linalg.cpp:72-74 | entry `k` is `-1` for an excluded dof and the count of included dofs before `k` otherwise |
| Compaction.CompactionRange | src/petsc_linalg.cpp:22-24 | one entry per dof; `-1` exactly for the excluded dofs; every other entry lies in `[0, count)` |
| Compaction.CompactionIncreasing | src/petsc_linalg.cpp:30-32 | the dense numbers increase with the dof number |
| Compaction.CompactionOnto | src/petsc_linalg.cpp:64-66 | every number in `[0, count)` is taken, by the retained dof of that rank |
| Compaction.CompactionInverse | src/petsc_linalg.cpp:72-74 | the dense number of an included dof leads back to that dof |
| Compaction.CompactionWithoutSubset | src/petsc_linalg.cpp:22-24 | without a subset the map is the identity and the count is `n` |
| BlockPattern.RowItems | src/petsc_linalg.cpp:83-85 | the kept entries among the first `j` of a row are at most `j` |
| BlockPattern.BlocksPerRow | src/petsc_linalg.cpp:78-87 | one count per kept row |
| BlockPattern.RowItemsSelected | src/petsc_linalg.cpp:83-85 | every kept entry of a row is one of the row's entries whose column passes `rss` |
| BlockPattern.ItemsSelected | src/petsc_linalg.cpp:96-101 | every kept entry comes from an earlier row and passes both subsets |
| BlockPattern.ItemsComplete | src/petsc_linalg.cpp:96-101 | every entry that passes both subsets is kept |
| BlockPattern.ItemsOrdered | src/petsc_linalg.cpp:96-101 | kept entries come in source row order, then in order within the row |
| BlockPattern.KeptExactlyOnce | src/petsc_linalg.cpp:107-120 | an entry is kept if and only if it passes both subsets, and the kept entries are in source order with no repeats |
| BlockPattern.SumBlocksPerRow | src/petsc_linalg.cpp:91-94 | the block counts add up to the number of kept entries: `cols` is `sum(nzepr)` long |
| BlockPattern.BlocksPerRowAt | src/petsc_linalg.cpp:80-86 | the count at a kept row's dense number is that row's number of kept entries |
| BlockPattern.ItemRows | src/petsc_linalg.cpp:107-116 | the `t`-th kept entry belongs to the `t`-th slot of the row layout that `nzepr` describes |
| BlockPattern.ColumnsConcat | src/petsc_linalg.cpp:96-102 | column lists of consecutive runs of entries concatenate |
| BlockPattern.InsertsConcat | src/petsc_linalg.cpp:107-120 | insertion lists of consecutive runs of entries concatenate |
| BlockPattern.BuiltPattern | src/petsc_linalg.cpp:67-102 | the scalar sizes are the kept block counts times the block size; `nzepr` has one count per kept row with each row's kept entries; `cols` is `sum(nzepr)` long and every entry lies in `[0, nbrow)` |
| BlockPattern.KeptColumnsInRange | src/petsc_linalg.cpp:98-100 | every `row_compress[j]` written to `cols` lies in `[0, nbrow)` and is never `-1` |
| BlockPattern.BuiltInsertions | src/petsc_linalg.cpp:107-120 | the `t`-th insertion carries the `t`-th kept block at `(col_compress[k], row_compress[col])`; its column is `cols[t]` and its row is the `t`-th slot of the `nzepr` layout |
| SeqBaij.NzeprGuardAsWritten | src/petsc_linalg.cpp:81 | the guard as written faults when there is no column subset and is the subset test otherwise |
| SeqBaij.NzeprGuardFaultsWithoutSubset | src/petsc_linalg.cpp:81 | without a column subset the guard faults on a row the other loops include |
| SeqBaij.CountBlocksPerRow | src/petsc_linalg.cpp:78-87 | the `nzepr` loop fills one count per kept row: that row's number of entries whose column passes `rss` |
| SeqBaij.CountRow | src/petsc_linalg.cpp:83-85 | the inner counter ends at the row's number of kept entries |
| SeqBaij.SumBlocks | src/petsc_linalg.cpp:91-93 | `n_b_entries` ends at the sum of the counts |
| SeqBaij.FillColumnIndices | src/petsc_linalg.cpp:94-102 | `cols` lists `row_compress[j]` for every kept entry, in source order |
| SeqBaij.FillRowColumns | src/petsc_linalg.cpp:98-100 | one row's pass appends that row's kept columns |
| SeqBaij.InsertBlocks | src/petsc_linalg.cpp:107-120 | the insertions are exactly the kept entries, in source order, at `(col_compress[k], row_compress[col])` with their own blocks |
| SeqBaij.InsertRow | src/petsc_linalg.cpp:110-118 | one row's pass appends that row's kept insertions |
| SeqBaij.CreatePETScMatSeqBAIJ | src/petsc_linalg.cpp:56-128 | the loops build exactly the specified sizes, `nzepr`, `cols` and insertions |
| SeqBaij.AllocatePattern | src/petsc_linalg.cpp:77-103 | `nzepr` and `cols` as specified, and the entry count is the length of `cols` |
| SeqBaij.SetPETScMatSeq | src/petsc_linalg.cpp:11-53 | a block-size mismatch fails with that error and inserts nothing; otherwise the insertions are those of the block pattern |
| SeqBaij.UpdateValues | src/petsc_linalg.cpp:361-383 | for a sequential matrix: an unsupported block type fails; a block-size mismatch fails; otherwise the kept insertions are added; a matrix built from the same source always updates |
| SeqBaij.SeqBlockSizeAsWritten | src/petsc_linalg.cpp:131-165 | as written, a matrix is accepted only with square blocks of size at most 6 |
| SeqBaij.SeqBlockSizeAsWrittenRefusesSevenAndEight | src/petsc_linalg.cpp:155-162 | with 8 as the largest system dimension, 7×7 and 8×8 block matrices are refused |
| SeqBaij.SeqBlockSize | src/petsc_linalg.cpp:131-165 | a block size is accepted if and only if the blocks are square of size 1, or up to 8 and within the largest system dimension |
| SeqBaij.CreatePETScMatSeq | src/petsc_linalg.cpp:131-165 | an accepted block size yields the built matrix; any other fails with the unsupported-matrix error |
| MatIS.SubsetGlobnums | src/petsc_linalg.cpp:195-199 | one global number per dof the subset selects |
| MatIS.SubsetGlobnumsAt | src/petsc_linalg.cpp:197-199 | entry `i` is the global number of the `i`-th selected dof |
| MatIS.MapAtCompactedIndex | src/petsc_linalg.cpp:197-199 | a selected dof's global number sits at its dense (compacted) number |
| MatIS.MapHasNoSentinel | src/petsc_linalg.cpp:198-199 | when the enumeration marks exactly the unselected dofs with `-1`, the map holds no `-1` |
| MatIS.BufferLargeEnough | src/petsc_linalg.cpp:195 | the buffer size (`NumSet`, or the local dof count) leaves room for every kept number |
| MatIS.CreateMap | src/petsc_linalg.cpp:189-204 | `create_map`, which keeps every global number other than `-1`, returns the block size, the number of the subset's dofs and their global numbers in local order |
| MatIS.MapSingleRank | src/petsc_linalg.cpp:189-204 | on one rank the map is the identity `0, 1, ...` over all the global dofs |
| MatIS.CountSubsetMasters | src/petsc_linalg.cpp:212-218 | `count_ssm` is the number of master dofs the subset selects |
| MatIS.CountOwnedAllMaster | src/petsc_linalg.cpp:212-218 | when this rank is master of every dof, `count_ssm` is the subset count |
| MatIS.ISLayoutAsWritten | src/petsc_linalg.cpp:220-229 | as written, the owned row and column counts are always equal, whatever the column space is |
| MatIS.ISLayoutAsWrittenMismatch | src/petsc_linalg.cpp:222-228 | a single rank, one dof, no row subset, a column subset that excludes it: 1 owned row against 0 global rows |
| MatIS.ISLayout | src/petsc_linalg.cpp:206-234 | the block size is the row space's; the column mapping is the row space's map; a row mapping exists if and only if the spaces differ |
| MatIS.ISLayoutAgreesOnSameSpaces | src/petsc_linalg.cpp:220-229 | when the row and column spaces are the same (the Python binding's case), the corrected layout equals the layout as written |
| MatIS.ISLayoutSingleRank | src/petsc_linalg.cpp:206-234 | on one rank the owned rows and columns equal the global ones, and each mapping covers them with the identity numbering |
| MatIS.CreatePETScMatIS | src/petsc_linalg.cpp:180-240 | the mappings, owned counts and global sizes form the specified layout |
| VecSpec.OwnedMaskAt | src/petsc_linalg.cpp:271 | bit `k` of the mask is the source's master-and-selected test of dof `k` |
| VecSpec.HeldIsCountOwned | src/petsc_linalg.cpp:250-253 | the held dofs are counted by the owned-and-selected count |
| VecSpec.OffsetIsProduct | src/petsc_linalg.cpp:273 | dof `k`'s slice starts at `bs*k` |
| VecSpec.Gather | src/petsc_linalg.cpp:270-273 | the gathered entries number `bs` times the held dofs |
| VecSpec.Scatter | src/petsc_linalg.cpp:284-290 | the scattered vector has `bs` entries for every dof |
| VecSpec.ScatterGather | src/petsc_linalg.cpp:264-292 | gather then scatter restores every held slice and zeroes every other slice |
| VecSpec.GatherScatter | src/petsc_linalg.cpp:264-292 | scatter then gather gives back all `nrows_loc` solver-side entries unchanged |
| VecSpec.MaskedKeepsAll | src/petsc_linalg.cpp:247-248 | when every dof is held, masking is the identity |
| VecSpec.ScatterAt | src/petsc_linalg.cpp:284-290 | entry `l` of dof `k` after the scatter is solver-side entry `bs*cnt + l` for a held dof (`cnt` held dofs before it) and exactly `0` otherwise |
| VecMap.NGs2PETScVecMap.constructor | src/petsc_linalg.cpp:244-261 | `nrows_loc` is `bs` times the owned-and-selected dofs, by the shortcut `bs*ndof` or by the loop; `nrows_glob` is `nrows_loc` without parallel information and the reduced sum otherwise |
| VecMap.NGs2PETScVecMap.RowsCounted | src/petsc_linalg.cpp:247-253 | a valid map's `nrows_loc` is `bs` times the owned-and-selected dofs |
| VecMap.NGs2PETScVecMap.IsHeld | src/petsc_linalg.cpp:271 | the loop test is the dof's bit of the holding mask |
| VecMap.NGs2PETScVecMap.NGs2PETSc | src/petsc_linalg.cpp:264-275 | the solver-side array ends holding exactly the gathered slices of the held dofs, in dof order, filling all `nrows_loc` entries |
| VecMap.NGs2PETScVecMap.PETSc2NGs | src/petsc_linalg.cpp:278-292 | the finite element vector ends as the scatter of the solver-side entries: held slices copied, all other slices zero |
| VecMap.CopyBlock | src/petsc_linalg.cpp:272-273 | the copied slice is appended after the part already written, and the entries after it keep their values |
| VecMap.ZeroBlock | src/petsc_linalg.cpp:289-290 | the slice after the part already written becomes zeros, and the entries after it keep their values |
| VecMap.NGs2PETScVecMap.CreateNGsVector | src/petsc_linalg.cpp:295-301 | a distributed vector over all local dofs, with the parallel information's entry size, when there is parallel information; otherwise `ndof` dofs of `bs` entries |
| VecMap.NGs2PETScVecMap.CreatePETScVector | src/petsc_linalg.cpp:303-311 | `nrows_loc` local entries; sequential if and only if there is no parallel information; otherwise `nrows_glob` in all |
| VecMap.NGs2PETScVecMap.CreatedVectorsFit | src/petsc_linalg.cpp:295-311 | the created vectors fit the two copies: `ndof*bs` finite element entries, and a solver-side vector exactly as long as the gather |
| VecMap.NGs2PETScVecMap.SequentialRoundTrip | src/petsc_linalg.cpp:244-292 | on one rank without a subset, `PETSc2NGs` after `NGs2PETSc` restores the finite element vector |

## Left out

- Calls into PETSc are not modelled as calls. These are `MatCreateSeqBAIJ`, `MatSeqBAIJSetColumnIndices`, `MatSetValuesBlocked`, assembly, `MatCreateIS`, `MatISSetLocalMat`, `ISLocalToGlobalMappingCreate`, `VecCreateSeq`/`VecCreateMPI` and `VecGetArray`/`VecRestoreArray`. The model keeps only the sizes, arrays, mappings and insertion sequences passed to them.
- The local matrix attached to the IS matrix is not part of its layout here.
- `EnumerateGlobally` is an input (`Enumeration`) rather than a computation. It belongs to the finite element library.
- The MPI sum for `nrows_glob` is an input (`reducedTotal`), and communicators are not modelled.
- `Cumulate` and `Distribute`, the parallel-consistency steps before each vector copy, are not modelled.
- The null-space construction, the shell `MatMult` callback, `ExportLinAlg` and the `cout` diagnostics are not modelled.
- `SetPETScMatSeq` computes `ncols` and `nrows` but never uses them, so the model does not compute them either. Likewise `loc_nfr` in `create_map`.
- The `dynamic_pointer_cast` dispatch is a choice on the block shape and on the largest system dimension (`MAX_SYS_DIM`). The shape is `bh`/`bw`, and `bh` = `bw` = 1 stands for `double`. A block type other than `double` and `Mat<n>` with n ≥ 2 (for example `Mat<1,1>`, or a non-square `Mat`) is represented by unequal sizes. A parallel matrix is represented by its local sparse matrix.
- MatIS.CreateMap: the enumeration must mark exactly the dofs outside the subset with `-1` (`Marks`), as the finite element library promises. With any other enumeration the source could write past its buffer, and the model does not cover that case.
- MatIS.CreatePETScMatIS: the source's pointer comparisons (`row_pardofs == col_pardofs`, `rss == css`) are a `sameSpaces` flag. Its callers must pass equal values when it is set.
- SeqBaij.FillColumnIndices: `cols` is built by appending to a sequence rather than by writing into a pre-sized array. Writes into the array are therefore not modelled. The order and contents of `cols` are the same.
- VecMap.NGs2PETScVecMap.NGs2PETSc: the finite element vector is read-only here, so it is a value. The solver-side buffer it writes is an array.
- VecMap.NGs2PETScVecMap.PETSc2NGs: likewise, the solver-side buffer is a value and the finite element vector is an array.
- Integer widths (`int`, `PetscInt`, `size_t`) are unbounded. The model does not capture overflow of `nbcol * bh` or of `bs * k`.
- The `PETScMatrix` constructor (src/petsc_linalg.cpp:314-358) is not part of this model; of `PETScMatrix`, only `UpdateValues` is modelled. The constructor builds the non-parallel column map (src/petsc_linalg.cpp:355) with `row_subset` where `col_subset` would be expected.
- SeqBaij.UpdateValues: only a sequential matrix is covered. For a parallel matrix the source hands `SetPETScMatSeq` the global matrix (the IS matrix, or the result of `MatConvert`) rather than a local `SeqBAIJ`, and `mat` does not represent that case. `rss` and `css` stand for the subsets of the row and column vector maps, so for a sequential matrix `css` is `row_subset` (src/petsc_linalg.cpp:355). The result equals the source's only when the row and column subsets agree, as the Python binding's single `freedofs` argument ensures.

## Findings

| source | as written | input that shows it | evidently intended | confidence | as-written member | corrected member |
|---|---|---|---|---|---|---|
| src/petsc_linalg.cpp:81 | `!css \| css->Test(k)` uses bitwise or, so `css->Test(k)` is evaluated even when `css` is null | no column subset and a matrix with at least one row | `!css \|\| css->Test(k)`, as in the loops at :32, :74 and :97: every row counts when there is no subset | high; not executed | SeqBaij.NzeprGuardAsWritten, SeqBaij.NzeprGuardFaultsWithoutSubset | SeqBaij.CountBlocksPerRow |
| src/petsc_linalg.cpp:155-161 | the `MAX_SYS_DIM>=7` and `>=8` branches test for `Mat<6>` again, so 7×7 and 8×8 block matrices reach the exception | a sparse matrix with 7×7 blocks and `MAX_SYS_DIM` = 8 | `Mat<7>` and `Mat<8>`, as `UpdateValues` tests at :377-380 | high; not executed | SeqBaij.SeqBlockSizeAsWritten, SeqBaij.SeqBlockSizeAsWrittenRefusesSevenAndEight | SeqBaij.SeqBlockSize, SeqBaij.CreatePETScMatSeq |
| src/petsc_linalg.cpp:222-226 | the owned rows are counted over the row space, and `n_ssm_col` repeats `count_ssm(row_pardofs, rss)`. The rows of the IS matrix use the column space (`glob_nrows` at :228, `petsc_map_col` at :234) | one rank, one dof, no row subset, a column subset that excludes the dof: 1 owned row against 0 global rows | owned rows counted as `count_ssm(col_pardofs, css)` and owned columns as `count_ssm(row_pardofs, rss)`, matching the global sizes and the mappings | medium; not executed | MatIS.ISLayoutAsWritten, MatIS.ISLayoutAsWrittenMismatch | MatIS.ISLayout, MatIS.ISLayoutSingleRank, MatIS.CreatePETScMatIS |
