# Spatter Tenstorrent backend kernels in Dafny

This project models the per-core data-movement kernels of Spatter's
Tenstorrent backend, together with the host-side size and padding arithmetic
that prepares their buffers. Spatter measures gather, scatter, fused
gather-scatter and double-indirection access patterns. On a Tenstorrent
device each pattern is a kernel: a sequential loop over one core's element
range. Per element the loop turns the loop index into a source and a
destination address, moves 1024-element tiles between DRAM and a one-tile L1
buffer, remembers the last tile id it loaded for each array (`UINT32_MAX`
means none), and writes a modified destination tile back before it loads a
different one.

The main result is that this tile caching is transparent. For every kernel
that writes through a cached tile, the final contents of the written buffer
equal a plain element-by-element loop in which the last writer of each slot
wins.

## How the model is built

- `words.dfy` (`Words`) holds the `uint16_t`/`uint32_t`/`size_t` ranges and
  the explicit 2^32 and 2^64 wrap-around (`Wrap32`, `Wrap64`). It also splits
  an index into tile `idx / 1024` and offset `idx % 1024`, and computes the
  tile count `(n + 1023) / 1024` in 32 bits.
- `write_log.dfy` (`WriteLog`) is the reference semantics. A kernel's effect
  is a sequence of single-slot stores, and `Apply` performs them in order.
  `LastWriterWins` and `Untouched` say what a slot holds afterwards.
- `tile_store.dfy` (`TileStore`) models the DRAM and L1 side:
  - a written DRAM buffer is a `DramBuffer` object whose `data` field is
    updated page by page and whose ghost `trace` logs every tile read and
    write;
  - a read-only buffer is a sequence value;
  - L1 tiles are `array`s;
  - each `noc_async_*_tile` followed by its barrier is one synchronous page
    operation.
  - For a cached read-only tile, `Cached` ties the cached tile id to the L1
    array. For a write-back tile, `View` is what the buffer would hold if
    the dirty tile were flushed now.
- `indexing.dfy` (`Indexing`) is the index arithmetic of the kernels. It
  covers the decomposition of a loop index into `j`, `i`, `pattern_idx` and
  `dense_idx`, the modular sparse index, and the unreduced strided index.
- One module per kernel. Each has a `KernelMain` method whose loop mirrors
  the source and whose postcondition states the final buffer against the
  kernel's specification function. The lemmas beside it say what that
  function means slot by slot:
  - `multi_scatter.dfy`, `multi_gather.dfy`;
  - `gather_scatter.dfy`, `scatter.dfy`, `gather.dfy`;
  - `reader_gather.dfy`, `writer_gather.dfy`.
- `bytes.dfy` (`Bytes`) holds the little-endian byte images of `uint32_t`
  words and 16-bit values, and transfers of bytes to an offset of a memory.
  Device DRAM and L1 are bytes, whether a kernel reads them as words or as
  halves.
- `backend.dfy` (`Backend`) covers the host side:
  - tile and DRAM alignment, and `calculate_buffer_size`;
  - the zero padding of written data;
  - the `buffer_sizes_` bookkeeping and the uninitialised-device guards.

  The `Device` class keeps `buffer_sizes_` and the bytes of every buffer,
  so that data written as `uint32_t` words and data read back as 16-bit
  values are two views of the same memory.

Arguments are modelled with the source's integer widths. Every sum and
product of `uint32_t` values is reduced modulo 2^32, and every `size_t` one
modulo 2^64. What a kernel demands of its arguments and buffers is a
predicate (`Admissible`), and each kernel's job type is the subset of inputs
that satisfy it. These predicates contain the conditions under which the C++
reads or writes outside a buffer, which the code does not check. They also
contain conditions the code leaves to its callers, each listed under
"Left out": non-zero divisors, written buffers of at most 2^31 elements, and
a geometry limit. The index arrays hold `uint32_t` values but are read
through 2048-byte pages, which hold 512 words, while tile and offset are
computed with 1024 elements per tile. So every pattern position the kernels
read must lie below 512.

## Model

| member | source | states |
|---|---|---|
| Words.Wrap32 | src/Spatter/kernels/multi_scatter_kernel.cpp:135 | a `uint32_t` result equals the exact value when that fits and differs from it by a multiple of 2^32 otherwise |
| Words.Wrap64 | src/Spatter/TensTorrentBackend.cc:449-452 | a `size_t` result equals the exact value when that fits and differs from it by a multiple of 2^64 otherwise |
| Words.TileOf | src/Spatter/kernels/multi_scatter_kernel.cpp:138 | the tile id of an index is the tile whose 1024-element range contains it |
| Words.OffsetOf | src/Spatter/kernels/multi_scatter_kernel.cpp:154 | the in-tile offset is below 1024 and tile * 1024 + offset recombines to the index |
| Words.NumTiles | src/Spatter/kernels/scatter_kernel.cpp:49 | `(n + 1023) / 1024` in 32 bits is the ceiling of n / 1024, and 0 when the sum wraps |
| Words.Processed | src/Spatter/kernels/scatter_kernel.cpp:59-81 | the elements the tile loops visit are all n elements, or none when the tile count wraps to 0 |
| Words.NoTilesWhenNothingProcessed | src/Spatter/kernels/scatter_kernel.cpp:49-59 | when no element is processed the tile loop runs zero times |
| Words.TileBounds | src/Spatter/kernels/scatter_kernel.cpp:73-74 | every visited tile starts below n and its end bound `(t + 1) * 1024` does not wrap |
| WriteLog.LastWrite | src/Spatter/kernels/multi_scatter_kernel.cpp:155 | a slot has a last write exactly when some store targets it, and that value was stored there |
| WriteLog.ApplyAt | src/Spatter/kernels/multi_scatter_kernel.cpp:82-156 | after all stores a slot holds its last written value, or its old value if no store targets it |
| WriteLog.LastWriteIsLast | src/Spatter/kernels/multi_scatter_kernel.cpp:155 | a store that no later store to the same slot follows is the slot's last write |
| WriteLog.LastWriterWins | src/Spatter/kernels/multi_scatter_kernel.cpp:138-162 | the value of a store that no later store overrides is what the slot holds at the end |
| WriteLog.Untouched | src/Spatter/kernels/multi_scatter_kernel.cpp:147 | a slot that no store targets keeps its value |
| WriteLog.ApplySnoc | src/Spatter/kernels/multi_scatter_kernel.cpp:155 | one more store is one more single-slot update of the result so far |
| TileStore.PageOfAt | src/Spatter/kernels/multi_scatter_kernel.cpp:95-103 | slot k of the page p read into L1 is element p * n + k of the buffer |
| TileStore.SpliceOwnPage | src/Spatter/kernels/multi_scatter_kernel.cpp:147-160 | writing back an unmodified page leaves the buffer unchanged |
| TileStore.SpliceUpdate | src/Spatter/kernels/multi_scatter_kernel.cpp:155-160 | setting a slot in L1 and writing the page back sets that one slot of the buffer |
| TileStore.LoadPage | src/Spatter/kernels/multi_scatter_kernel.cpp:95-96 | reading a tile of a read-only buffer fills L1 with exactly that page |
| TileStore.DramBuffer.constructor | src/Spatter/kernels/multi_scatter_kernel.cpp:69-70 | a buffer starts with its contents and no tile operations |
| TileStore.DramBuffer.ReadPage | src/Spatter/kernels/multi_scatter_kernel.cpp:147-148 | a tile read fills L1 with the page, changes no data and logs one read |
| TileStore.DramBuffer.WritePage | src/Spatter/kernels/multi_scatter_kernel.cpp:142-143 | a tile write replaces exactly that page and logs one write |
| TileStore.CachedLoad | src/Spatter/kernels/multi_gather_kernel.cpp:123-132 | a cached element read returns the element at the index (through its tile and offset) and leaves the cache holding the index's tile |
| TileStore.SwitchPage | src/Spatter/kernels/multi_scatter_kernel.cpp:138-150 | switching the write-back tile writes the dirty one back and loads the new one without changing what the buffer would hold after a flush |
| TileStore.CachedStore | src/Spatter/kernels/multi_scatter_kernel.cpp:138-155 | a store through the write-back cache adds that store to the pending view: view = Apply(initial, stores so far + [store]) |
| TileStore.StoreThrough | src/Spatter/kernels/scatter_kernel.cpp:92-102 | read-modify-write of one tile changes exactly one slot and logs one read and one write of that tile |
| TileStore.Flush | src/Spatter/kernels/multi_scatter_kernel.cpp:158-162 | the final write-back makes the buffer equal its pending view, and writes nothing when no tile is cached |
| Indexing.DenseIndexInBand | src/Spatter/kernels/multi_scatter_kernel.cpp:91 | for j below the pattern length, `j + pattern_length * (i % wrap)` stays below pattern_length * wrap and recovers j and i % wrap |
| Indexing.DenseIndex | src/Spatter/kernels/multi_scatter_kernel.cpp:91 | `j + pattern_length * (i % wrap)` in `uint32_t` is the exact value whenever that fits |
| Indexing.Decompose | src/Spatter/kernels/multi_scatter_kernel.cpp:84-91 | j is below count, the pattern position is below the pattern length, and equals j when j is already below it |
| Indexing.DecomposeSplitsIndex | src/Spatter/kernels/multi_scatter_kernel.cpp:84-85 | i * count + j recombines to the element index, and i * pattern_length + j does for the intended split |
| Indexing.IntendedDecompose | src/Spatter/kernels/multi_gather_kernel.cpp:11 | the decomposition by pattern length keeps j below the pattern length and uses it directly as the pattern position |
| Indexing.IntendedDecomposeInBounds | src/Spatter/kernels/multi_gather_kernel.cpp:11 | for elements below count * pattern_length, the intended split keeps i below count and the dense index inside its band |
| Indexing.DecomposeAgreesWhenCountIsLength | src/Spatter/kernels/multi_gather_kernel.cpp:84-88 | when count equals pattern_length the code's decomposition is the intended one |
| Indexing.DecomposeCounterexample | src/Spatter/kernels/multi_gather_kernel.cpp:84-88 | with count above pattern_length, element pattern_length gets dense index pattern_length where the intended index is 0 |
| Indexing.SparseIndex | src/Spatter/kernels/multi_scatter_kernel.cpp:135 | `(base + delta * i) % sparse_size` is always below sparse_size |
| Indexing.SparseIndexExact | src/Spatter/kernels/multi_scatter_kernel.cpp:135 | without overflow and when it is already in range, the sparse index is exactly base + delta * i |
| Indexing.StridedIndex | src/Spatter/kernels/gather_scatter_kernel.cpp:92 | `base + delta * it` without reduction equals the exact value when no 32-bit wrap occurs |
| Indexing.PatternIndex | src/Spatter/kernels/gather_kernel.cpp:82-86 | reading the pattern page loaded once at the pattern position gives the strided source index of the element |
| Indexing.CachedIndexLoad | src/Spatter/kernels/multi_gather_kernel.cpp:90-101 | an index-array position below 512 is read from tile 0 of the cache and gives the array's entry |
| MultiScatter.ElementWrite | src/Spatter/kernels/multi_scatter_kernel.cpp:84-135 | each element stores to a slot inside the sparse buffer |
| MultiScatter.Writes | src/Spatter/kernels/multi_scatter_kernel.cpp:82 | the range yields one in-bounds store per element, and none when it is empty |
| MultiScatter.WritesAt | src/Spatter/kernels/multi_scatter_kernel.cpp:82 | the k-th store is the store of element start + k |
| MultiScatter.WritesSnoc | src/Spatter/kernels/multi_scatter_kernel.cpp:82 | the stores are made in ascending element order |
| MultiScatter.ValueLands | src/Spatter/kernels/multi_scatter_kernel.cpp:84-162 | with `j = elem % count` and `i = elem / count`, after the kernel `sparse[(pattern[pattern_scatter[j % L] % L] + delta*i) % size]` holds `dense[j + L*(i % wrap)]` unless a later element of the range targets the same slot |
| MultiScatter.SlotUntouched | src/Spatter/kernels/multi_scatter_kernel.cpp:147-155 | a sparse slot no element targets keeps its prior value |
| MultiScatter.StoreAsIntendedWhenCountIsLength | src/Spatter/kernels/multi_scatter_kernel.cpp:84-135 | when count equals pattern_length, element `i * L + j` (j < L) stores `dense[j + L*(i % wrap)]` at `(pattern[pattern_scatter[j] % L] + delta*i) % size`, the formula of the header comment |
| MultiScatter.NextWrite | src/Spatter/kernels/multi_scatter_kernel.cpp:84-135 | the cached reads of one element compute exactly its store, and every cache stays valid |
| MultiScatter.DenseValue | src/Spatter/kernels/multi_scatter_kernel.cpp:90-103 | the cached dense read gives the value at the element's dense index |
| MultiScatter.SparseTarget | src/Spatter/kernels/multi_scatter_kernel.cpp:105-135 | the two cached index reads and the reduction modulo pattern_length give the element's sparse slot |
| MultiScatter.KernelMain | src/Spatter/kernels/multi_scatter_kernel.cpp:53-162 | the final sparse buffer equals the element-by-element stores over [start, end) applied in order, and an empty range performs no tile operation on it; dense, pattern and pattern_scatter are only read |
| MultiScatter.ScatterRange | src/Spatter/kernels/multi_scatter_kernel.cpp:82-156 | after the loop, the sparse buffer with its dirty tile flushed equals all of the range's stores applied in order |
| MultiScatter.ScatterElement | src/Spatter/kernels/multi_scatter_kernel.cpp:84-155 | one iteration adds exactly that element's store to the pending view of the sparse buffer |
| MultiGather.ElementWrite | src/Spatter/kernels/multi_gather_kernel.cpp:84-135 | each element stores to a slot inside the dense buffer |
| MultiGather.Writes | src/Spatter/kernels/multi_gather_kernel.cpp:82 | the range yields one in-bounds store per element, and none when it is empty |
| MultiGather.WritesAt | src/Spatter/kernels/multi_gather_kernel.cpp:82 | the k-th store is the store of element start + k |
| MultiGather.WritesSnoc | src/Spatter/kernels/multi_gather_kernel.cpp:82 | the stores are made in ascending element order |
| MultiGather.ValueLands | src/Spatter/kernels/multi_gather_kernel.cpp:84-162 | with `j = elem % count` and `i = elem / count`, after the kernel `dense[j + L*(i % wrap)]` holds `sparse[(pattern[pattern_gather[j % L]] + delta*i) % size]` unless a later element of the range targets the same slot |
| MultiGather.SlotUntouched | src/Spatter/kernels/multi_gather_kernel.cpp:147-155 | a dense slot no element targets keeps its prior value |
| MultiGather.IdentityIndirection | src/Spatter/kernels/multi_gather_kernel.cpp:101-120 | with the identity as pattern_gather, the element reads `sparse[(pattern[j % L] + delta*i) % size]` |
| MultiGather.StoreAsIntendedWhenCountIsLength | src/Spatter/kernels/multi_gather_kernel.cpp:84-135 | when count equals pattern_length, element `i * L + j` (j < L) sets `dense[j + L*(i % wrap)]` to `sparse[(pattern[pattern_gather[j]] + delta*i) % size]`, the formula of the header comment |
| MultiGather.NextWrite | src/Spatter/kernels/multi_gather_kernel.cpp:84-135 | the cached reads of one element compute exactly its store, and every cache stays valid |
| MultiGather.SparseSource | src/Spatter/kernels/multi_gather_kernel.cpp:90-132 | the cached reads through pattern_gather, pattern and sparse give the sparse value at the element's source index |
| MultiGather.KernelMain | src/Spatter/kernels/multi_gather_kernel.cpp:53-162 | the final dense buffer equals the element-by-element stores over [start, end) applied in order, and an empty range performs no tile operation on it; sparse, pattern and pattern_gather are only read |
| MultiGather.GatherRange | src/Spatter/kernels/multi_gather_kernel.cpp:82-156 | after the loop, the dense buffer with its dirty tile flushed equals all of the range's stores applied in order |
| MultiGather.GatherElement | src/Spatter/kernels/multi_gather_kernel.cpp:84-155 | one iteration adds exactly that element's store to the pending view of the dense buffer |
| GatherScatter.End | src/Spatter/kernels/gather_scatter_kernel.cpp:79 | the end element is start + num_elements_per_core when that does not wrap |
| GatherScatter.WrappedShareIsEmpty | src/Spatter/kernels/gather_scatter_kernel.cpp:79-86 | when the end wraps past 2^32 it lies below the start, so the loop does nothing |
| GatherScatter.Source | src/Spatter/kernels/gather_scatter_kernel.cpp:88-92 | `src_index` is `pattern_gather[elem % L] + delta_gather * (elem / L)` whenever that fits in `uint32_t` |
| GatherScatter.Target | src/Spatter/kernels/gather_scatter_kernel.cpp:94-95 | `dst_index` is `pattern_scatter[elem % L] + delta_scatter * (elem / L)` whenever that fits in `uint32_t` |
| GatherScatter.ElementInRange | src/Spatter/kernels/gather_scatter_kernel.cpp:88-95 | every element of the share reads and writes inside the two sparse buffers |
| GatherScatter.ElementWrite | src/Spatter/kernels/gather_scatter_kernel.cpp:88-132 | each element stores to a slot inside sparse_scatter |
| GatherScatter.Writes | src/Spatter/kernels/gather_scatter_kernel.cpp:86 | the share yields one in-bounds store per element |
| GatherScatter.WritesAt | src/Spatter/kernels/gather_scatter_kernel.cpp:86 | the k-th store is the store of element start + k |
| GatherScatter.WritesSnoc | src/Spatter/kernels/gather_scatter_kernel.cpp:86 | the stores are made in ascending element order |
| GatherScatter.IndicesWithoutWrap | src/Spatter/kernels/gather_scatter_kernel.cpp:88-95 | without 32-bit overflow, src and dst are `pattern_gather[p] + delta_gather*it` and `pattern_scatter[p] + delta_scatter*it`, with no reduction |
| GatherScatter.ValueLands | src/Spatter/kernels/gather_scatter_kernel.cpp:88-139 | after the kernel, `sparse_scatter[dst]` holds `sparse_gather[src]` unless a later element targets the same slot |
| GatherScatter.SlotUntouched | src/Spatter/kernels/gather_scatter_kernel.cpp:125-132 | a sparse_scatter slot no element targets keeps its prior value |
| GatherScatter.NextWrite | src/Spatter/kernels/gather_scatter_kernel.cpp:88-110 | the pattern lookups and the cached sparse_gather read compute exactly the element's store |
| GatherScatter.KernelMain | src/Spatter/kernels/gather_scatter_kernel.cpp:68-139 | the final sparse_scatter equals the element-by-element copies over the share applied in order, and an empty share writes no tile |
| GatherScatter.CopyRange | src/Spatter/kernels/gather_scatter_kernel.cpp:81-133 | after the loop, sparse_scatter with its dirty tile flushed equals the share's copies applied in order; an empty share caches and writes no tile |
| GatherScatter.CopyElement | src/Spatter/kernels/gather_scatter_kernel.cpp:88-132 | one iteration adds exactly that element's copy to the pending view of sparse_scatter |
| Scatter.Target | src/Spatter/kernels/scatter_kernel.cpp:84-85 | the intended destination `pattern[g] + delta * (g / 1024)` of the code's comment, exact whenever it fits in `uint32_t` |
| Scatter.TileInBuffers | src/Spatter/kernels/scatter_kernel.cpp:59-65 | every visited tile is a whole page of the pattern and dense buffers |
| Scatter.ElementTile | src/Spatter/kernels/scatter_kernel.cpp:59-81 | every processed element lies in a tile the outer loop visits |
| Scatter.L1Bytes | src/Spatter/kernels/scatter_kernel.cpp:46-66 | the L1 bytes after pattern page t (4096 bytes) is read to `l1_buffer_addr` and dense tile t (2048 bytes) to `l1_buffer_addr + 2048` are 4096 bytes; what they hold is stated by the `L1Word*` and `L1DenseHalf` lemmas |
| Scatter.L1PatternWords | src/Spatter/kernels/scatter_kernel.cpp:69-82 | `pattern_data` read through the `uint32_t*` cast over those bytes is 1024 words |
| Scatter.L1WordBelowHalf | src/Spatter/kernels/scatter_kernel.cpp:46-69 | after the two reads, pattern word k < 512 is still pattern entry k |
| Scatter.L1WordAboveHalf | src/Spatter/kernels/scatter_kernel.cpp:46-69 | after the two reads, pattern word 512 + k is dense value 2k plus 2^16 times dense value 2k + 1 |
| Scatter.L1DenseHalf | src/Spatter/kernels/scatter_kernel.cpp:56-70 | after the two reads, `dense_data[k]` is dense value k, intact |
| Scatter.DenseReadClobbersPattern | src/Spatter/kernels/scatter_kernel.cpp:46-70 | as written, pattern entries 512 to 1023 of a tile are replaced by dense values, and there is a tile for which entry 512 comes out wrong |
| Scatter.L1WordAt | src/Spatter/kernels/scatter_kernel.cpp:61-82 | after the two reads of tile t, `pattern_data[e]` is the tile's own pattern entry for e < 512 and the packed dense pair `2(e - 512)`, `2(e - 512) + 1` above |
| Scatter.L1WordAtBelow | src/Spatter/kernels/scatter_kernel.cpp:61-82 | the lower-half case: `pattern_data[k]` is `pattern[t * 1024 + k]` |
| Scatter.L1WordAtAbove | src/Spatter/kernels/scatter_kernel.cpp:61-82 | the upper-half case: `pattern_data[512 + k]` is `dense[t * 1024 + 2k] + 2^16 * dense[t * 1024 + 2k + 1]` |
| Scatter.L1HalfAt | src/Spatter/kernels/scatter_kernel.cpp:65-70 | after the two reads of tile t, `dense_data[e]` is `dense[t * 1024 + e]` |
| Scatter.L1Layout | src/Spatter/kernels/scatter_kernel.cpp:61-70 | after the two reads of tile t, every offset of L1 reads as stated by `L1WordAt` and `L1HalfAt` |
| Scatter.SeenEntry | src/Spatter/kernels/scatter_kernel.cpp:82 | the pattern entry element g actually uses: `pattern[g]` in the lower half of its tile, and in the upper half the word made of dense values `2(g % 1024 - 512)` and the next one of its tile |
| Scatter.AsWrittenTarget | src/Spatter/kernels/scatter_kernel.cpp:82-85 | the destination the code computes, seen entry plus `delta * (g / 1024)`, exact when it fits in `uint32_t`; it equals `Scatter.Target` in the lower half of every tile |
| Scatter.ElementWrite | src/Spatter/kernels/scatter_kernel.cpp:82-98 | each element stores `dense[g]` at the destination the code computes, which lies inside the sparse buffer |
| Scatter.Writes | src/Spatter/kernels/scatter_kernel.cpp:59-81 | the tile loops yield one in-bounds store per global element, in order |
| Scatter.WritesAt | src/Spatter/kernels/scatter_kernel.cpp:80-81 | the g-th store is the store of global element g |
| Scatter.WritesSnoc | src/Spatter/kernels/scatter_kernel.cpp:80-81 | the stores are made in ascending global element order |
| Scatter.RmwOps | src/Spatter/kernels/scatter_kernel.cpp:88-102 | an uncached read-modify-write of each store makes two tile operations per store |
| Scatter.RmwOpsAt | src/Spatter/kernels/scatter_kernel.cpp:88-102 | operations 2k and 2k + 1 read and then write back the tile `index / 1024` of store k |
| Scatter.RmwOpsSnoc | src/Spatter/kernels/scatter_kernel.cpp:80-102 | one more store appends exactly its tile's read and write-back |
| Scatter.TileOpsAt | src/Spatter/kernels/scatter_kernel.cpp:85-102 | log entries `2g` and `2g+1` read and write back tile `dst_index / 1024` of the destination the code computes for element g, from the pattern entry it actually reads |
| Scatter.AsWrittenValueLands | src/Spatter/kernels/scatter_kernel.cpp:82-102 | after the kernel, the destination the code computes for element g holds `dense[g]` unless a later element stores to the same slot |
| Scatter.AsWrittenSlotUntouched | src/Spatter/kernels/scatter_kernel.cpp:92-98 | a sparse slot that no computed destination hits keeps its prior value |
| Scatter.IntendedWrite | src/Spatter/kernels/scatter_kernel.cpp:84-85 | the intended store of element g lies inside the sparse buffer |
| Scatter.IntendedWrites | src/Spatter/kernels/scatter_kernel.cpp:59-81 | the intended stores are one in-bounds store per global element, in order |
| Scatter.IntendedWritesAt | src/Spatter/kernels/scatter_kernel.cpp:80-85 | the g-th intended store is element g's intended store |
| Scatter.ValueLands | src/Spatter/kernels/scatter_kernel.cpp:84-102 | with the intended stores, `sparse[pattern[g] + delta*(g / 1024)]` ends up holding `dense[g]` unless a later element targets the same slot |
| Scatter.SlotUntouched | src/Spatter/kernels/scatter_kernel.cpp:92-98 | with the intended stores, a sparse slot no element targets keeps its prior value |
| Scatter.AgreesBelowHalf | src/Spatter/kernels/scatter_kernel.cpp:82-85 | in the lower half of its tile an element makes exactly its intended store |
| Scatter.SmallRunAsIntended | src/Spatter/kernels/scatter_kernel.cpp:49-103 | with at most 512 elements every store is the intended one |
| Scatter.KernelMain | src/Spatter/kernels/scatter_kernel.cpp:49-104 | the final sparse buffer equals the stores the code computes applied in order, and its log is, element by element, a read and then a write-back of the computed destination's tile (so nothing is read or written when nothing is processed) |
| Scatter.StoreStep | src/Spatter/kernels/scatter_kernel.cpp:92-102 | one element's store and its tile's read and write-back extend the stores and the log from elements `[0, g)` to `[0, g + 1)` |
| Scatter.ScatterTile | src/Spatter/kernels/scatter_kernel.cpp:59-103 | one tile iteration applies exactly the stores of the elements `[t*1024, min((t+1)*1024, n))` and appends exactly their tile reads and writes to the log |
| Scatter.ScatterElements | src/Spatter/kernels/scatter_kernel.cpp:80-103 | the inner loop applies the stores of the tile's first `count` elements and logs their tile reads and writes |
| Scatter.ScatterElement | src/Spatter/kernels/scatter_kernel.cpp:81-102 | one element's read-modify-write applies exactly its store and logs one read and one write of its destination tile |
| Scatter.LoadTile | src/Spatter/kernels/scatter_kernel.cpp:61-66 | the two reads leave the pattern page's bytes in L1 with bytes 2048 to 4095 replaced by the dense tile's |
| Scatter.ReadElement | src/Spatter/kernels/scatter_kernel.cpp:69-98 | `pattern_data[elem]` is the entry element g actually uses and `dense_data[elem]` is `dense[g]` |
| Gather.Source | src/Spatter/kernels/gather_kernel.cpp:82-86 | `src_index` is `pattern[elem % L] + delta * (elem / L)` whenever that fits in `uint32_t` |
| Gather.ElementInRange | src/Spatter/kernels/gather_kernel.cpp:80-90 | every gathered element's source index lies inside the sparse buffer |
| Gather.TileInDense | src/Spatter/kernels/gather_kernel.cpp:65-106 | every output tile the loop writes exists in the dense buffer |
| Gather.TileWrites | src/Spatter/kernels/gather_kernel.cpp:65-106 | the writes of output tiles 0 .. n-1 are logged in ascending order |
| Gather.GatheredStep | src/Spatter/kernels/gather_kernel.cpp:106 | writing output tile t over the first t written tiles gives the first t + 1 |
| Gather.ValueLands | src/Spatter/kernels/gather_kernel.cpp:80-102 | after the kernel, `dense[elem] = sparse[pattern[elem % L] + delta*(elem / L)]` for every gathered element, the index taken modulo 2^32 |
| Gather.PaddingIsZero | src/Spatter/kernels/gather_kernel.cpp:68-77 | slots of the last output tile at or beyond num_elements are 0 |
| Gather.BeyondTilesUntouched | src/Spatter/kernels/gather_kernel.cpp:65-106 | dense slots beyond the last output tile keep their values |
| Gather.KernelMain | src/Spatter/kernels/gather_kernel.cpp:53-108 | the final dense buffer is the gathered output, and output tiles 0 .. ceil(n/1024) - 1 are each written exactly once, in ascending order |
| Gather.GatherTile | src/Spatter/kernels/gather_kernel.cpp:65-107 | one tile iteration writes exactly output tile t and logs one write |
| Gather.FillTile | src/Spatter/kernels/gather_kernel.cpp:73-103 | clearing and filling the L1 tile produces output tile t |
| Gather.GatherElement | src/Spatter/kernels/gather_kernel.cpp:80-102 | one element sets its slot of the L1 tile to its gathered value and nothing else |
| ReaderGather.EndElement | src/Spatter/kernels/dataflow/reader_gather.cpp:53 | the end element is work_offset + work_per_core when that does not wrap |
| ReaderGather.StartTile | src/Spatter/kernels/dataflow/reader_gather.cpp:56 | the start tile is the tile containing work_offset |
| ReaderGather.EndTile | src/Spatter/kernels/dataflow/reader_gather.cpp:57 | without `uint32_t` wrap-around, end_tile is the least tile boundary at or above the end of the range: `end_tile * 1024 - 1024 < end <= end_tile * 1024` |
| ReaderGather.Window | src/Spatter/kernels/dataflow/reader_gather.cpp:62-67 | without wrap-around, a tile's window is the core's element range intersected with the tile, in tile-local offsets |
| ReaderGather.HasWork | src/Spatter/kernels/dataflow/reader_gather.cpp:69 | without wrap-around, a tile in [start_tile, end_tile) is processed exactly when work_per_core > 0 |
| ReaderGather.ReadTiles | src/Spatter/kernels/dataflow/reader_gather.cpp:60-69 | the tiles the loop does not skip lie in [start_tile, hi) and ascend strictly |
| ReaderGather.ReadTilesHaveWork | src/Spatter/kernels/dataflow/reader_gather.cpp:69 | every tile read has a non-empty window |
| ReaderGather.NoWorkSkipsEveryTile | src/Spatter/kernels/dataflow/reader_gather.cpp:56-69 | when work_per_core is 0, every tile in the range is skipped |
| ReaderGather.ReadTilesContiguous | src/Spatter/kernels/dataflow/reader_gather.cpp:60-69 | when no tile is skipped the tiles read are exactly start_tile, start_tile + 1, ... |
| ReaderGather.TilesRead | src/Spatter/kernels/dataflow/reader_gather.cpp:52-69 | with work and no wrap-around the reader reads exactly the tiles [start_tile, end_tile); with no work it reads none |
| ReaderGather.NoHasWorkNoTiles | src/Spatter/kernels/dataflow/reader_gather.cpp:69 | with no work no tile is read |
| ReaderGather.PagesExist | src/Spatter/kernels/dataflow/reader_gather.cpp:75-93 | every tile the loop may read exists in the pattern and sparse buffers |
| ReaderGather.PushesSnoc | src/Spatter/kernels/dataflow/reader_gather.cpp:72-96 | one more tile appends its two pushes after the earlier ones |
| ReaderGather.PushesAt | src/Spatter/kernels/dataflow/reader_gather.cpp:72-96 | the k-th tile read pushes pattern page `tile_idx` and then sparse page `tile_idx`, the sparse page selected by the output tile's id and not by pattern contents |
| ReaderGather.KernelMain | src/Spatter/kernels/dataflow/reader_gather.cpp:60-97 | the reader's pushes are, for each non-skipped tile in ascending order, its pattern tile and then its sparse tile; it writes no DRAM buffer |
| ReaderGather.ReadTile | src/Spatter/kernels/dataflow/reader_gather.cpp:60-96 | one loop iteration pushes the tile's two pages exactly when it has work |
| ReaderGather.PushTile | src/Spatter/kernels/dataflow/reader_gather.cpp:72-96 | the two pushes of a tile are appended to the log |
| WriterGather.EndTile | src/Spatter/kernels/dataflow/writer_gather.cpp:37-38 | `end_tile_id` is `work_offset / 1024 + num_tiles` when that fits in `uint32_t`, and lies below the start tile when it wraps |
| WriterGather.Count | src/Spatter/kernels/dataflow/writer_gather.cpp:38-41 | the loop runs num_tiles times, or not at all when `start_tile_id + num_tiles` wraps below the start |
| WriterGather.TileWrites | src/Spatter/kernels/dataflow/writer_gather.cpp:41-49 | the writes of tiles start .. start + n - 1 are logged in order |
| WriterGather.PlacedStep | src/Spatter/kernels/dataflow/writer_gather.cpp:49 | writing page n to tile start + n over the first n placed pages places n + 1 |
| WriterGather.PageLands | src/Spatter/kernels/dataflow/writer_gather.cpp:41-55 | slot `off` of the k-th page consumed lands in slot `off` of DRAM tile start_tile_id + k |
| WriterGather.OtherTilesUntouched | src/Spatter/kernels/dataflow/writer_gather.cpp:41-49 | no tile outside [start_tile_id, start_tile_id + count) changes |
| WriterGather.KernelMain | src/Spatter/kernels/dataflow/writer_gather.cpp:36-56 | the writer consumes exactly count pages and writes the k-th to tile start_tile_id + k, in ascending order, and changes nothing else |
| WriterGather.NoTilesNoWrites | src/Spatter/kernels/dataflow/writer_gather.cpp:41 | with num_tiles 0 nothing is consumed and the buffer is unchanged |
| Backend.RoundUp | src/Spatter/TensTorrentBackend.cc:69 | `((x + m - 1) / m) * m` in `size_t` is the least multiple of m at or above x, or 0 when the sum wraps |
| Backend.AlignToTileSize | src/Spatter/TensTorrentBackend.cc:418-420 | the aligned size is a multiple of 2048 at or above the size and less than 2048 above it, or 0 on `size_t` wrap |
| Backend.AlignIsLeast | src/Spatter/TensTorrentBackend.cc:418-420 | no multiple of 2048 at or above the size is below the aligned size |
| Backend.CalculateBufferSize | src/Spatter/TensTorrentBackend.cc:446-453 | the buffer size is always a multiple of 2048: 2n rounded up when nothing wraps, 0 when only the rounding sum wraps, and the rounded-up `2n - 2^64` when 2n itself wraps |
| Backend.ThousandElementsTakeOneTile | tests/tenstorrent_basic_test.cc:78 | 1000 elements take 2048 bytes |
| Backend.AllocationSize | src/Spatter/TensTorrentBackend.cc:66-70 | an L1 allocation asks for the tile-aligned size; a DRAM allocation for a multiple of 64 at or above it and less than 64 above it |
| Backend.AllocationIsTileAligned | src/Spatter/TensTorrentBackend.cc:66-70 | the extra 64-byte DRAM rounding leaves a tile-aligned size unchanged |
| Backend.PaddedLength | src/Spatter/TensTorrentBackend.cc:167-168 | the padded length is a multiple of 1024 at or above the length and less than 1024 above it |
| Backend.PaddedLengthIsLeast | src/Spatter/TensTorrentBackend.cc:167-168 | no multiple of 1024 at or above the length is below the padded length |
| Backend.Padded | src/Spatter/TensTorrentBackend.cc:167-171 | the padded vector has the padded length, starts with the data and ends in zeros |
| Bytes.DecodeEncodeHalves | src/Spatter/TensTorrentBackend.cc:115-125 | 16-bit values written to the start of a buffer read back unchanged, whatever follows them |
| Bytes.DecodeEncodeWords | src/Spatter/TensTorrentBackend.cc:173 | words written to the start of a buffer read back unchanged, whatever follows them |
| Bytes.Overwrite | src/Spatter/TensTorrentBackend.cc:115 | a transfer to an offset replaces exactly those bytes and keeps the others and the length; the host's writes go to offset 0 |
| Bytes.LoadBytes | src/Spatter/kernels/scatter_kernel.cpp:61-65 | a tile read into L1 at an offset replaces exactly those bytes |
| Bytes.EncodedWordAt | src/Spatter/kernels/scatter_kernel.cpp:69-82 | a word read back through the `uint32_t*` cast from its four little-endian bytes is the word |
| Bytes.HalvesAsWord | src/Spatter/kernels/scatter_kernel.cpp:69-70 | the word read from two consecutive 16-bit values has the first in its low half and the second in its high half |
| Backend.Readback | src/Spatter/TensTorrentBackend.cc:127-142 | a read returns the buffer's values in order, `min(recorded size, device length)` of them, or all of them when no size was recorded |
| Backend.WriteThenRead | src/Spatter/TensTorrentBackend.cc:95-142 | reading back a buffer just written returns exactly the data written, with its original length |
| Backend.Device.constructor | src/Spatter/TensTorrentBackend.cc:27-47 | a device starts with no buffers and no recorded sizes, initialised exactly when its bring-up succeeded |
| Backend.Device.AllocateBuffer | src/Spatter/TensTorrentBackend.cc:59-80 | an uninitialised device fails and changes nothing; otherwise a fresh buffer of the tile-aligned size, with no recorded size, is added and nothing else changes |
| Backend.Device.WriteBuffer | src/Spatter/TensTorrentBackend.cc:88-116 | an uninitialised device fails and changes nothing; otherwise the unpadded length is recorded and the zero-padded data replaces the start of the buffer |
| Backend.Device.WriteWords | src/Spatter/TensTorrentBackend.cc:157-174 | an uninitialised device fails and changes nothing; otherwise the unpadded length is recorded and the zero-padded words replace the start of the buffer |
| Backend.Device.ReadBuffer | src/Spatter/TensTorrentBackend.cc:118-143 | an uninitialised device fails; otherwise the read returns the buffer's values cut to the recorded length |
| Backend.Device.ExecuteGatherKernel | src/Spatter/TensTorrentBackend.cc:238-272 | the result is true exactly when the device is initialised and the launch does not fail |
| Backend.Device.ExecuteScatterKernel | src/Spatter/TensTorrentBackend.cc:274-308 | the result is true exactly when the device is initialised, no handle is null and the launch does not fail |
| Backend.AllocateThenReadBuffer | src/Spatter/TensTorrentBackend.cc:118-143 | reading back a buffer just allocated returns all of its halves, each 0, because it has no recorded size |
| Backend.WriteThenReadBuffer | tests/tenstorrent_basic_test.cc:44-56 | on an initialised device, `write_buffer` followed by `read_buffer` returns the data written, with the same length |

## Left out

- Several cores running in parallel, and races between them on shared
  destination tiles. Each kernel is modelled for one core, with its element
  range as an input.
- The asynchronous NOC. Every `noc_async_read_tile` or `noc_async_write_tile`
  together with its barrier is one synchronous page operation.
  `noc_async_writes_flushed` has no separate effect.
- The circular-buffer handshakes between the gather reader, compute and
  writer stages. The reader's pushes are an output log; `cb_reserve_back`
  and `get_write_ptr` are folded into the push. The writer's input is the
  sequence of pages the compute stage produced; `cb_wait_front` and
  `cb_pop_front` consume its next page. The circular buffers' page sizes
  (`get_tile_size`) are parameters of the reader.
- compute/gather_compute.cpp, which only copies tiles. It is not part of
  this model.
- noc_bandwidth_kernel.cpp and its test, a throughput probe. They are not
  part of this model.
- The bfloat16, float and double conversions in `write_buffer`,
  `read_buffer` and the `convert_*` helpers. Element values are 16-bit
  patterns, so the model does not capture float rounding.
- Device bring-up and program setup: `initialize`, `cleanup`,
  `compile_kernels`, `CreateBuffer`, `SetRuntimeArgs`, `EnqueueProgram` and
  `Finish`. These are calls into the device library.
  - Whether a launch throws is the parameter `launchFails`.
  - Whether `initialize` succeeded is the `Device` constructor's parameter.
- The meaning of `EnqueueWriteBuffer` and `EnqueueReadBuffer` comes from the
  device library. The model assumes:
  - a write places the vector's bytes at the start of the buffer;
  - a read returns the whole buffer;
  - a new buffer holds zeros.
- Backend.PaddedLength: computed on unbounded integers. The `size_t`
  wrap-around of `data.size() + 1023` cannot happen for a vector that fits
  in memory.
- The `aligned_vector` and `size_t` overloads of `writeBuffer`, and the
  `createBuffer`/`readBuffer`/`writeBuffer` wrappers, which only forward.
- The `void` host entry points `execute_gather_kernel` and
  `execute_scatter_kernel`, beyond their initialisation guard.
- The runtime argument vectors the host builds do not match the kernels'
  argument layouts:
  - `executeScatterKernel` passes 5 values where scatter_kernel.cpp reads 6;
  - `executeGatherKernel` passes 5 where gather_kernel.cpp reads 9.

  Each kernel is modelled with its own layout, and the host methods model
  only their guards and their result.
- Backend.Device.ExecuteGatherKernel: requires non-null handles on an
  initialised device, because the source dereferences them without a check.
- ReaderGather.KernelMain: `delta` and `sparse_size` are read but unused, so
  they have no effect in the model either.
- Read-only buffers are values, so aliasing between a kernel's buffers is not
  modelled. The L1 addresses of the caches are assumed distinct. The one
  overlap, in scatter_kernel.cpp, is modelled: the pattern page and the dense
  tile are read into one 4096-byte L1 array. The sparse tile at
  `l1_buffer_addr + 4096` does not overlap them and is a separate array.
- Reads of read-only buffers are not logged. That the read-only caches
  reload only on a tile change is visible in the method bodies, not in a
  contract.
- Index-array positions must be below 512, as described above. The
  behaviour for positions 512 to 1023, which read beyond the loaded 2048-byte
  page, is not modelled.
- Divisors the code uses without a check must be non-zero: `count`, `wrap`,
  `sparse_size` and `pattern_length` in the multi kernels (`MultiShape`),
  and `pattern_length` in gather_kernel.cpp and gather_scatter_kernel.cpp.
  A division by zero has no defined result in C++, so the model has none.
- Every buffer a kernel writes holds at most 2^31 16-bit elements
  (`MaxDramElems`), the 4 GiB of device DRAM. Tile ids then stay far below
  the `UINT32_MAX` "no tile" marker. The kernels are not modelled for larger
  buffers.
- Backend.Device.WriteBuffer and Backend.Device.WriteWords: on an
  initialised device they require the zero-padded data to fit the buffer.
  What `EnqueueWriteBuffer` does with a longer vector is up to the device
  library, so that case is not modelled.
- Any out-of-range access the code does not check is excluded by the
  kernels' `Admissible` predicates:
  - a source or destination outside its buffer;
  - a `pattern_gather` entry that is not a pattern position;
  - a dense index outside the dense buffer.

## Findings

| source | as written | input that shows it | evidently intended | confidence | as-written member | corrected member |
|---|---|---|---|---|---|---|
| src/Spatter/kernels/multi_gather_kernel.cpp:84-88 | `j = elem % count`, `i = elem / count`, and `dense_idx = j + pattern_length * (i % wrap)` (the same lines in multi_scatter_kernel.cpp:84-91) | count = 2, pattern_length = 1, wrap = 1, element 1: j = 1, so dense_idx = 1, outside the band `[0, pattern_length * wrap)` | split the element index by pattern_length, as in the header formula `dense[j + pattern_length * (i % wrap)]`, so dense_idx stays in its band | not executed | Indexing.DecomposeCounterexample | Indexing.IntendedDecomposeInBounds |
| src/Spatter/kernels/scatter_kernel.cpp:46,55-57 | the pattern accessor's pages are 4096 bytes, but the dense tile is read to `l1_buffer_addr + 2048`, over the pattern page's second half | an all-zero pattern tile read beside a dense tile starting `[1, 0]`: pattern entry 512 reads as 1, so element 512 is scattered to slot 1 instead of slot 0 | keep the 1024-word pattern page apart from the dense tile, so every element uses its own pattern entry | not executed | Scatter.DenseReadClobbersPattern | Scatter.ValueLands |

For the first finding, `Indexing.Decompose` is the decomposition as
written, and the multi kernels' models use it: `j = elem % count`,
`i = elem / count`. Their `Admissible` predicates demand that every element
of the range gets a dense index inside the dense buffer, which the code does
not check. The corrected decomposition is `Indexing.IntendedDecompose`,
which splits the element index by `pattern_length`;
`Indexing.IntendedDecomposeInBounds` proves that its dense index stays in
its band. `Indexing.DecomposeAgreesWhenCountIsLength` shows that the two
decompositions coincide when `count == pattern_length`. From it,
`MultiScatter.StoreAsIntendedWhenCountIsLength` and
`MultiGather.StoreAsIntendedWhenCountIsLength` show that for such callers
each element makes the store of the header formula.

For the second finding, `Scatter.L1Bytes` builds the 4096 bytes at the
pattern L1 address as the code leaves them: the pattern page's bytes, with
bytes 2048 to 4095 overwritten by the dense tile. `Scatter.L1PatternWords`
reads them back as words, and `Scatter.DenseReadClobbersPattern` proves
what the element loop then sees. The scatter kernel's model follows the code.
`Scatter.KernelMain` reads both pages into one byte array (`Scatter.LoadTile`)
and reads each element's pattern entry and value back through the two casts
(`Scatter.ReadElement`). Its stores are `Scatter.Writes`, built from
`Scatter.AsWrittenTarget`, and its log is made of those stores' tiles.
`Scatter.AsWrittenValueLands` states where values end up as written. The
corrected behaviour is `Scatter.IntendedWrites`, with every element using its
own pattern entry; `Scatter.ValueLands` proves that every element then lands at
`pattern[g] + delta * (g / 1024)`. `Scatter.AgreesBelowHalf` and
`Scatter.SmallRunAsIntended` show that the two agree in the lower half of
every tile, and for runs of at most 512 elements.
