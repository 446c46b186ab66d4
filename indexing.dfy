/**
 * Index arithmetic shared by the kernels: how a loop index becomes a pattern
 * position, a dense position and a sparse position, all in `uint32_t`.
 */
module Indexing {
  import opened Words
  import opened TileStore

  /**
   * The runtime arguments shared by multi_gather_kernel.cpp and
   * multi_scatter_kernel.cpp (the L1 and DRAM addresses become the buffers
   * themselves). Both kernels split the loop index by `count` (`Decompose`).
   */
  datatype MultiArgs = MultiArgs(start: u32, end: u32, patternLength: u32, delta: u32,
                                 count: u32, wrap: u32, sparseSize: u32)

  /** The sparse buffer holds whole tiles within the device's DRAM, and `sparse_size_elements` of them are used. */
  predicate SparseShape(a: MultiArgs, sparseLen: nat)
  {
    sparseLen % TileElems == 0 && sparseLen <= MaxDramElems && a.sparseSize <= sparseLen
  }

  /**
   * What both multi kernels need of a non-empty range: non-zero divisors, the
   * whole pattern inside the first 2048-byte page of each index array (a
   * tile id counts 1024-word tiles while a page holds 512 words, so only
   * positions below 512 are read correctly), a tile-aligned dense buffer
   * within the device's DRAM, and every dense index inside it.
   */
  predicate MultiShape(a: MultiArgs, patternLen: nat, indirectionLen: nat, denseLen: nat)
  {
    a.count > 0 && a.wrap > 0 && a.sparseSize > 0 &&
    0 < a.patternLength <= IndexPageWords &&
    IndexPageWords <= patternLen && IndexPageWords <= indirectionLen &&
    denseLen % TileElems == 0 && denseLen <= MaxDramElems &&
    forall elem: u32 :: a.start <= elem < a.end ==>
      Decompose(elem, a.count, a.patternLength, a.wrap).denseIdx < denseLen
  }

  /** The per-element quantities of the double-indirection kernels. */
  datatype Decomp = Decomp(j: u32, i: u32, patternIdx: u32, denseIdx: u32)

  /** `dense_idx = j + pattern_length * (i % wrap)` in `uint32_t`. */
  function DenseIndex(j: u32, i: u32, patternLength: u32, wrap: u32): (r: u32)
    requires wrap > 0
    ensures j + patternLength * (i % wrap) < 0x1_0000_0000 ==> r == j + patternLength * (i % wrap)
  {
    Wrap32(j + Wrap32(patternLength * (i % wrap)))
  }

  /**
   * When `j` is a pattern position and the dense buffer `pattern_length * wrap`
   * fits in `uint32_t`, the dense index lies in band `i % wrap` of that buffer,
   * at column `j`: different outer iterations share a slot only when they agree
   * modulo `wrap`.
   */
  lemma DenseIndexInBand(j: u32, i: u32, patternLength: u32, wrap: u32)
    requires wrap > 0 && j < patternLength && patternLength * wrap <= 0x1_0000_0000
    ensures DenseIndex(j, i, patternLength, wrap) < patternLength * wrap
    ensures DenseIndex(j, i, patternLength, wrap) % patternLength == j
    ensures DenseIndex(j, i, patternLength, wrap) / patternLength == i % wrap
  {
    BandLemma(j, i % wrap, patternLength, wrap);
  }

  lemma BandLemma(j: nat, m: nat, len: nat, wrap: nat)
    requires j < len && m < wrap && len * wrap <= 0x1_0000_0000
    ensures len * m < 0x1_0000_0000 && j + len * m < len * wrap
    ensures (j + len * m) % len == j && (j + len * m) / len == m
  {
    MulMonotone(len, m, wrap - 1);
    assert len * (wrap - 1) == len * wrap - len;
    DivModUnique(j + len * m, len, m, j);
  }

  /**
   * The loop-index decomposition of multi_gather_kernel.cpp and
   * multi_scatter_kernel.cpp as written: `j = elem % count`, `i = elem / count`,
   * `pattern_idx = j % pattern_length`, `dense_idx = j + pattern_length * (i % wrap)`.
   */
  function Decompose(elem: u32, count: u32, patternLength: u32, wrap: u32): (d: Decomp)
    requires count > 0 && patternLength > 0 && wrap > 0
    ensures d.j < count
    ensures d.patternIdx < patternLength
    ensures d.j < patternLength ==> d.patternIdx == d.j
  {
    var j := elem % count;
    var i := elem / count;
    if j < patternLength then
      DivModUnique(j, patternLength, 0, j);
      Decomp(j, i, j % patternLength, DenseIndex(j, i, patternLength, wrap))
    else
      Decomp(j, i, j % patternLength, DenseIndex(j, i, patternLength, wrap))
  }

  /**
   * The decomposition the kernels' header comments describe (and that
   * gather_kernel.cpp and gather_scatter_kernel.cpp use): element
   * `elem = i * pattern_length + j` with `j` a pattern position.
   */
  function IntendedDecompose(elem: u32, patternLength: u32, wrap: u32): (d: Decomp)
    requires patternLength > 0 && wrap > 0
    ensures d.j < patternLength
    ensures d.patternIdx == d.j
  {
    var j := elem % patternLength;
    var i := elem / patternLength;
    Decomp(j, i, j, DenseIndex(j, i, patternLength, wrap))
  }

  /**
   * Both decompositions split the loop index into an outer iteration and a
   * column: `elem = i * count + j` as written, `elem = i * pattern_length + j`
   * as intended.
   */
  lemma DecomposeSplitsIndex(elem: u32, count: u32, patternLength: u32, wrap: u32)
    requires count > 0 && patternLength > 0 && wrap > 0
    ensures var d := Decompose(elem, count, patternLength, wrap); d.i * count + d.j == elem
    ensures var d := IntendedDecompose(elem, patternLength, wrap); d.i * patternLength + d.j == elem
  {
    DivModSplit(elem, count);
    DivModSplit(elem, patternLength);
  }

  /**
   * Over the iteration space `[0, count * pattern_length)` the intended
   * decomposition gives `i < count`, and its dense index stays inside the
   * `pattern_length * wrap` dense buffer.
   */
  lemma IntendedDecomposeInBounds(elem: u32, count: u32, patternLength: u32, wrap: u32)
    requires patternLength > 0 && wrap > 0 && patternLength * wrap <= 0x1_0000_0000
    requires elem < count * patternLength
    ensures IntendedDecompose(elem, patternLength, wrap).i < count
    ensures IntendedDecompose(elem, patternLength, wrap).denseIdx < patternLength * wrap
  {
    var d := IntendedDecompose(elem, patternLength, wrap);
    DecomposeSplitsIndex(elem, 1, patternLength, wrap);
    DenseIndexInBand(d.j, d.i, patternLength, wrap);
    if d.i >= count {
      MulMonotone(patternLength, count, d.i);
    }
  }

  /** When `count == pattern_length` the code computes exactly the intended decomposition. */
  lemma DecomposeAgreesWhenCountIsLength(elem: u32, patternLength: u32, wrap: u32)
    requires patternLength > 0 && wrap > 0
    ensures Decompose(elem, patternLength, patternLength, wrap) == IntendedDecompose(elem, patternLength, wrap)
  {
    var j := elem % patternLength;
    DivModUnique(j, patternLength, 0, j);
  }

  /**
   * With `wrap = 1` the dense buffer holds `pattern_length` elements. When
   * `count > pattern_length`, element `pattern_length` is meant to be
   * (i, j) = (1, 0) and land on dense slot 0; as written it becomes
   * (i, j) = (0, pattern_length) and lands on slot `pattern_length`, one past
   * the end of the dense buffer (for instance `count = 3`, `pattern_length = 2`).
   */
  lemma DecomposeCounterexample(count: u32, patternLength: u32)
    requires 0 < patternLength < count
    ensures IntendedDecompose(patternLength, patternLength, 1).denseIdx == 0
    ensures Decompose(patternLength, count, patternLength, 1).denseIdx == patternLength
  {
    DivModUnique(patternLength, count, 0, patternLength);
    DivModUnique(patternLength, patternLength, 1, 0);
    assert DenseIndex(patternLength, 0, patternLength, 1) == patternLength;
    assert DenseIndex(0, 1, patternLength, 1) == 0;
  }

  /** `(base + delta * i) % sparse_size_elements` in `uint32_t`: always a valid sparse position. */
  function SparseIndex(base: u32, delta: u32, i: u32, size: u32): (r: u32)
    requires size > 0
    ensures r < size
  {
    Wrap32(base + Wrap32(delta * i)) % size
  }

  /** A sparse position that is already in range is kept as it is. */
  lemma SparseIndexExact(base: u32, delta: u32, i: u32, size: u32)
    requires size > 0 && base + delta * i < size
    ensures SparseIndex(base, delta, i, size) == base + delta * i
  {
    var prod := delta * i;
    assert Wrap32(prod) == prod;
    var s := base + prod;
    assert Wrap32(s) == s;
    DivModUnique(s, size, 0, s);
  }

  /** `base + delta * it` in `uint32_t`, with no reduction to the buffer's size. */
  function StridedIndex(base: u32, delta: u32, it: u32): (r: u32)
    ensures base + delta * it < 0x1_0000_0000 ==> r == base + delta * it
  {
    var prod := delta * it;
    Wrap32(base + Wrap32(prod))
  }

  /**
   * `pattern_data[elem % pattern_length] + delta * (elem / pattern_length)`,
   * read from the L1 copy of the pattern's first page.
   */
  method PatternIndex(pattern: seq<u32>, patternBuf: array<u32>, patternLength: u32, delta: u32, elem: u32)
    returns (idx: u32)
    requires 0 < patternLength <= IndexPageWords <= |pattern|
    requires patternBuf[..] == PageOf(pattern, 0, IndexPageWords)
    ensures idx == StridedIndex(pattern[elem % patternLength], delta, elem / patternLength)
  {
    var p := elem % patternLength;
    PageOfAt(pattern, 0, IndexPageWords, p);
    idx := StridedIndex(patternBuf[p], delta, elem / patternLength);
  }

  /**
   * A cached load from an index array at a position below 512: the position
   * lies in tile 0, which is what the cache then holds.
   */
  method CachedIndexLoad(src: seq<u32>, idx: u32, cached: u32, buf: array<u32>) returns (c: u32, v: u32)
    requires Cached(src, cached, IndexPageWords, buf) && idx < IndexPageWords <= |src|
    modifies buf
    ensures Cached(src, c, IndexPageWords, buf) && c == 0 && v == src[idx]
  {
    c, v := CachedLoad(src, idx, IndexPageWords, cached, buf);
  }
}
