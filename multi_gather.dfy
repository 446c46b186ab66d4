/**
 * multi_gather_kernel.cpp: one core's share of the double-indirection gather
 * `dense[j + pattern_length * (i % wrap)] = sparse[pattern[pattern_gather[j]] + delta * i]`,
 * with one-page caches in front of every buffer and a write-back cache on the
 * dense buffer.
 */
module MultiGather {
  import opened Words
  import opened WriteLog
  import opened TileStore
  import opened Indexing

  /** The kernel's arguments and the contents of the buffers it reads. */
  datatype GatherInputs = GatherInputs(args: MultiArgs, pattern: seq<u32>, patternGather: seq<u32>,
                                       sparse: seq<u16>, denseLen: nat)

  /**
   * What the kernel needs of its arguments and buffers; an empty range needs
   * nothing. Unlike the scatter, the first indirection is not reduced, so the
   * caller must guarantee that every `pattern_gather` entry is a pattern position.
   */
  predicate Admissible(g: GatherInputs)
  {
    var a := g.args;
    a.start >= a.end ||
    (MultiShape(a, |g.pattern|, |g.patternGather|, g.denseLen) && SparseShape(a, |g.sparse|) &&
     forall k :: 0 <= k < a.patternLength ==> g.patternGather[k] < a.patternLength)
  }

  type GatherJob = g: GatherInputs | Admissible(g) witness GatherInputs(MultiArgs(0, 0, 0, 0, 0, 0, 0), [], [], [], 0)

  /**
   * The store made for element `elem`: the sparse value found through both
   * indirections goes to the element's dense index.
   */
  function ElementWrite(g: GatherJob, elem: u32): (w: Write)
    requires g.args.start <= elem < g.args.end
    ensures w.index < g.denseLen
  {
    var a := g.args;
    var d := Decompose(elem, a.count, a.patternLength, a.wrap);
    var base := g.pattern[g.patternGather[d.patternIdx]];
    Write(d.denseIdx, g.sparse[SparseIndex(base, a.delta, d.i, a.sparseSize)])
  }

  /** The stores of elements `[start, hi)`, in loop order. */
  function Writes(g: GatherJob, hi: u32): (w: seq<Write>)
    requires hi <= g.args.end
    ensures |w| == if hi <= g.args.start then 0 else hi - g.args.start
    ensures InBounds(w, g.denseLen)
  {
    var w := seq(if hi <= g.args.start then 0 else hi - g.args.start,
                 k requires 0 <= k < hi - g.args.start => ElementWrite(g, g.args.start + k));
    assert forall k :: 0 <= k < |w| ==> w[k] == ElementWrite(g, g.args.start + k);
    InBoundsAll(w, g.denseLen);
    w
  }

  /** Position `elem - start` of the store sequence is element `elem`'s store. */
  lemma WritesAt(g: GatherJob, hi: u32, elem: u32)
    requires g.args.start <= elem < hi <= g.args.end
    ensures Writes(g, hi)[elem - g.args.start] == ElementWrite(g, elem)
  {
  }

  /** One more element adds its store at the end. */
  lemma WritesSnoc(g: GatherJob, elem: u32)
    requires g.args.start <= elem < g.args.end
    ensures Writes(g, elem + 1) == Writes(g, elem) + [ElementWrite(g, elem)]
  {
    assert Writes(g, elem + 1) == Writes(g, elem) + [ElementWrite(g, elem)];
  }

  /**
   * After the loop over `[start, end)`, the dense slot of element `elem` holds
   * the sparse value at `pattern[pattern_gather[j]] + delta * i` (modulo the
   * sparse size), unless a later element of the range stores to the same slot.
   */
  lemma ValueLands(dense: seq<u16>, g: GatherJob, elem: u32)
    requires |dense| == g.denseLen && g.args.start <= elem < g.args.end
    requires forall later: u32 :: elem < later < g.args.end ==> ElementWrite(g, later).index != ElementWrite(g, elem).index
    ensures var a := g.args;
            var d := Decompose(elem, a.count, a.patternLength, a.wrap);
            var source := SparseIndex(g.pattern[g.patternGather[d.patternIdx]], a.delta, d.i, a.sparseSize);
            Apply(dense, Writes(g, a.end))[d.denseIdx] == g.sparse[source]
  {
    var w := Writes(g, g.args.end);
    var j := elem - g.args.start;
    WritesAt(g, g.args.end, elem);
    forall j' | j < j' < |w| ensures w[j'].index != w[j].index {
      WritesAt(g, g.args.end, g.args.start + j');
    }
    LastWriterWins(dense, w, j);
  }

  /** A dense slot that no element of the range targets keeps its old value. */
  lemma SlotUntouched(dense: seq<u16>, g: GatherJob, k: nat)
    requires |dense| == g.denseLen && k < |dense|
    requires forall elem: u32 :: g.args.start <= elem < g.args.end ==> ElementWrite(g, elem).index != k
    ensures Apply(dense, Writes(g, g.args.end))[k] == dense[k]
  {
    var w := Writes(g, g.args.end);
    forall j | 0 <= j < |w| ensures w[j].index != k {
      WritesAt(g, g.args.end, g.args.start + j);
    }
    Untouched(dense, w, k);
  }

  /**
   * When `count == pattern_length` the kernel makes the store its header
   * comment describes: with `elem = i * pattern_length + j`, dense slot
   * `j + pattern_length * (i % wrap)` receives the sparse value at
   * `pattern[pattern_gather[j]] + delta * i`.
   */
  lemma StoreAsIntendedWhenCountIsLength(g: GatherJob, elem: u32)
    requires g.args.start <= elem < g.args.end && g.args.count == g.args.patternLength
    ensures var a := g.args;
            var d := IntendedDecompose(elem, a.patternLength, a.wrap);
            d.i * a.patternLength + d.j == elem &&
            ElementWrite(g, elem) ==
              Write(d.denseIdx, g.sparse[SparseIndex(g.pattern[g.patternGather[d.j]], a.delta, d.i, a.sparseSize)])
  {
    DecomposeAgreesWhenCountIsLength(elem, g.args.patternLength, g.args.wrap);
    DecomposeSplitsIndex(elem, g.args.count, g.args.patternLength, g.args.wrap);
  }

  /**
   * With the identity as `pattern_gather`, the second indirection disappears:
   * element `elem` reads the sparse value at `pattern[j] + delta * i`
   * (modulo the sparse size), a single-indirection gather.
   */
  lemma IdentityIndirection(g: GatherJob, elem: u32)
    requires g.args.start <= elem < g.args.end
    requires forall k :: 0 <= k < g.args.patternLength ==> g.patternGather[k] == k
    ensures var a := g.args;
            var d := Decompose(elem, a.count, a.patternLength, a.wrap);
            ElementWrite(g, elem) ==
              Write(d.denseIdx, g.sparse[SparseIndex(g.pattern[d.j % a.patternLength], a.delta, d.i, a.sparseSize)])
  {
  }

  /**
   * Steps 1 to 6 of element `elem`: the sparse value, found through the
   * pattern_gather, pattern and sparse caches. The result is the element's store.
   */
  method NextWrite(g: GatherJob, elem: u32,
                   cachedPattern: u32, patternBuf: array<u32>,
                   cachedPatternGather: u32, patternGatherBuf: array<u32>,
                   cachedSparse: u32, sparseBuf: array<u16>)
    returns (cp: u32, cpg: u32, cs: u32, w: Write)
    requires patternBuf != patternGatherBuf && g.args.start <= elem < g.args.end
    requires Cached(g.pattern, cachedPattern, IndexPageWords, patternBuf)
    requires Cached(g.patternGather, cachedPatternGather, IndexPageWords, patternGatherBuf)
    requires Cached(g.sparse, cachedSparse, TileElems, sparseBuf)
    modifies patternBuf, patternGatherBuf, sparseBuf
    ensures Cached(g.pattern, cp, IndexPageWords, patternBuf)
    ensures Cached(g.patternGather, cpg, IndexPageWords, patternGatherBuf)
    ensures Cached(g.sparse, cs, TileElems, sparseBuf)
    ensures w == ElementWrite(g, elem)
  {
    var sparseIdx, value;
    cp, cpg, sparseIdx := SparseSource(g, elem, cachedPattern, patternBuf, cachedPatternGather, patternGatherBuf);
    TileInRange(sparseIdx, |g.sparse|);
    cs, value := CachedLoad(g.sparse, sparseIdx, TileElems, cachedSparse, sparseBuf);
    var a := g.args;
    w := Write(Decompose(elem, a.count, a.patternLength, a.wrap).denseIdx, value);
  }

  /**
   * Steps 1 to 4 of element `elem`: the first indirection through the
   * pattern_gather cache, the sparse base through the pattern cache, then the
   * sparse index.
   */
  method SparseSource(g: GatherJob, elem: u32, cachedPattern: u32, patternBuf: array<u32>,
                      cachedPatternGather: u32, patternGatherBuf: array<u32>)
    returns (cp: u32, cpg: u32, sparseIdx: u32)
    requires patternBuf != patternGatherBuf && g.args.start <= elem < g.args.end
    requires Cached(g.pattern, cachedPattern, IndexPageWords, patternBuf)
    requires Cached(g.patternGather, cachedPatternGather, IndexPageWords, patternGatherBuf)
    modifies patternBuf, patternGatherBuf
    ensures Cached(g.pattern, cp, IndexPageWords, patternBuf)
    ensures Cached(g.patternGather, cpg, IndexPageWords, patternGatherBuf)
    ensures var a := g.args;
            var d := Decompose(elem, a.count, a.patternLength, a.wrap);
            sparseIdx == SparseIndex(g.pattern[g.patternGather[d.patternIdx]], a.delta, d.i, a.sparseSize) &&
            sparseIdx < |g.sparse|
  {
    var a := g.args;
    var d := Decompose(elem, a.count, a.patternLength, a.wrap);
    var first, base;
    cpg, first := CachedIndexLoad(g.patternGather, d.patternIdx, cachedPatternGather, patternGatherBuf);
    cp, base := CachedIndexLoad(g.pattern, first, cachedPattern, patternBuf);
    sparseIdx := SparseIndex(base, a.delta, d.i, a.sparseSize);
  }

  /**
   * The kernel: `g` holds the runtime arguments and the contents of the three
   * buffers it only reads. The dense buffer ends up exactly as the plain
   * element-by-element loop leaves it, and an empty range does not touch it.
   */
  method KernelMain(g: GatherJob, dense: DramBuffer<u16>)
    requires g.denseLen == |dense.data|
    modifies dense
    ensures dense.data == Apply(old(dense.data), Writes(g, g.args.end))
    ensures g.args.start >= g.args.end ==> dense.trace == old(dense.trace)
  {
    if g.args.start >= g.args.end {
      return;
    }
    var patternBuf := new u32[IndexPageWords];
    var patternGatherBuf := new u32[IndexPageWords];
    var sparseBuf := new u16[TileElems];
    var denseBuf := new u16[TileElems];
    var cachedDense := GatherRange(g, dense, patternBuf, patternGatherBuf, sparseBuf, denseBuf);
    Flush(dense, TileElems, cachedDense, denseBuf);
  }

  /**
   * The element loop of the kernel, from empty caches. Afterwards the dense
   * buffer with its cached tile written back is the result of the plain loop.
   */
  method GatherRange(g: GatherJob, dense: DramBuffer<u16>,
                     patternBuf: array<u32>, patternGatherBuf: array<u32>,
                     sparseBuf: array<u16>, denseBuf: array<u16>)
    returns (cachedDense: u32)
    requires patternBuf != patternGatherBuf && sparseBuf != denseBuf
    requires patternBuf.Length == IndexPageWords && patternGatherBuf.Length == IndexPageWords
    requires sparseBuf.Length == TileElems && denseBuf.Length == TileElems
    requires g.args.start < g.args.end && g.denseLen == |dense.data|
    modifies dense, patternBuf, patternGatherBuf, sparseBuf, denseBuf
    ensures Dirty(dense, cachedDense, TileElems, denseBuf) && |dense.data| == g.denseLen
    ensures View(dense.data, cachedDense, TileElems, denseBuf[..]) == Apply(old(dense.data), Writes(g, g.args.end))
  {
    var cachedPatternGather: u32, cachedPattern: u32, cachedSparse: u32 := NoTile, NoTile, NoTile;
    cachedDense := NoTile;
    ghost var d0 := dense.data;

    var elem := g.args.start;
    while elem < g.args.end
      invariant g.args.start <= elem <= g.args.end
      invariant Cached(g.pattern, cachedPattern, IndexPageWords, patternBuf)
      invariant Cached(g.patternGather, cachedPatternGather, IndexPageWords, patternGatherBuf)
      invariant Cached(g.sparse, cachedSparse, TileElems, sparseBuf)
      invariant Dirty(dense, cachedDense, TileElems, denseBuf) && |dense.data| == |d0|
      invariant View(dense.data, cachedDense, TileElems, denseBuf[..]) == Apply(d0, Writes(g, elem))
    {
      cachedPattern, cachedPatternGather, cachedSparse, cachedDense :=
        GatherElement(g, elem, dense, cachedPattern, patternBuf, cachedPatternGather, patternGatherBuf,
                      cachedSparse, sparseBuf, cachedDense, denseBuf, d0);
      elem := elem + 1;
    }
  }

  /** One iteration of the element loop: element `elem`'s store joins the dense buffer's view. */
  method GatherElement(g: GatherJob, elem: u32, dense: DramBuffer<u16>,
                       cachedPattern: u32, patternBuf: array<u32>,
                       cachedPatternGather: u32, patternGatherBuf: array<u32>,
                       cachedSparse: u32, sparseBuf: array<u16>,
                       cachedDense: u32, denseBuf: array<u16>,
                       ghost d0: seq<u16>)
    returns (cp: u32, cpg: u32, cs: u32, cd: u32)
    requires patternBuf != patternGatherBuf && sparseBuf != denseBuf
    requires g.args.start <= elem < g.args.end && g.denseLen == |d0|
    requires Cached(g.pattern, cachedPattern, IndexPageWords, patternBuf)
    requires Cached(g.patternGather, cachedPatternGather, IndexPageWords, patternGatherBuf)
    requires Cached(g.sparse, cachedSparse, TileElems, sparseBuf)
    requires Dirty(dense, cachedDense, TileElems, denseBuf) && |dense.data| == |d0|
    requires View(dense.data, cachedDense, TileElems, denseBuf[..]) == Apply(d0, Writes(g, elem))
    modifies dense, patternBuf, patternGatherBuf, sparseBuf, denseBuf
    ensures Cached(g.pattern, cp, IndexPageWords, patternBuf)
    ensures Cached(g.patternGather, cpg, IndexPageWords, patternGatherBuf)
    ensures Cached(g.sparse, cs, TileElems, sparseBuf)
    ensures Dirty(dense, cd, TileElems, denseBuf) && |dense.data| == |d0|
    ensures View(dense.data, cd, TileElems, denseBuf[..]) == Apply(d0, Writes(g, elem + 1))
  {
    var w;
    cp, cpg, cs, w := NextWrite(g, elem, cachedPattern, patternBuf, cachedPatternGather, patternGatherBuf,
                                cachedSparse, sparseBuf);
    cd := CachedStore(dense, w, cachedDense, denseBuf, d0, Writes(g, elem));
    WritesSnoc(g, elem);
  }
}
