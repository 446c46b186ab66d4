/**
 * multi_scatter_kernel.cpp: one core's share of the double-indirection scatter
 * `sparse[pattern[pattern_scatter[j]] + delta * i] = dense[j + pattern_length * (i % wrap)]`,
 * with one-page caches in front of every buffer and a write-back cache on the
 * sparse buffer.
 */
module MultiScatter {
  import opened Words
  import opened WriteLog
  import opened TileStore
  import opened Indexing

  /** The kernel's arguments and the contents of the buffers it reads. */
  datatype ScatterInputs = ScatterInputs(args: MultiArgs, pattern: seq<u32>, patternScatter: seq<u32>,
                                         dense: seq<u16>, sparseLen: nat)

  /**
   * What the kernel needs of its arguments and buffers; an empty range needs
   * nothing. The first indirection is reduced modulo `pattern_length`, so any
   * `pattern_scatter` contents are accepted.
   */
  predicate Admissible(s: ScatterInputs)
  {
    var a := s.args;
    a.start >= a.end ||
    (MultiShape(a, |s.pattern|, |s.patternScatter|, |s.dense|) && SparseShape(a, s.sparseLen))
  }

  type ScatterJob = s: ScatterInputs | Admissible(s) witness ScatterInputs(MultiArgs(0, 0, 0, 0, 0, 0, 0), [], [], [], 0)

  /**
   * The store made for element `elem`: the first indirection is reduced modulo
   * `pattern_length`, the second gives the sparse base, and the value comes
   * from the dense buffer.
   */
  function ElementWrite(s: ScatterJob, elem: u32): (w: Write)
    requires s.args.start <= elem < s.args.end
    ensures w.index < s.sparseLen
  {
    var a := s.args;
    var d := Decompose(elem, a.count, a.patternLength, a.wrap);
    var first := s.patternScatter[d.patternIdx] % a.patternLength;
    Write(SparseIndex(s.pattern[first], a.delta, d.i, a.sparseSize), s.dense[d.denseIdx])
  }

  /** The stores of elements `[start, hi)`, in loop order. */
  function Writes(s: ScatterJob, hi: u32): (w: seq<Write>)
    requires hi <= s.args.end
    ensures |w| == if hi <= s.args.start then 0 else hi - s.args.start
    ensures InBounds(w, s.sparseLen)
  {
    var w := seq(if hi <= s.args.start then 0 else hi - s.args.start,
                 k requires 0 <= k < hi - s.args.start => ElementWrite(s, s.args.start + k));
    assert forall k :: 0 <= k < |w| ==> w[k] == ElementWrite(s, s.args.start + k);
    InBoundsAll(w, s.sparseLen);
    w
  }

  /** Position `elem - start` of the store sequence is element `elem`'s store. */
  lemma WritesAt(s: ScatterJob, hi: u32, elem: u32)
    requires s.args.start <= elem < hi <= s.args.end
    ensures Writes(s, hi)[elem - s.args.start] == ElementWrite(s, elem)
  {
  }

  /** One more element adds its store at the end. */
  lemma WritesSnoc(s: ScatterJob, elem: u32)
    requires s.args.start <= elem < s.args.end
    ensures Writes(s, elem + 1) == Writes(s, elem) + [ElementWrite(s, elem)]
  {
    assert Writes(s, elem + 1) == Writes(s, elem) + [ElementWrite(s, elem)];
  }

  /**
   * After the loop over `[start, end)`, the sparse slot of element `elem` holds
   * `dense[dense_idx]`, unless a later element of the range stores to the same
   * slot.
   */
  lemma ValueLands(sparse: seq<u16>, s: ScatterJob, elem: u32)
    requires |sparse| == s.sparseLen && s.args.start <= elem < s.args.end
    requires forall later: u32 :: elem < later < s.args.end ==> ElementWrite(s, later).index != ElementWrite(s, elem).index
    ensures var a := s.args;
            var d := Decompose(elem, a.count, a.patternLength, a.wrap);
            var target := SparseIndex(s.pattern[s.patternScatter[d.patternIdx] % a.patternLength], a.delta, d.i, a.sparseSize);
            Apply(sparse, Writes(s, a.end))[target] == s.dense[d.denseIdx]
  {
    var w := Writes(s, s.args.end);
    var j := elem - s.args.start;
    WritesAt(s, s.args.end, elem);
    forall j' | j < j' < |w| ensures w[j'].index != w[j].index {
      WritesAt(s, s.args.end, s.args.start + j');
    }
    LastWriterWins(sparse, w, j);
  }

  /** A sparse slot that no element of the range targets keeps its old value. */
  lemma SlotUntouched(sparse: seq<u16>, s: ScatterJob, k: nat)
    requires |sparse| == s.sparseLen && k < |sparse|
    requires forall elem: u32 :: s.args.start <= elem < s.args.end ==> ElementWrite(s, elem).index != k
    ensures Apply(sparse, Writes(s, s.args.end))[k] == sparse[k]
  {
    var w := Writes(s, s.args.end);
    forall j | 0 <= j < |w| ensures w[j].index != k {
      WritesAt(s, s.args.end, s.args.start + j);
    }
    Untouched(sparse, w, k);
  }

  /**
   * When `count == pattern_length` the kernel makes the store its header
   * comment describes: with `elem = i * pattern_length + j`, the value
   * `dense[j + pattern_length * (i % wrap)]` goes to
   * `pattern[pattern_scatter[j] % pattern_length] + delta * i`.
   */
  lemma StoreAsIntendedWhenCountIsLength(s: ScatterJob, elem: u32)
    requires s.args.start <= elem < s.args.end && s.args.count == s.args.patternLength
    ensures var a := s.args;
            var d := IntendedDecompose(elem, a.patternLength, a.wrap);
            d.i * a.patternLength + d.j == elem &&
            ElementWrite(s, elem) ==
              Write(SparseIndex(s.pattern[s.patternScatter[d.j] % a.patternLength], a.delta, d.i, a.sparseSize),
                    s.dense[d.denseIdx])
  {
    DecomposeAgreesWhenCountIsLength(elem, s.args.patternLength, s.args.wrap);
    DecomposeSplitsIndex(elem, s.args.count, s.args.patternLength, s.args.wrap);
  }

  /**
   * Steps 1 to 7 of element `elem`: the dense value and the sparse index, each
   * operand through its one-page cache, in the kernel's order. The result is
   * the element's store.
   */
  method NextWrite(s: ScatterJob, elem: u32,
                   cachedPattern: u32, patternBuf: array<u32>,
                   cachedPatternScatter: u32, patternScatterBuf: array<u32>,
                   cachedDense: u32, denseBuf: array<u16>)
    returns (cp: u32, cps: u32, cd: u32, w: Write)
    requires patternBuf != patternScatterBuf && s.args.start <= elem < s.args.end
    requires Cached(s.pattern, cachedPattern, IndexPageWords, patternBuf)
    requires Cached(s.patternScatter, cachedPatternScatter, IndexPageWords, patternScatterBuf)
    requires Cached(s.dense, cachedDense, TileElems, denseBuf)
    modifies patternBuf, patternScatterBuf, denseBuf
    ensures Cached(s.pattern, cp, IndexPageWords, patternBuf)
    ensures Cached(s.patternScatter, cps, IndexPageWords, patternScatterBuf)
    ensures Cached(s.dense, cd, TileElems, denseBuf)
    ensures w == ElementWrite(s, elem)
  {
    var value, target;
    cd, value := DenseValue(s, elem, cachedDense, denseBuf);
    cp, cps, target := SparseTarget(s, elem, cachedPattern, patternBuf, cachedPatternScatter, patternScatterBuf);
    w := Write(target, value);
  }

  /** Steps 1 to 3 of element `elem`: `dense_idx` and the value read there through the dense cache. */
  method DenseValue(s: ScatterJob, elem: u32, cachedDense: u32, denseBuf: array<u16>) returns (cd: u32, value: u16)
    requires s.args.start <= elem < s.args.end
    requires Cached(s.dense, cachedDense, TileElems, denseBuf)
    modifies denseBuf
    ensures Cached(s.dense, cd, TileElems, denseBuf)
    ensures value == ElementWrite(s, elem).value
  {
    var a := s.args;
    var d := Decompose(elem, a.count, a.patternLength, a.wrap);
    TileInRange(d.denseIdx, |s.dense|);
    cd, value := CachedLoad(s.dense, d.denseIdx, TileElems, cachedDense, denseBuf);
  }

  /**
   * Steps 4 to 7 of element `elem`: the first indirection through the
   * pattern_scatter cache, reduced modulo `pattern_length`, then the sparse
   * base through the pattern cache, then the sparse index.
   */
  method SparseTarget(s: ScatterJob, elem: u32, cachedPattern: u32, patternBuf: array<u32>,
                      cachedPatternScatter: u32, patternScatterBuf: array<u32>)
    returns (cp: u32, cps: u32, target: u32)
    requires patternBuf != patternScatterBuf && s.args.start <= elem < s.args.end
    requires Cached(s.pattern, cachedPattern, IndexPageWords, patternBuf)
    requires Cached(s.patternScatter, cachedPatternScatter, IndexPageWords, patternScatterBuf)
    modifies patternBuf, patternScatterBuf
    ensures Cached(s.pattern, cp, IndexPageWords, patternBuf)
    ensures Cached(s.patternScatter, cps, IndexPageWords, patternScatterBuf)
    ensures target == ElementWrite(s, elem).index
  {
    var a := s.args;
    var d := Decompose(elem, a.count, a.patternLength, a.wrap);
    var first, base;
    cps, first := CachedIndexLoad(s.patternScatter, d.patternIdx, cachedPatternScatter, patternScatterBuf);
    first := first % a.patternLength;
    cp, base := CachedIndexLoad(s.pattern, first, cachedPattern, patternBuf);
    target := SparseIndex(base, a.delta, d.i, a.sparseSize);
  }

  /**
   * The kernel: `s` holds the runtime arguments and the contents of the three
   * buffers it only reads. The sparse buffer ends up exactly as the plain
   * element-by-element loop leaves it, and an empty range does not touch it.
   */
  method KernelMain(s: ScatterJob, sparse: DramBuffer<u16>)
    requires s.sparseLen == |sparse.data|
    modifies sparse
    ensures sparse.data == Apply(old(sparse.data), Writes(s, s.args.end))
    ensures s.args.start >= s.args.end ==> sparse.trace == old(sparse.trace)
  {
    if s.args.start >= s.args.end {
      return;
    }
    var patternBuf := new u32[IndexPageWords];
    var patternScatterBuf := new u32[IndexPageWords];
    var sparseBuf := new u16[TileElems];
    var denseBuf := new u16[TileElems];
    var cachedSparse := ScatterRange(s, sparse, patternBuf, patternScatterBuf, sparseBuf, denseBuf);
    Flush(sparse, TileElems, cachedSparse, sparseBuf);
  }

  /**
   * The element loop of the kernel, from empty caches. Afterwards the sparse
   * buffer with its cached tile written back is the result of the plain loop.
   */
  method ScatterRange(s: ScatterJob, sparse: DramBuffer<u16>,
                      patternBuf: array<u32>, patternScatterBuf: array<u32>,
                      sparseBuf: array<u16>, denseBuf: array<u16>)
    returns (cachedSparse: u32)
    requires patternBuf != patternScatterBuf && sparseBuf != denseBuf
    requires patternBuf.Length == IndexPageWords && patternScatterBuf.Length == IndexPageWords
    requires sparseBuf.Length == TileElems && denseBuf.Length == TileElems
    requires s.args.start < s.args.end && s.sparseLen == |sparse.data|
    modifies sparse, patternBuf, patternScatterBuf, sparseBuf, denseBuf
    ensures Dirty(sparse, cachedSparse, TileElems, sparseBuf) && |sparse.data| == s.sparseLen
    ensures View(sparse.data, cachedSparse, TileElems, sparseBuf[..]) == Apply(old(sparse.data), Writes(s, s.args.end))
  {
    var cachedPatternScatter: u32, cachedPattern: u32, cachedDense: u32 := NoTile, NoTile, NoTile;
    cachedSparse := NoTile;
    ghost var s0 := sparse.data;

    var elem := s.args.start;
    while elem < s.args.end
      invariant s.args.start <= elem <= s.args.end
      invariant Cached(s.pattern, cachedPattern, IndexPageWords, patternBuf)
      invariant Cached(s.patternScatter, cachedPatternScatter, IndexPageWords, patternScatterBuf)
      invariant Cached(s.dense, cachedDense, TileElems, denseBuf)
      invariant Dirty(sparse, cachedSparse, TileElems, sparseBuf) && |sparse.data| == |s0|
      invariant View(sparse.data, cachedSparse, TileElems, sparseBuf[..]) == Apply(s0, Writes(s, elem))
    {
      cachedPattern, cachedPatternScatter, cachedDense, cachedSparse :=
        ScatterElement(s, elem, sparse, cachedPattern, patternBuf, cachedPatternScatter, patternScatterBuf,
                       cachedDense, denseBuf, cachedSparse, sparseBuf, s0);
      elem := elem + 1;
    }
  }

  /** One iteration of the element loop: element `elem`'s store joins the sparse buffer's view. */
  method ScatterElement(s: ScatterJob, elem: u32, sparse: DramBuffer<u16>,
                        cachedPattern: u32, patternBuf: array<u32>,
                        cachedPatternScatter: u32, patternScatterBuf: array<u32>,
                        cachedDense: u32, denseBuf: array<u16>,
                        cachedSparse: u32, sparseBuf: array<u16>,
                        ghost s0: seq<u16>)
    returns (cp: u32, cps: u32, cd: u32, cs: u32)
    requires patternBuf != patternScatterBuf && sparseBuf != denseBuf
    requires s.args.start <= elem < s.args.end && s.sparseLen == |s0|
    requires Cached(s.pattern, cachedPattern, IndexPageWords, patternBuf)
    requires Cached(s.patternScatter, cachedPatternScatter, IndexPageWords, patternScatterBuf)
    requires Cached(s.dense, cachedDense, TileElems, denseBuf)
    requires Dirty(sparse, cachedSparse, TileElems, sparseBuf) && |sparse.data| == |s0|
    requires View(sparse.data, cachedSparse, TileElems, sparseBuf[..]) == Apply(s0, Writes(s, elem))
    modifies sparse, patternBuf, patternScatterBuf, sparseBuf, denseBuf
    ensures Cached(s.pattern, cp, IndexPageWords, patternBuf)
    ensures Cached(s.patternScatter, cps, IndexPageWords, patternScatterBuf)
    ensures Cached(s.dense, cd, TileElems, denseBuf)
    ensures Dirty(sparse, cs, TileElems, sparseBuf) && |sparse.data| == |s0|
    ensures View(sparse.data, cs, TileElems, sparseBuf[..]) == Apply(s0, Writes(s, elem + 1))
  {
    var w;
    cp, cps, cd, w := NextWrite(s, elem, cachedPattern, patternBuf, cachedPatternScatter, patternScatterBuf,
                                cachedDense, denseBuf);
    cs := CachedStore(sparse, w, cachedSparse, sparseBuf, s0, Writes(s, elem));
    WritesSnoc(s, elem);
  }
}
