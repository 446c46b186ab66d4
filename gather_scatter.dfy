/**
 * gather_scatter_kernel.cpp: one core's share of the sparse-to-sparse copy
 * `sparse_scatter[pattern_scatter[j] + delta_scatter * i] = sparse_gather[pattern_gather[j] + delta_gather * i]`,
 * with both patterns read once from their first page, a one-tile cache on the
 * source and a write-back cache on the destination.
 */
module GatherScatter {
  import opened Words
  import opened WriteLog
  import opened TileStore
  import opened Indexing

  /** The runtime arguments (the L1 and DRAM addresses become the buffers themselves). */
  datatype CopyArgs = CopyArgs(start: u32, numElements: u32, deltaGather: u32, deltaScatter: u32,
                               patternLength: u32)

  /** `end_element = start_element + num_elements_per_core` in `uint32_t`. */
  function End(a: CopyArgs): (e: u32)
    ensures a.start + a.numElements < 0x1_0000_0000 ==> e == a.start + a.numElements
  {
    Wrap32(a.start + a.numElements)
  }

  /** A share that runs past 2^32 wraps its end below its start, so the core does no element at all. */
  lemma WrappedShareIsEmpty(a: CopyArgs)
    requires a.start + a.numElements >= 0x1_0000_0000
    ensures End(a) < a.start
  {
    var e := a.start + a.numElements;
    assert e - 0x1_0000_0000 < 0x1_0000_0000;
    DivModUnique(e, 0x1_0000_0000, 1, e - 0x1_0000_0000);
  }

  /** The kernel's arguments and the contents of the buffers it only reads. */
  datatype CopyInputs = CopyInputs(args: CopyArgs, patternGather: seq<u32>, patternScatter: seq<u32>,
                                   sparseGather: seq<u16>, scatterLen: nat)

  /** `src_index = pattern_gather[elem % pattern_length] + delta_gather * (elem / pattern_length)`. */
  function Source(g: CopyInputs, elem: u32): (r: u32)
    requires 0 < g.args.patternLength <= IndexPageWords <= |g.patternGather|
    ensures var a := g.args;
            var base := g.patternGather[elem % a.patternLength] + a.deltaGather * (elem / a.patternLength);
            base < 0x1_0000_0000 ==> r == base
  {
    var a := g.args;
    DivModBounds(elem, a.patternLength);
    StridedIndex(g.patternGather[elem % a.patternLength], a.deltaGather, elem / a.patternLength)
  }

  /** `dst_index = pattern_scatter[elem % pattern_length] + delta_scatter * (elem / pattern_length)`. */
  function Target(g: CopyInputs, elem: u32): (r: u32)
    requires 0 < g.args.patternLength <= IndexPageWords <= |g.patternScatter|
    ensures var a := g.args;
            var base := g.patternScatter[elem % a.patternLength] + a.deltaScatter * (elem / a.patternLength);
            base < 0x1_0000_0000 ==> r == base
  {
    var a := g.args;
    DivModBounds(elem, a.patternLength);
    StridedIndex(g.patternScatter[elem % a.patternLength], a.deltaScatter, elem / a.patternLength)
  }

  /**
   * What the kernel needs: both index arrays hold their first 2048-byte page
   * (it is read even for an empty share), both sparse buffers are whole tiles,
   * and a non-empty share has a non-zero pattern length no longer than that
   * page, with every source and destination index inside its buffer (the
   * kernel reduces neither).
   */
  predicate Admissible(g: CopyInputs)
  {
    var a := g.args;
    IndexPageWords <= |g.patternGather| && IndexPageWords <= |g.patternScatter| &&
    |g.sparseGather| % TileElems == 0 && g.scatterLen % TileElems == 0 && g.scatterLen <= MaxDramElems &&
    (a.start < End(a) ==>
       0 < a.patternLength <= IndexPageWords &&
       forall elem: u32 :: a.start <= elem < End(a) ==> ElementFits(g, elem))
  }

  /** Element `elem` reads and writes inside the two sparse buffers. */
  predicate ElementFits(g: CopyInputs, elem: u32)
    requires 0 < g.args.patternLength <= IndexPageWords <= |g.patternGather| && IndexPageWords <= |g.patternScatter|
  {
    Source(g, elem) < |g.sparseGather| && Target(g, elem) < g.scatterLen
  }

  type CopyJob = g: CopyInputs | Admissible(g)
    witness CopyInputs(CopyArgs(0, 0, 0, 0, 0), seq(IndexPageWords, _ => 0), seq(IndexPageWords, _ => 0), [], 0)

  /** Every element of a non-empty share reads and writes inside its buffers. */
  lemma ElementInRange(g: CopyJob, elem: u32)
    requires g.args.start <= elem < End(g.args)
    ensures 0 < g.args.patternLength <= IndexPageWords
    ensures Source(g, elem) < |g.sparseGather| && Target(g, elem) < g.scatterLen
  {
    assert ElementFits(g, elem);
  }

  /** The store made for element `elem`: the source element goes to the destination index. */
  function ElementWrite(g: CopyJob, elem: u32): (w: Write)
    requires g.args.start <= elem < End(g.args)
    ensures w.index < g.scatterLen
  {
    ElementInRange(g, elem);
    Write(Target(g, elem), g.sparseGather[Source(g, elem)])
  }

  /** The stores of elements `[start, hi)`, in loop order. */
  function Writes(g: CopyJob, hi: u32): (w: seq<Write>)
    requires hi <= End(g.args)
    ensures |w| == if hi <= g.args.start then 0 else hi - g.args.start
    ensures InBounds(w, g.scatterLen)
  {
    var w := seq(if hi <= g.args.start then 0 else hi - g.args.start,
                 k requires 0 <= k < hi - g.args.start => ElementWrite(g, g.args.start + k));
    assert forall k :: 0 <= k < |w| ==> w[k] == ElementWrite(g, g.args.start + k);
    InBoundsAll(w, g.scatterLen);
    w
  }

  /** Position `elem - start` of the store sequence is element `elem`'s store. */
  lemma WritesAt(g: CopyJob, hi: u32, elem: u32)
    requires g.args.start <= elem < hi <= End(g.args)
    ensures Writes(g, hi)[elem - g.args.start] == ElementWrite(g, elem)
  {
  }

  /** One more element adds its store at the end. */
  lemma WritesSnoc(g: CopyJob, elem: u32)
    requires g.args.start <= elem < End(g.args)
    ensures Writes(g, elem + 1) == Writes(g, elem) + [ElementWrite(g, elem)]
  {
    assert Writes(g, elem + 1) == Writes(g, elem) + [ElementWrite(g, elem)];
  }

  /**
   * Without `uint32_t` wrap-around the two indices are the plain strided ones
   * `pattern[elem % pattern_length] + delta * (elem / pattern_length)`.
   */
  lemma IndicesWithoutWrap(g: CopyJob, elem: u32)
    requires g.args.start <= elem < End(g.args)
    ensures var a := g.args;
            var p := elem % a.patternLength;
            var it := elem / a.patternLength;
            (g.patternGather[p] + a.deltaGather * it < 0x1_0000_0000 ==>
               Source(g, elem) == g.patternGather[p] + a.deltaGather * it) &&
            (g.patternScatter[p] + a.deltaScatter * it < 0x1_0000_0000 ==>
               Target(g, elem) == g.patternScatter[p] + a.deltaScatter * it)
  {
    ElementInRange(g, elem);
  }

  /**
   * After the loop, the destination slot of element `elem` holds the source
   * element, unless a later element of the share stores to the same slot.
   */
  lemma ValueLands(sparse: seq<u16>, g: CopyJob, elem: u32)
    requires |sparse| == g.scatterLen && g.args.start <= elem < End(g.args)
    requires forall later: u32 :: elem < later < End(g.args) ==> ElementWrite(g, later).index != ElementWrite(g, elem).index
    ensures ElementFits(g, elem)
    ensures Apply(sparse, Writes(g, End(g.args)))[Target(g, elem)] == g.sparseGather[Source(g, elem)]
  {
    var w := Writes(g, End(g.args));
    var j := elem - g.args.start;
    WritesAt(g, End(g.args), elem);
    forall j' | j < j' < |w| ensures w[j'].index != w[j].index {
      WritesAt(g, End(g.args), g.args.start + j');
    }
    LastWriterWins(sparse, w, j);
  }

  /** A destination slot that no element of the share targets keeps its old value. */
  lemma SlotUntouched(sparse: seq<u16>, g: CopyJob, k: nat)
    requires |sparse| == g.scatterLen && k < |sparse|
    requires forall elem: u32 :: g.args.start <= elem < End(g.args) ==> ElementWrite(g, elem).index != k
    ensures Apply(sparse, Writes(g, End(g.args)))[k] == sparse[k]
  {
    var w := Writes(g, End(g.args));
    forall j | 0 <= j < |w| ensures w[j].index != k {
      WritesAt(g, End(g.args), g.args.start + j);
    }
    Untouched(sparse, w, k);
  }

  /**
   * The source side of element `elem`: both indices from the L1 pattern pages,
   * then the source value through the sparse_gather tile cache.
   */
  method NextWrite(g: CopyJob, elem: u32, patternGatherBuf: array<u32>, patternScatterBuf: array<u32>,
                   cachedGather: u32, gatherBuf: array<u16>)
    returns (cg: u32, w: Write)
    requires g.args.start <= elem < End(g.args)
    requires patternGatherBuf[..] == PageOf(g.patternGather, 0, IndexPageWords)
    requires patternScatterBuf[..] == PageOf(g.patternScatter, 0, IndexPageWords)
    requires Cached(g.sparseGather, cachedGather, TileElems, gatherBuf)
    modifies gatherBuf
    ensures Cached(g.sparseGather, cg, TileElems, gatherBuf)
    ensures w == ElementWrite(g, elem)
  {
    var a := g.args;
    ElementInRange(g, elem);
    var src := PatternIndex(g.patternGather, patternGatherBuf, a.patternLength, a.deltaGather, elem);
    var dst := PatternIndex(g.patternScatter, patternScatterBuf, a.patternLength, a.deltaScatter, elem);
    TileInRange(src, |g.sparseGather|);
    var value;
    cg, value := CachedLoad(g.sparseGather, src, TileElems, cachedGather, gatherBuf);
    w := Write(dst, value);
  }

  /**
   * The kernel: `g` holds the runtime arguments and the contents of the three
   * buffers it only reads. The destination ends up exactly as the plain
   * element-by-element copy leaves it, and an empty share does not touch it.
   */
  method KernelMain(g: CopyJob, sparseScatter: DramBuffer<u16>)
    requires g.scatterLen == |sparseScatter.data|
    modifies sparseScatter
    ensures sparseScatter.data == Apply(old(sparseScatter.data), Writes(g, End(g.args)))
    ensures End(g.args) <= g.args.start ==> sparseScatter.trace == old(sparseScatter.trace)
  {
    var patternGatherBuf := new u32[IndexPageWords];
    var patternScatterBuf := new u32[IndexPageWords];
    LoadPage(g.patternGather, 0, IndexPageWords, patternGatherBuf);
    LoadPage(g.patternScatter, 0, IndexPageWords, patternScatterBuf);
    var gatherBuf := new u16[TileElems];
    var scatterBuf := new u16[TileElems];
    var cachedScatter := CopyRange(g, sparseScatter, patternGatherBuf, patternScatterBuf, gatherBuf, scatterBuf);
    Flush(sparseScatter, TileElems, cachedScatter, scatterBuf);
  }

  /**
   * The element loop, from empty tile caches. Afterwards the destination with
   * its cached tile written back is the result of the plain copy.
   */
  method CopyRange(g: CopyJob, sparseScatter: DramBuffer<u16>,
                   patternGatherBuf: array<u32>, patternScatterBuf: array<u32>,
                   gatherBuf: array<u16>, scatterBuf: array<u16>)
    returns (cachedScatter: u32)
    requires patternGatherBuf[..] == PageOf(g.patternGather, 0, IndexPageWords)
    requires patternScatterBuf[..] == PageOf(g.patternScatter, 0, IndexPageWords)
    requires gatherBuf != scatterBuf && gatherBuf.Length == TileElems && scatterBuf.Length == TileElems
    requires g.scatterLen == |sparseScatter.data|
    modifies sparseScatter, gatherBuf, scatterBuf
    ensures Dirty(sparseScatter, cachedScatter, TileElems, scatterBuf) && |sparseScatter.data| == g.scatterLen
    ensures View(sparseScatter.data, cachedScatter, TileElems, scatterBuf[..]) ==
            Apply(old(sparseScatter.data), Writes(g, End(g.args)))
    ensures End(g.args) <= g.args.start ==> cachedScatter == NoTile && sparseScatter.trace == old(sparseScatter.trace)
  {
    var cachedGather: u32 := NoTile;
    cachedScatter := NoTile;
    ghost var s0 := sparseScatter.data;
    var end := End(g.args);
    if end <= g.args.start {
      return;
    }

    var elem := g.args.start;
    while elem < end
      invariant g.args.start <= elem <= end
      invariant Cached(g.sparseGather, cachedGather, TileElems, gatherBuf)
      invariant Dirty(sparseScatter, cachedScatter, TileElems, scatterBuf) && |sparseScatter.data| == |s0|
      invariant View(sparseScatter.data, cachedScatter, TileElems, scatterBuf[..]) == Apply(s0, Writes(g, elem))
    {
      cachedGather, cachedScatter := CopyElement(g, elem, sparseScatter, patternGatherBuf, patternScatterBuf,
                                                 cachedGather, gatherBuf, cachedScatter, scatterBuf, s0);
      elem := elem + 1;
    }
  }

  /** One iteration of the element loop: element `elem`'s store joins the destination's view. */
  method CopyElement(g: CopyJob, elem: u32, sparseScatter: DramBuffer<u16>,
                     patternGatherBuf: array<u32>, patternScatterBuf: array<u32>,
                     cachedGather: u32, gatherBuf: array<u16>,
                     cachedScatter: u32, scatterBuf: array<u16>,
                     ghost s0: seq<u16>)
    returns (cg: u32, cs: u32)
    requires g.args.start <= elem < End(g.args) && g.scatterLen == |s0|
    requires patternGatherBuf[..] == PageOf(g.patternGather, 0, IndexPageWords)
    requires patternScatterBuf[..] == PageOf(g.patternScatter, 0, IndexPageWords)
    requires gatherBuf != scatterBuf && Cached(g.sparseGather, cachedGather, TileElems, gatherBuf)
    requires Dirty(sparseScatter, cachedScatter, TileElems, scatterBuf) && |sparseScatter.data| == |s0|
    requires View(sparseScatter.data, cachedScatter, TileElems, scatterBuf[..]) == Apply(s0, Writes(g, elem))
    modifies sparseScatter, gatherBuf, scatterBuf
    ensures Cached(g.sparseGather, cg, TileElems, gatherBuf)
    ensures Dirty(sparseScatter, cs, TileElems, scatterBuf) && |sparseScatter.data| == |s0|
    ensures View(sparseScatter.data, cs, TileElems, scatterBuf[..]) == Apply(s0, Writes(g, elem + 1))
  {
    var w;
    cg, w := NextWrite(g, elem, patternGatherBuf, patternScatterBuf, cachedGather, gatherBuf);
    cs := CachedStore(sparseScatter, w, cachedScatter, scatterBuf, s0, Writes(g, elem));
    WritesSnoc(g, elem);
  }
}
