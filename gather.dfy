/**
 * gather_kernel.cpp: the single-core gather
 * `dense[i] = sparse[pattern[i % pattern_length] + delta * (i / pattern_length)]`,
 * one output tile at a time: the tile is cleared in L1, filled through a
 * one-tile cache on the sparse buffer, and written to its place in the dense
 * buffer.
 */
module Gather {
  import opened Words
  import opened TileStore
  import opened Indexing

  /** The kernel's arguments, the contents of the two buffers it only reads, and the dense buffer's length. */
  datatype GatherInputs = GatherInputs(numElements: u32, delta: u32, patternLength: u32,
                                       pattern: seq<u32>, sparse: seq<u16>, denseLen: nat)

  /** `src_index = pattern_data[elem % pattern_length] + delta * (elem / pattern_length)` in `uint32_t`. */
  function Source(s: GatherInputs, elem: u32): (r: u32)
    requires 0 < s.patternLength <= IndexPageWords <= |s.pattern|
    ensures var j, it := elem % s.patternLength, elem / s.patternLength;
            j < |s.pattern| && (s.pattern[j] + s.delta * it < 0x1_0000_0000 ==> r == s.pattern[j] + s.delta * it)
  {
    var j, it := elem % s.patternLength, elem / s.patternLength;
    DivModBounds(elem, s.patternLength);
    StridedIndex(s.pattern[j], s.delta, it)
  }

  /** Element `elem` reads inside the sparse buffer. */
  predicate ElementFits(s: GatherInputs, elem: u32)
    requires 0 < s.patternLength <= IndexPageWords <= |s.pattern|
  {
    Source(s, elem) < |s.sparse|
  }

  /**
   * What the kernel needs: the pattern holds its first 2048-byte page (read
   * even when there is nothing to gather), the sparse buffer is whole tiles,
   * the dense buffer holds every output tile, and when there are elements to
   * gather the pattern length is non-zero and fits that page and every source
   * index lies inside the sparse buffer (the kernel does not reduce it).
   */
  predicate Admissible(s: GatherInputs)
  {
    IndexPageWords <= |s.pattern| && |s.sparse| % TileElems == 0 &&
    NumTiles(s.numElements) * TileElems <= s.denseLen &&
    (0 < Processed(s.numElements) ==>
       0 < s.patternLength <= IndexPageWords &&
       forall elem: u32 :: elem < Processed(s.numElements) ==> ElementFits(s, elem))
  }

  type GatherJob = s: GatherInputs | Admissible(s)
    witness GatherInputs(0, 0, 0, seq(IndexPageWords, _ => 0), [], 0)

  /** Every element the kernel gathers reads inside the sparse buffer. */
  lemma ElementInRange(s: GatherJob, elem: u32)
    requires elem < Processed(s.numElements)
    ensures 0 < s.patternLength <= IndexPageWords
    ensures Source(s, elem) < |s.sparse|
  {
    assert ElementFits(s, elem);
  }

  /** Output tile `t` lies inside the dense buffer. */
  lemma TileInDense(s: GatherJob, t: nat)
    requires t < NumTiles(s.numElements)
    ensures (t + 1) * TileElems <= NumTiles(s.numElements) * TileElems <= s.denseLen
  {
    MulMonotone(TileElems, t + 1, NumTiles(s.numElements));
  }

  /**
   * Slot `k` of the output tiles: the gathered element for `k < num_elements`,
   * and the zero the tile was cleared to past the last element.
   */
  function OutputElement(s: GatherJob, k: nat): u16
    requires k < NumTiles(s.numElements) * TileElems
  {
    if k < s.numElements then
      ElementInRange(s, k as u32);
      s.sparse[Source(s, k as u32)]
    else
      0
  }

  /** Output tile `t` as the kernel assembles it in L1. */
  function OutputTile(s: GatherJob, t: nat): (r: seq<u16>)
    requires t < NumTiles(s.numElements)
    ensures |r| == TileElems
  {
    TileInDense(s, t);
    seq<u16>(TileElems, k requires 0 <= k < TileElems => OutputElement(s, t * TileElems + k))
  }

  /** The dense buffer `d0` once the first `tiles` output tiles are written. */
  function Gathered(s: GatherJob, d0: seq<u16>, tiles: nat): (r: seq<u16>)
    requires |d0| == s.denseLen && tiles <= NumTiles(s.numElements)
    ensures |r| == |d0|
  {
    MulMonotone(TileElems, tiles, NumTiles(s.numElements));
    seq(|d0|, k requires 0 <= k < |d0| => if k < tiles * TileElems then OutputElement(s, k) else d0[k])
  }

  /** The writes of output tiles `0 .. n - 1`, in order. */
  function TileWrites(n: nat): (r: seq<PageOp>)
    ensures |r| == n && forall t :: 0 <= t < n ==> r[t] == PageWrite(t)
  {
    seq(n, t requires 0 <= t < n => PageWrite(t))
  }

  /** Writing output tile `t` over the first `t` finished tiles finishes `t + 1`. */
  lemma {:induction false} GatheredStep(s: GatherJob, d0: seq<u16>, t: nat)
    requires |d0| == s.denseLen && t < NumTiles(s.numElements)
    ensures (t + 1) * TileElems <= |d0|
    ensures Splice(Gathered(s, d0, t), t, TileElems, OutputTile(s, t)) == Gathered(s, d0, t + 1)
  {
    TileInDense(s, t);
    var a := Splice(Gathered(s, d0, t), t, TileElems, OutputTile(s, t));
    var b := Gathered(s, d0, t + 1);
    forall k | 0 <= k < |d0| ensures a[k] == b[k] {
      if k < t * TileElems {
      } else if k < (t + 1) * TileElems {
        assert a[k] == OutputTile(s, t)[k - t * TileElems];
      } else {
      }
    }
  }

  /**
   * After the kernel, slot `elem` of the dense buffer holds
   * `sparse[pattern[elem % pattern_length] + delta * (elem / pattern_length)]`,
   * the index taken modulo 2^32.
   */
  lemma ValueLands(s: GatherJob, d0: seq<u16>, elem: u32)
    requires |d0| == s.denseLen && elem < Processed(s.numElements)
    ensures 0 < s.patternLength <= IndexPageWords && elem < |d0| && ElementFits(s, elem)
    ensures Gathered(s, d0, NumTiles(s.numElements))[elem] == s.sparse[Source(s, elem)]
    ensures var base := s.pattern[elem % s.patternLength] + s.delta * (elem / s.patternLength);
            base < 0x1_0000_0000 ==> Gathered(s, d0, NumTiles(s.numElements))[elem] == s.sparse[base]
  {
    ElementInRange(s, elem);
    DivModBounds(elem, s.patternLength);
  }

  /** The rest of the last output tile, past `num_elements`, is zero. */
  lemma PaddingIsZero(s: GatherJob, d0: seq<u16>, k: nat)
    requires |d0| == s.denseLen && s.numElements <= k < NumTiles(s.numElements) * TileElems
    ensures k < |d0| && Gathered(s, d0, NumTiles(s.numElements))[k] == 0
  {
  }

  /** The dense buffer past the output tiles keeps its contents. */
  lemma BeyondTilesUntouched(s: GatherJob, d0: seq<u16>, k: nat)
    requires |d0| == s.denseLen && NumTiles(s.numElements) * TileElems <= k < |d0|
    ensures Gathered(s, d0, NumTiles(s.numElements))[k] == d0[k]
  {
  }

  /**
   * The kernel: `s` holds the runtime arguments and the contents of the two
   * buffers it only reads. Every output tile is written once, in order, and
   * the dense buffer ends up holding the gathered elements, zero padding to
   * the end of the last tile, and its old contents beyond.
   */
  method KernelMain(s: GatherJob, dense: DramBuffer<u16>)
    requires |dense.data| == s.denseLen
    modifies dense
    ensures dense.data == Gathered(s, old(dense.data), NumTiles(s.numElements))
    ensures dense.trace == old(dense.trace) + TileWrites(NumTiles(s.numElements))
  {
    ghost var d0 := dense.data;
    var patternBuf := new u32[IndexPageWords];
    LoadPage(s.pattern, 0, IndexPageWords, patternBuf);
    var sparseBuf := new u16[TileElems];
    var denseBuf := new u16[TileElems];
    var numTiles := NumTiles(s.numElements);
    var cachedSparse: u32 := NoTile;
    var t: u32 := 0;
    assert Gathered(s, d0, 0) == d0;
    while t < numTiles
      invariant t <= numTiles
      invariant |dense.data| == |d0| && dense.data == Gathered(s, d0, t)
      invariant dense.trace == old(dense.trace) + TileWrites(t)
      invariant Cached(s.sparse, cachedSparse, TileElems, sparseBuf)
      invariant patternBuf[..] == PageOf(s.pattern, 0, IndexPageWords)
    {
      cachedSparse := GatherTile(s, t, dense, patternBuf, cachedSparse, sparseBuf, denseBuf, d0);
      assert TileWrites(t + 1) == TileWrites(t) + [PageWrite(t)];
      t := t + 1;
    }
  }

  /**
   * One iteration of the tile loop: assemble output tile `t` in L1 and write
   * it to page `t` of the dense buffer.
   */
  method GatherTile(s: GatherJob, t: u32, dense: DramBuffer<u16>, patternBuf: array<u32>,
                    cachedSparse: u32, sparseBuf: array<u16>, denseBuf: array<u16>, ghost d0: seq<u16>)
    returns (cs: u32)
    requires t < NumTiles(s.numElements) && |d0| == s.denseLen
    requires patternBuf[..] == PageOf(s.pattern, 0, IndexPageWords)
    requires Cached(s.sparse, cachedSparse, TileElems, sparseBuf)
    requires denseBuf.Length == TileElems && sparseBuf != denseBuf
    requires |dense.data| == |d0| && dense.data == Gathered(s, d0, t)
    modifies dense, sparseBuf, denseBuf
    ensures Cached(s.sparse, cs, TileElems, sparseBuf)
    ensures |dense.data| == |d0| && dense.data == Gathered(s, d0, t + 1)
    ensures dense.trace == old(dense.trace) + [PageWrite(t)]
  {
    cs := FillTile(s, t, patternBuf, cachedSparse, sparseBuf, denseBuf);
    GatheredStep(s, d0, t);
    dense.WritePage(t, TileElems, denseBuf[..]);
  }

  /**
   * The body of the tile loop before the write: clear the L1 output tile,
   * then gather elements `[t * 1024, min((t + 1) * 1024, num_elements))` into it.
   */
  method FillTile(s: GatherJob, t: u32, patternBuf: array<u32>,
                  cachedSparse: u32, sparseBuf: array<u16>, denseBuf: array<u16>)
    returns (cs: u32)
    requires t < NumTiles(s.numElements)
    requires patternBuf[..] == PageOf(s.pattern, 0, IndexPageWords)
    requires Cached(s.sparse, cachedSparse, TileElems, sparseBuf)
    requires denseBuf.Length == TileElems && sparseBuf != denseBuf
    modifies sparseBuf, denseBuf
    ensures Cached(s.sparse, cs, TileElems, sparseBuf)
    ensures denseBuf[..] == OutputTile(s, t)
  {
    TileBounds(s.numElements, t);
    TileInDense(s, t);
    var tileStart := Wrap32(t * TileElems);
    var tileEnd := Wrap32(tileStart + TileElems);
    if tileEnd > s.numElements {
      tileEnd := s.numElements;
    }
    for i := 0 to TileElems
      modifies denseBuf
      invariant forall k :: 0 <= k < i ==> denseBuf[k] == 0
    {
      denseBuf[i] := 0;
    }
    cs := cachedSparse;
    var elem := tileStart;
    while elem < tileEnd
      invariant tileStart <= elem <= tileEnd
      invariant Cached(s.sparse, cs, TileElems, sparseBuf)
      invariant forall k :: 0 <= k < TileElems ==>
        denseBuf[k] == if tileStart + k < elem then OutputElement(s, tileStart + k) else 0
    {
      cs := GatherElement(s, t, elem, patternBuf, cs, sparseBuf, denseBuf);
      elem := elem + 1;
    }
    assert tileStart == t * TileElems;
    forall k | 0 <= k < TileElems ensures denseBuf[k] == OutputTile(s, t)[k] {
      assert OutputTile(s, t)[k] == OutputElement(s, tileStart + k);
      if tileStart + k >= tileEnd {
        assert tileStart + k >= s.numElements;
        assert denseBuf[k] == 0;
      }
    }
    assert denseBuf[..] == OutputTile(s, t);
  }

  /**
   * One iteration of the element loop: element `elem` of tile `t` is read
   * through the sparse tile cache into its slot of the L1 output tile.
   */
  method GatherElement(s: GatherJob, t: u32, elem: u32, patternBuf: array<u32>,
                       cachedSparse: u32, sparseBuf: array<u16>, denseBuf: array<u16>)
    returns (cs: u32)
    requires t < NumTiles(s.numElements) && t * TileElems <= elem < (t + 1) * TileElems && elem < s.numElements
    requires patternBuf[..] == PageOf(s.pattern, 0, IndexPageWords)
    requires Cached(s.sparse, cachedSparse, TileElems, sparseBuf)
    requires denseBuf.Length == TileElems && sparseBuf != denseBuf
    modifies sparseBuf, denseBuf
    ensures Cached(s.sparse, cs, TileElems, sparseBuf)
    ensures elem < NumTiles(s.numElements) * TileElems
    ensures denseBuf[..] == old(denseBuf[..])[elem - t * TileElems := OutputElement(s, elem)]
  {
    TileInDense(s, t);
    ElementInRange(s, elem);
    var src := PatternIndex(s.pattern, patternBuf, s.patternLength, s.delta, elem);
    TileInRange(src, |s.sparse|);
    var v;
    cs, v := CachedLoad(s.sparse, src, TileElems, cachedSparse, sparseBuf);
    denseBuf[elem - t * TileElems] := v;
  }
}
