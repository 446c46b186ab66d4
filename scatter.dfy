/**
 * scatter_kernel.cpp: the single-core scatter `sparse[pattern[g] + delta * (g / 1024)] = dense[g]`,
 * tile by tile, with an uncached read-modify-write of the destination tile for
 * every element. The kernel reads its pattern page and its dense tile into one
 * L1 region that they share, so the destinations it computes (`Writes`) differ
 * from the intended ones (`IntendedWrites`) in the upper half of every tile.
 */
module Scatter {
  import opened Words
  import opened WriteLog
  import opened TileStore
  import opened Indexing
  import opened Bytes

  /** The kernel's arguments and the contents of the buffers it only reads. */
  datatype ScatterInputs = ScatterInputs(numElements: u32, delta: u32, pattern: seq<u32>, dense: seq<u16>,
                                         sparseLen: nat)

  /** `dst_index = pattern[g] + delta * (g / elements_per_tile)` in `uint32_t`: the stride multiplies the tile index. */
  function Target(s: ScatterInputs, g: u32): (r: u32)
    requires g < |s.pattern|
    ensures s.pattern[g] + s.delta * (g / TileElems) < 0x1_0000_0000 ==> r == s.pattern[g] + s.delta * (g / TileElems)
  {
    StridedIndex(s.pattern[g], s.delta, g / TileElems)
  }

  /** Every tile the loop visits is a whole page of the pattern and dense buffers. */
  predicate Paged(s: ScatterInputs)
  {
    NumTiles(s.numElements) * TileElems <= |s.pattern| && NumTiles(s.numElements) * TileElems <= |s.dense|
  }

  /** Tile `t` of the loop is a whole page of both buffers. */
  lemma TileInBuffers(s: ScatterInputs, t: u32)
    requires Paged(s) && t < NumTiles(s.numElements)
    ensures (t + 1) * TileElems <= |s.pattern| && (t + 1) * TileElems <= |s.dense|
  {
    MulMonotone(TileElems, t + 1, NumTiles(s.numElements));
  }

  /** A processed element lies in a visited tile. */
  lemma ElementTile(s: ScatterInputs, g: u32)
    requires g < Processed(s.numElements)
    ensures TileOf(g) < NumTiles(s.numElements)
  {
  }

  /**
   * The L1 layout as written: the pattern page (1024 words, 4096 bytes) is
   * read to `l1_buffer_addr`, then the dense tile (1024 bfloat16 values,
   * 2048 bytes) to `l1_buffer_addr + 2048`, over bytes 2048 to 4095 of the
   * pattern page.
   */
  function L1Bytes(patternPage: seq<u32>, densePage: seq<u16>): (b: seq<byte>)
    requires |patternPage| == TileElems && |densePage| == TileElems
    ensures |b| == 4 * TileElems
  {
    Overwrite(EncodeWords(patternPage), TileBytes, EncodeHalves(densePage))
  }

  /** The 1024 words the element loop reads at `l1_buffer_addr` as its pattern entries. */
  function L1PatternWords(patternPage: seq<u32>, densePage: seq<u16>): (r: seq<u32>)
    requires |patternPage| == TileElems && |densePage| == TileElems
    ensures |r| == TileElems
  {
    DecodeWords(L1Bytes(patternPage, densePage))
  }

  /** Pattern entry `k < 512` is read from bytes the dense tile leaves alone. */
  lemma L1WordBelowHalf(patternPage: seq<u32>, densePage: seq<u16>, k: nat)
    requires |patternPage| == TileElems && |densePage| == TileElems && k < IndexPageWords
    ensures L1PatternWords(patternPage, densePage)[k] == patternPage[k]
  {
    var e := EncodeWords(patternPage);
    var h := EncodeHalves(densePage);
    var b := L1Bytes(patternPage, densePage);
    var i := 4 * k;
    OverwriteBefore(e, TileBytes, h, i);
    OverwriteBefore(e, TileBytes, h, i + 1);
    OverwriteBefore(e, TileBytes, h, i + 2);
    OverwriteBefore(e, TileBytes, h, i + 3);
    EncodeWordsAt(patternPage, k, 0);
    EncodeWordsAt(patternPage, k, 1);
    EncodeWordsAt(patternPage, k, 2);
    EncodeWordsAt(patternPage, k, 3);
    assert L1PatternWords(patternPage, densePage)[k] == WordOf(b[i], b[i + 1], b[i + 2], b[i + 3]);
    WordBytesRecombine(patternPage[k]);
  }

  /** Pattern entry `512 + k` is read from dense values `2k` and `2k + 1`. */
  lemma L1WordAboveHalf(patternPage: seq<u32>, densePage: seq<u16>, k: nat)
    requires |patternPage| == TileElems && |densePage| == TileElems && k < IndexPageWords
    ensures L1PatternWords(patternPage, densePage)[IndexPageWords + k] ==
              densePage[2 * k] as int + 0x1_0000 * densePage[2 * k + 1] as int
  {
    var e := EncodeWords(patternPage);
    var h := EncodeHalves(densePage);
    var b := L1Bytes(patternPage, densePage);
    var i := 4 * k;
    assert 4 * (IndexPageWords + k) == TileBytes + i;
    OverwriteAt(e, TileBytes, h, i);
    OverwriteAt(e, TileBytes, h, i + 1);
    OverwriteAt(e, TileBytes, h, i + 2);
    OverwriteAt(e, TileBytes, h, i + 3);
    assert L1PatternWords(patternPage, densePage)[IndexPageWords + k] ==
             WordOf(b[TileBytes + i], b[TileBytes + i + 1], b[TileBytes + i + 2], b[TileBytes + i + 3]);
    HalvesAsWord(densePage, k);
  }

  /** Dense value `k` is read intact from bytes `2048 + 2k` (low) and `2048 + 2k + 1` (high). */
  lemma L1DenseHalf(patternPage: seq<u32>, densePage: seq<u16>, k: nat)
    requires |patternPage| == TileElems && |densePage| == TileElems && k < TileElems
    ensures TileBytes + 2 * k + 1 < 4 * TileElems
    ensures L1Bytes(patternPage, densePage)[TileBytes + 2 * k] as int +
              0x100 * L1Bytes(patternPage, densePage)[TileBytes + 2 * k + 1] as int == densePage[k]
  {
    var e := EncodeWords(patternPage);
    var h := EncodeHalves(densePage);
    OverwriteAt(e, TileBytes, h, 2 * k);
    OverwriteAt(e, TileBytes, h, 2 * k + 1);
    EncodeHalvesAt(densePage, k, 0);
    EncodeHalvesAt(densePage, k, 1);
    DivModSplit(densePage[k], 0x100);
  }

  /**
   * As written, only the first 512 pattern entries of a tile survive the dense
   * read: entry `512 + k` holds dense values `2k` (low half) and `2k + 1`
   * (high half). Entry 512 of a zero pattern tile read beside a dense tile
   * starting `[1, 0]` comes out as 1 instead of 0.
   */
  lemma DenseReadClobbersPattern(patternPage: seq<u32>, densePage: seq<u16>)
    requires |patternPage| == TileElems && |densePage| == TileElems
    ensures forall k :: 0 <= k < IndexPageWords ==> L1PatternWords(patternPage, densePage)[k] == patternPage[k]
    ensures forall k :: 0 <= k < IndexPageWords ==>
      L1PatternWords(patternPage, densePage)[IndexPageWords + k] ==
        densePage[2 * k] as int + 0x1_0000 * densePage[2 * k + 1] as int
    ensures patternPage == seq(TileElems, _ => 0) && densePage[0] == 1 && densePage[1] == 0 ==>
      L1PatternWords(patternPage, densePage)[IndexPageWords] != patternPage[IndexPageWords]
  {
    forall k | 0 <= k < IndexPageWords ensures L1PatternWords(patternPage, densePage)[k] == patternPage[k] {
      L1WordBelowHalf(patternPage, densePage, k);
    }
    forall k | 0 <= k < IndexPageWords
      ensures L1PatternWords(patternPage, densePage)[IndexPageWords + k] ==
                densePage[2 * k] as int + 0x1_0000 * densePage[2 * k + 1] as int
    {
      L1WordAboveHalf(patternPage, densePage, k);
    }
  }

  /**
   * The word the element loop reads as pattern entry `e` of tile `t`: below
   * 512 the tile's own pattern entry; at `512 + k` the word made of the tile's
   * dense values `2k` (low half) and `2k + 1` (high half).
   */
  function L1Word(s: ScatterInputs, t: nat, e: nat): (w: u32)
    requires (t + 1) * TileElems <= |s.pattern| && (t + 1) * TileElems <= |s.dense| && e < TileElems
  {
    if e < IndexPageWords then
      s.pattern[t * TileElems + e]
    else
      var d := t * TileElems + 2 * (e - IndexPageWords);
      s.dense[d] as int + 0x1_0000 * s.dense[d + 1] as int
  }

  /** The value the element loop reads as dense element `e` of tile `t`. */
  function L1Half(s: ScatterInputs, t: nat, e: nat): u16
    requires (t + 1) * TileElems <= |s.dense| && e < TileElems
  {
    s.dense[t * TileElems + e]
  }

  /** `pattern_data[e]`: the little-endian word at byte `4 * e` of L1. */
  function PatternRead(b: seq<byte>, e: nat): u32
    requires 4 * e + 3 < |b|
  {
    WordOf(b[4 * e], b[4 * e + 1], b[4 * e + 2], b[4 * e + 3])
  }

  /** `dense_data[e]`: the little-endian half at byte `2048 + 2 * e` of L1. */
  function DenseRead(b: seq<byte>, e: nat): u16
    requires TileBytes + 2 * e + 1 < |b|
  {
    b[TileBytes + 2 * e] as int + 0x100 * b[TileBytes + 2 * e + 1] as int
  }

  /** The bytes `b`, read through the kernel's two casts, give `L1Word` and `L1Half` at every offset of tile `t`. */
  ghost predicate L1Holds(s: ScatterInputs, t: nat, b: seq<byte>)
    requires (t + 1) * TileElems <= |s.pattern| && (t + 1) * TileElems <= |s.dense|
  {
    |b| == 4 * TileElems &&
    (forall e {:trigger PatternRead(b, e)} :: 0 <= e < TileElems ==> PatternRead(b, e) == L1Word(s, t, e)) &&
    (forall e {:trigger DenseRead(b, e)} :: 0 <= e < TileElems ==> DenseRead(b, e) == L1Half(s, t, e))
  }

  /** The L1 bytes after both reads of tile `t`, read back as a word at offset `e`, give `L1Word`. */
  lemma L1WordAt(s: ScatterInputs, t: nat, e: nat)
    requires (t + 1) * TileElems <= |s.pattern| && (t + 1) * TileElems <= |s.dense| && e < TileElems
    ensures PatternRead(L1Bytes(PageOf(s.pattern, t, TileElems), PageOf(s.dense, t, TileElems)), e) == L1Word(s, t, e)
  {
    if e < IndexPageWords {
      L1WordAtBelow(s, t, e);
    } else {
      L1WordAtAbove(s, t, e - IndexPageWords);
    }
  }

  /** The lower-half case of `L1WordAt`. */
  lemma L1WordAtBelow(s: ScatterInputs, t: nat, k: nat)
    requires (t + 1) * TileElems <= |s.pattern| && (t + 1) * TileElems <= |s.dense| && k < IndexPageWords
    ensures PatternRead(L1Bytes(PageOf(s.pattern, t, TileElems), PageOf(s.dense, t, TileElems)), k) == L1Word(s, t, k)
  {
    var pp, dp := PageOf(s.pattern, t, TileElems), PageOf(s.dense, t, TileElems);
    var e, i := EncodeWords(pp), 4 * k;
    OverwriteBefore(e, TileBytes, EncodeHalves(dp), i);
    OverwriteBefore(e, TileBytes, EncodeHalves(dp), i + 1);
    OverwriteBefore(e, TileBytes, EncodeHalves(dp), i + 2);
    OverwriteBefore(e, TileBytes, EncodeHalves(dp), i + 3);
    EncodedWordAt(pp, k);
    PageOfAt(s.pattern, t, TileElems, k);
  }

  /** The upper-half case of `L1WordAt`, at offset `512 + k`. */
  lemma L1WordAtAbove(s: ScatterInputs, t: nat, k: nat)
    requires (t + 1) * TileElems <= |s.pattern| && (t + 1) * TileElems <= |s.dense| && k < IndexPageWords
    ensures PatternRead(L1Bytes(PageOf(s.pattern, t, TileElems), PageOf(s.dense, t, TileElems)), IndexPageWords + k) ==
              L1Word(s, t, IndexPageWords + k)
  {
    var pp, dp := PageOf(s.pattern, t, TileElems), PageOf(s.dense, t, TileElems);
    var h := EncodeHalves(dp);
    var i := 4 * k;
    OverwriteAt(EncodeWords(pp), TileBytes, h, i);
    OverwriteAt(EncodeWords(pp), TileBytes, h, i + 1);
    OverwriteAt(EncodeWords(pp), TileBytes, h, i + 2);
    OverwriteAt(EncodeWords(pp), TileBytes, h, i + 3);
    HalvesAsWord(dp, k);
    PageOfAt(s.dense, t, TileElems, 2 * k);
    PageOfAt(s.dense, t, TileElems, 2 * k + 1);
    assert 4 * (IndexPageWords + k) == TileBytes + i;
    assert L1Word(s, t, IndexPageWords + k) == s.dense[t * TileElems + 2 * k] as int + 0x1_0000 * s.dense[t * TileElems + 2 * k + 1] as int;
  }

  /** The L1 bytes after both reads of tile `t`, read back as a half at offset `e`, give `L1Half`. */
  lemma L1HalfAt(s: ScatterInputs, t: nat, e: nat)
    requires (t + 1) * TileElems <= |s.pattern| && (t + 1) * TileElems <= |s.dense| && e < TileElems
    ensures DenseRead(L1Bytes(PageOf(s.pattern, t, TileElems), PageOf(s.dense, t, TileElems)), e) == L1Half(s, t, e)
  {
    L1DenseHalf(PageOf(s.pattern, t, TileElems), PageOf(s.dense, t, TileElems), e);
    PageOfAt(s.dense, t, TileElems, e);
  }

  /** The L1 bytes after both reads of tile `t` satisfy `L1Holds`. */
  lemma L1Layout(s: ScatterInputs, t: nat)
    requires (t + 1) * TileElems <= |s.pattern| && (t + 1) * TileElems <= |s.dense|
    ensures L1Holds(s, t, L1Bytes(PageOf(s.pattern, t, TileElems), PageOf(s.dense, t, TileElems)))
  {
    var b := L1Bytes(PageOf(s.pattern, t, TileElems), PageOf(s.dense, t, TileElems));
    forall e | 0 <= e < TileElems
      ensures PatternRead(b, e) == L1Word(s, t, e) && DenseRead(b, e) == L1Half(s, t, e)
    {
      L1WordAt(s, t, e);
      L1HalfAt(s, t, e);
    }
  }

  /**
   * The pattern entry the kernel as written uses for global element `g`: the
   * L1 word at `g`'s offset in its tile. In the lower half of a tile that is
   * `pattern[g]`; at offset `512 + k` it is made of the tile's dense values
   * `2k` (low half) and `2k + 1` (high half).
   */
  function SeenEntry(s: ScatterInputs, g: u32): (e: u32)
    requires Paged(s) && g < Processed(s.numElements)
    ensures g < |s.pattern| && g < |s.dense|
    ensures OffsetOf(g) < IndexPageWords ==> e == s.pattern[g]
    ensures OffsetOf(g) >= IndexPageWords ==> TileOf(g) * TileElems + 2 * (OffsetOf(g) - IndexPageWords) + 1 < |s.dense|
    ensures OffsetOf(g) >= IndexPageWords ==>
              var d := TileOf(g) * TileElems + 2 * (OffsetOf(g) - IndexPageWords);
              e == s.dense[d] as int + 0x1_0000 * s.dense[d + 1] as int
  {
    ElementTile(s, g);
    TileInBuffers(s, TileOf(g));
    L1Word(s, TileOf(g), OffsetOf(g))
  }

  /**
   * The destination the kernel as written computes for global element `g`:
   * its seen pattern entry plus `delta` times the tile index, in `uint32_t`.
   * In the lower half of a tile that is `Target`.
   */
  function AsWrittenTarget(s: ScatterInputs, g: u32): (r: u32)
    requires Paged(s) && g < Processed(s.numElements)
    ensures g < |s.pattern| && g < |s.dense|
    ensures SeenEntry(s, g) + s.delta * TileOf(g) < 0x1_0000_0000 ==> r == SeenEntry(s, g) + s.delta * TileOf(g)
    ensures OffsetOf(g) < IndexPageWords ==> r == Target(s, g)
  {
    StridedIndex(SeenEntry(s, g), s.delta, TileOf(g))
  }

  /** Global element `g` is processed and the destination the kernel computes for it lies inside the sparse buffer. */
  predicate ElementFits(s: ScatterInputs, g: u32)
  {
    Paged(s) && g < Processed(s.numElements) && AsWrittenTarget(s, g) < s.sparseLen
  }

  /**
   * What the kernel needs: every tile it visits exists in the pattern and dense
   * buffers, the sparse buffer is whole tiles within the device's DRAM, and
   * every destination it computes is inside it (the kernel does not reduce it).
   */
  predicate Admissible(s: ScatterInputs)
  {
    Paged(s) && s.sparseLen % TileElems == 0 && s.sparseLen <= MaxDramElems &&
    forall g: u32 :: g < Processed(s.numElements) ==> ElementFits(s, g)
  }

  type ScatterJob = s: ScatterInputs | Admissible(s) witness ScatterInputs(0, 0, [], [], 0)

  /** The store the kernel makes for global element `g`: `dense[g]` goes to the destination it computes. */
  function ElementWrite(s: ScatterJob, g: u32): (w: Write)
    requires g < Processed(s.numElements)
    ensures w.index < s.sparseLen
  {
    assert ElementFits(s, g);
    Write(AsWrittenTarget(s, g), s.dense[g])
  }

  /** The kernel's stores for global elements `[0, hi)`, in loop order. */
  function Writes(s: ScatterJob, hi: u32): (w: seq<Write>)
    requires hi <= Processed(s.numElements)
    ensures |w| == hi && InBounds(w, s.sparseLen)
  {
    var w := seq(hi, g requires 0 <= g < hi => ElementWrite(s, g));
    assert forall g :: 0 <= g < |w| ==> w[g] == ElementWrite(s, g);
    InBoundsAll(w, s.sparseLen);
    w
  }

  /** Position `g` of the store sequence is element `g`'s store. */
  lemma WritesAt(s: ScatterJob, hi: u32, g: u32)
    requires g < hi <= Processed(s.numElements)
    ensures Writes(s, hi)[g] == ElementWrite(s, g)
  {
  }

  /** One more element adds its store at the end. */
  lemma WritesSnoc(s: ScatterJob, g: u32)
    requires g < Processed(s.numElements)
    ensures Writes(s, g + 1) == Writes(s, g) + [ElementWrite(s, g)]
  {
    var longer, shorter := Writes(s, g + 1), Writes(s, g) + [ElementWrite(s, g)];
    forall i | 0 <= i < g + 1 ensures longer[i] == shorter[i] {
      WritesAt(s, g + 1, i);
      if i < g {
        WritesAt(s, g, i);
      }
    }
  }

  /**
   * The tile operations an uncached read-modify-write of each store makes on
   * the sparse buffer, in store order: operation `2k` reads and operation
   * `2k + 1` writes back the tile holding store `k`'s index.
   */
  function RmwOps(w: seq<Write>): (r: seq<PageOp>)
    ensures |r| == 2 * |w|
  {
    seq(2 * |w|, i requires 0 <= i < 2 * |w| =>
      var dst := TileOf(w[i / 2].index);
      if i % 2 == 0 then PageRead(dst) else PageWrite(dst))
  }

  /** Operations `2k` and `2k + 1` are the read and write-back of store `k`'s tile. */
  lemma RmwOpsAt(w: seq<Write>, k: nat)
    requires k < |w|
    ensures RmwOps(w)[2 * k] == PageRead(TileOf(w[k].index))
    ensures RmwOps(w)[2 * k + 1] == PageWrite(TileOf(w[k].index))
  {
    DivModUnique(2 * k, 2, k, 0);
    DivModUnique(2 * k + 1, 2, k, 1);
  }

  /** One more store adds its tile's read and write-back at the end. */
  lemma RmwOpsSnoc(w: seq<Write>, x: Write)
    ensures RmwOps(w + [x]) == RmwOps(w) + [PageRead(TileOf(x.index)), PageWrite(TileOf(x.index))]
  {
    var longer, shorter := RmwOps(w + [x]), RmwOps(w) + [PageRead(TileOf(x.index)), PageWrite(TileOf(x.index))];
    RmwOpsAt(w + [x], |w|);
    forall i | 0 <= i < |longer| ensures longer[i] == shorter[i] {
      if i < 2 * |w| {
        assert (w + [x])[i / 2] == w[i / 2];
      }
    }
  }

  /**
   * In the kernel's log, operations `2g` and `2g + 1` read and write back the
   * tile holding the destination it computes for element `g`.
   */
  lemma TileOpsAt(s: ScatterJob, hi: u32, g: u32)
    requires g < hi <= Processed(s.numElements)
    ensures ElementFits(s, g)
    ensures RmwOps(Writes(s, hi))[2 * g] == PageRead(TileOf(AsWrittenTarget(s, g)))
    ensures RmwOps(Writes(s, hi))[2 * g + 1] == PageWrite(TileOf(AsWrittenTarget(s, g)))
  {
    WritesAt(s, hi, g);
    RmwOpsAt(Writes(s, hi), g);
  }

  /**
   * After the kernel, the destination computed for element `g` holds
   * `dense[g]`, unless a later element stores to the same slot.
   */
  lemma AsWrittenValueLands(sparse: seq<u16>, s: ScatterJob, g: u32)
    requires |sparse| == s.sparseLen && g < Processed(s.numElements)
    requires forall later: u32 :: g < later < Processed(s.numElements) ==> ElementWrite(s, later).index != ElementWrite(s, g).index
    ensures ElementFits(s, g)
    ensures Apply(sparse, Writes(s, Processed(s.numElements)))[AsWrittenTarget(s, g)] == s.dense[g]
  {
    var w := Writes(s, Processed(s.numElements));
    WritesAt(s, Processed(s.numElements), g);
    forall j | g < j < |w| ensures w[j].index != w[g].index {
      WritesAt(s, Processed(s.numElements), j);
    }
    LastWriterWins(sparse, w, g);
  }

  /** A sparse slot that no element's computed destination hits keeps its old value. */
  lemma AsWrittenSlotUntouched(sparse: seq<u16>, s: ScatterJob, k: nat)
    requires |sparse| == s.sparseLen && k < |sparse|
    requires forall g: u32 :: g < Processed(s.numElements) ==> ElementWrite(s, g).index != k
    ensures Apply(sparse, Writes(s, Processed(s.numElements)))[k] == sparse[k]
  {
    var w := Writes(s, Processed(s.numElements));
    forall j | 0 <= j < |w| ensures w[j].index != k {
      WritesAt(s, Processed(s.numElements), j);
    }
    Untouched(sparse, w, k);
  }

  /** Global element `g`'s intended destination, `pattern[g] + delta * (g / 1024)`, lies inside the sparse buffer. */
  predicate TargetFits(s: ScatterInputs, g: u32)
  {
    g < |s.pattern| && Target(s, g) < s.sparseLen
  }

  /** Every processed element's intended destination lies inside the sparse buffer. */
  predicate IntendedFits(s: ScatterInputs)
  {
    forall g: u32 :: g < Processed(s.numElements) ==> TargetFits(s, g)
  }

  /** The intended store of global element `g`: `dense[g]` goes to `pattern[g] + delta * (g / 1024)`. */
  function IntendedWrite(s: ScatterJob, g: u32): (w: Write)
    requires g < Processed(s.numElements) && TargetFits(s, g)
    ensures w.index < s.sparseLen
  {
    Write(Target(s, g), s.dense[g])
  }

  /** The intended stores of global elements `[0, hi)`, in loop order. */
  function IntendedWrites(s: ScatterJob, hi: u32): (w: seq<Write>)
    requires hi <= Processed(s.numElements) && IntendedFits(s)
    ensures |w| == hi && InBounds(w, s.sparseLen)
  {
    var w := seq(hi, g requires 0 <= g < hi => IntendedWrite(s, g));
    assert forall g :: 0 <= g < |w| ==> w[g] == IntendedWrite(s, g);
    InBoundsAll(w, s.sparseLen);
    w
  }

  /** Position `g` of the intended store sequence is element `g`'s intended store. */
  lemma IntendedWritesAt(s: ScatterJob, hi: u32, g: u32)
    requires g < hi <= Processed(s.numElements) && IntendedFits(s)
    ensures IntendedWrites(s, hi)[g] == IntendedWrite(s, g)
  {
  }

  /**
   * With the intended stores, the destination `pattern[g] + delta * (g / 1024)`
   * of element `g` ends up holding `dense[g]`, unless a later element stores to
   * the same slot.
   */
  lemma ValueLands(sparse: seq<u16>, s: ScatterJob, g: u32)
    requires |sparse| == s.sparseLen && g < Processed(s.numElements) && IntendedFits(s)
    requires forall later: u32 :: g < later < Processed(s.numElements) ==>
               IntendedWrite(s, later).index != IntendedWrite(s, g).index
    ensures TargetFits(s, g)
    ensures Apply(sparse, IntendedWrites(s, Processed(s.numElements)))[Target(s, g)] == s.dense[g]
  {
    var w := IntendedWrites(s, Processed(s.numElements));
    IntendedWritesAt(s, Processed(s.numElements), g);
    forall j | g < j < |w| ensures w[j].index != w[g].index {
      IntendedWritesAt(s, Processed(s.numElements), j);
    }
    LastWriterWins(sparse, w, g);
  }

  /** With the intended stores, a sparse slot that no destination hits keeps its old value. */
  lemma SlotUntouched(sparse: seq<u16>, s: ScatterJob, k: nat)
    requires |sparse| == s.sparseLen && k < |sparse| && IntendedFits(s)
    requires forall g: u32 :: g < Processed(s.numElements) ==> IntendedWrite(s, g).index != k
    ensures Apply(sparse, IntendedWrites(s, Processed(s.numElements)))[k] == sparse[k]
  {
    var w := IntendedWrites(s, Processed(s.numElements));
    forall j | 0 <= j < |w| ensures w[j].index != k {
      IntendedWritesAt(s, Processed(s.numElements), j);
    }
    Untouched(sparse, w, k);
  }

  /** In the lower half of a tile the kernel makes the intended store. */
  lemma AgreesBelowHalf(s: ScatterJob, g: u32)
    requires g < Processed(s.numElements) && OffsetOf(g) < IndexPageWords
    ensures TargetFits(s, g) && ElementWrite(s, g) == IntendedWrite(s, g)
  {
    assert ElementFits(s, g);
  }

  /** A run of at most 512 elements touches only lower halves, so the kernel makes exactly the intended stores. */
  lemma SmallRunAsIntended(s: ScatterJob)
    requires s.numElements <= IndexPageWords
    ensures IntendedFits(s)
    ensures Writes(s, Processed(s.numElements)) == IntendedWrites(s, Processed(s.numElements))
  {
    var n := Processed(s.numElements);
    forall g: u32 | g < n ensures TargetFits(s, g) && ElementWrite(s, g) == IntendedWrite(s, g) {
      DivModUnique(g, TileElems, 0, g);
      AgreesBelowHalf(s, g);
    }
    forall g | 0 <= g < n ensures Writes(s, n)[g] == IntendedWrites(s, n)[g] {
      WritesAt(s, n, g);
      IntendedWritesAt(s, n, g);
    }
  }

  /**
   * The kernel: `s` holds the runtime arguments and the contents of the two
   * buffers it only reads. The sparse buffer ends up exactly as the plain loop
   * over the processed elements, with the destinations the kernel computes,
   * leaves it, and each element reads and then writes back its destination's
   * tile, in element order.
   */
  method KernelMain(s: ScatterJob, sparse: DramBuffer<u16>)
    requires |sparse.data| == s.sparseLen
    modifies sparse
    ensures sparse.data == Apply(old(sparse.data), Writes(s, Processed(s.numElements)))
    ensures sparse.trace == old(sparse.trace) + RmwOps(Writes(s, Processed(s.numElements)))
  {
    ghost var s0 := sparse.data;
    ghost var t0 := sparse.trace;
    // `l1_buffer_addr`: the pattern page, whose upper half the dense tile shares.
    var l1 := new byte[4 * TileElems];
    // `l1_buffer_addr + 2 * tile_size_bytes`: the sparse tile.
    var sparseBuf := new u16[TileElems];
    var numTiles := NumTiles(s.numElements);
    var t: u32 := 0;
    ghost var done: u32 := 0;
    while t < numTiles
      invariant t <= numTiles && done == Min(t * TileElems, s.numElements)
      invariant Stored(s, sparse, s0, t0, done)
    {
      TileBounds(s.numElements, t);
      assert done == t * TileElems;
      ScatterTile(s, t, sparse, l1, sparseBuf, s0, t0);
      t := t + 1;
      done := Min(t * TileElems, s.numElements);
    }
    assert done == Processed(s.numElements);
  }

  /**
   * The sparse buffer holds the stores of global elements `[0, n)` applied to
   * `s0`, and its log holds their tile operations after `t0`.
   */
  ghost predicate Stored(s: ScatterJob, sparse: DramBuffer<u16>, s0: seq<u16>, t0: seq<PageOp>, n: u32)
    reads sparse
  {
    n <= Processed(s.numElements) && |s0| == s.sparseLen && |sparse.data| == |s0| &&
    sparse.data == Apply(s0, Writes(s, n)) && sparse.trace == t0 + RmwOps(Writes(s, n))
  }

  /** Element `g`'s store and its tile's read and write-back take `Stored` from `g` to `g + 1`. */
  lemma StoreStep(s: ScatterJob, g: u32, data: seq<u16>, trace: seq<PageOp>, s0: seq<u16>, t0: seq<PageOp>)
    requires g < Processed(s.numElements) && |s0| == s.sparseLen
    requires data == Apply(s0, Writes(s, g)) && trace == t0 + RmwOps(Writes(s, g))
    ensures ElementWrite(s, g).index < |data|
    ensures data[ElementWrite(s, g).index := ElementWrite(s, g).value] == Apply(s0, Writes(s, g + 1))
    ensures trace + [PageRead(TileOf(ElementWrite(s, g).index)), PageWrite(TileOf(ElementWrite(s, g).index))] ==
              t0 + RmwOps(Writes(s, g + 1))
  {
    WritesSnoc(s, g);
    ApplySnoc(s0, Writes(s, g), ElementWrite(s, g));
    RmwOpsSnoc(Writes(s, g), ElementWrite(s, g));
  }

  /**
   * One iteration of the tile loop: read pattern page `t` (4096 bytes) to
   * `l1_buffer_addr`, then dense tile `t` (2048 bytes) to `l1_buffer_addr + 2048`,
   * then store the tile's elements `[t * 1024, min((t + 1) * 1024, num_elements))`
   * one by one.
   */
  method ScatterTile(s: ScatterJob, t: u32, sparse: DramBuffer<u16>, l1: array<byte>, sparseBuf: array<u16>,
                     ghost s0: seq<u16>, ghost t0: seq<PageOp>)
    requires t < NumTiles(s.numElements)
    requires l1.Length == 4 * TileElems && sparseBuf.Length == TileElems
    requires Stored(s, sparse, s0, t0, t * TileElems)
    modifies sparse, l1, sparseBuf
    ensures Stored(s, sparse, s0, t0, Min((t + 1) * TileElems, s.numElements))
  {
    TileBounds(s.numElements, t);
    TileInBuffers(s, t);
    var tileStart := Wrap32(t * TileElems);
    var tileEnd := Wrap32((t + 1) * TileElems);
    if tileEnd > s.numElements {
      tileEnd := s.numElements;
    }
    assert tileStart == t * TileElems && tileEnd == Min((t + 1) * TileElems, s.numElements);
    LoadTile(s, t, l1);
    ScatterElements(s, t, tileStart, tileEnd - tileStart, sparse, l1, sparseBuf, s0, t0);
  }

  /** The element loop of tile `t`: its first `count` elements, in order. */
  method ScatterElements(s: ScatterJob, t: u32, tileStart: u32, count: u32, sparse: DramBuffer<u16>,
                         l1: array<byte>, sparseBuf: array<u16>, ghost s0: seq<u16>, ghost t0: seq<PageOp>)
    requires t < NumTiles(s.numElements) && tileStart == t * TileElems
    requires count <= TileElems && tileStart + count <= Processed(s.numElements)
    requires Paged(s) && (t + 1) * TileElems <= |s.pattern| && (t + 1) * TileElems <= |s.dense|
    requires L1Holds(s, t, l1[..])
    requires sparseBuf.Length == TileElems
    requires Stored(s, sparse, s0, t0, tileStart)
    modifies sparse, sparseBuf
    ensures Stored(s, sparse, s0, t0, tileStart + count)
  {
    var elem: u32 := 0;
    ghost var g: u32 := tileStart;
    while elem < count
      invariant elem <= count && g == tileStart + elem
      invariant Stored(s, sparse, s0, t0, g)
    {
      ScatterElement(s, t, tileStart, elem, g, sparse, l1, sparseBuf, s0, t0);
      elem := elem + 1;
      g := g + 1;
    }
    assert g == tileStart + count;
  }

  /**
   * One iteration of the element loop: element `t * 1024 + elem` reads its
   * pattern entry as the word at byte `4 * elem` of L1 and its value as the
   * half at byte `2048 + 2 * elem`, and is stored through a read-modify-write
   * of its destination tile.
   */
  method ScatterElement(s: ScatterJob, t: u32, tileStart: u32, elem: u32, ghost g: u32, sparse: DramBuffer<u16>,
                        l1: array<byte>, sparseBuf: array<u16>, ghost s0: seq<u16>, ghost t0: seq<PageOp>)
    requires t < NumTiles(s.numElements) && tileStart == t * TileElems
    requires elem < TileElems && g == tileStart + elem && g < Processed(s.numElements)
    requires Paged(s) && (t + 1) * TileElems <= |s.pattern| && (t + 1) * TileElems <= |s.dense|
    requires L1Holds(s, t, l1[..])
    requires sparseBuf.Length == TileElems
    requires Stored(s, sparse, s0, t0, g)
    modifies sparse, sparseBuf
    ensures Stored(s, sparse, s0, t0, g + 1)
  {
    var globalElem: u32 := tileStart + elem;
    var patternEntry, value := ReadElement(s, t, elem, g, l1);
    var dst := StridedIndex(patternEntry, s.delta, globalElem / TileElems);
    DivModUnique(g, TileElems, t, elem);
    assert ElementWrite(s, g) == Write(dst, value);
    StoreStep(s, g, sparse.data, sparse.trace, s0, t0);
    StoreThrough(sparse, dst, value, sparseBuf);
  }

  /**
   * The two reads of tile `t`: pattern page `t` (4096 bytes) to
   * `l1_buffer_addr`, then dense tile `t` (2048 bytes) to `l1_buffer_addr + 2048`.
   */
  method LoadTile(s: ScatterInputs, t: u32, l1: array<byte>)
    requires (t + 1) * TileElems <= |s.pattern| && (t + 1) * TileElems <= |s.dense| && l1.Length == 4 * TileElems
    modifies l1
    ensures l1[..] == L1Bytes(PageOf(s.pattern, t, TileElems), PageOf(s.dense, t, TileElems))
    ensures L1Holds(s, t, l1[..])
  {
    LoadBytes(l1, 0, EncodeWords(PageOf(s.pattern, t, TileElems)));
    assert l1[..] == EncodeWords(PageOf(s.pattern, t, TileElems));
    LoadBytes(l1, TileBytes, EncodeHalves(PageOf(s.dense, t, TileElems)));
    L1Layout(s, t);
  }

  /**
   * `pattern_data[elem]` and `dense_data[elem]`: the word at byte `4 * elem`
   * and the half at byte `2048 + 2 * elem` of L1, both little-endian.
   */
  method ReadElement(s: ScatterJob, t: u32, elem: u32, ghost g: u32, l1: array<byte>) returns (patternEntry: u32, value: u16)
    requires t < NumTiles(s.numElements) && elem < TileElems && g == t * TileElems + elem && g < Processed(s.numElements)
    requires (t + 1) * TileElems <= |s.pattern| && (t + 1) * TileElems <= |s.dense|
    requires L1Holds(s, t, l1[..])
    ensures patternEntry == SeenEntry(s, g) && value == s.dense[g]
  {
    patternEntry := WordOf(l1[4 * elem], l1[4 * elem + 1], l1[4 * elem + 2], l1[4 * elem + 3]);
    value := (l1[TileBytes + 2 * elem] as int + 0x100 * l1[TileBytes + 2 * elem + 1] as int) as u16;
    assert patternEntry == PatternRead(l1[..], elem) == L1Word(s, t, elem);
    assert value == DenseRead(l1[..], elem) == L1Half(s, t, elem);
    DivModUnique(g, TileElems, t, elem);
  }
}
