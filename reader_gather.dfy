/**
 * dataflow/reader_gather.cpp: the reader stage of the three-kernel gather
 * pipeline. For every output tile of the core's element range it pushes one
 * pattern tile and then one sparse tile, both with the output tile's id, to
 * the compute stage's circular buffers. A push is an append to the log of
 * pushes; the DRAM buffers it reads are values, so it writes none of them.
 */
module ReaderGather {
  import opened Words
  import opened TileStore

  /**
   * The runtime arguments (the DRAM addresses become the buffers). `delta`
   * and `sparse_size` are read but not used by this stage.
   */
  datatype ReaderArgs = ReaderArgs(workOffset: u32, workPerCore: u32, delta: u32, sparseSize: u32)

  /** `end_element = work_offset + work_per_core` in `uint32_t`. */
  function EndElement(a: ReaderArgs): (e: u32)
    ensures a.workOffset + a.workPerCore < 0x1_0000_0000 ==> e == a.workOffset + a.workPerCore
  {
    Wrap32(a.workOffset + a.workPerCore)
  }

  /** `start_tile = start_element / 1024`. */
  function StartTile(a: ReaderArgs): (t: u32)
    ensures t * TileElems <= a.workOffset < (t + 1) * TileElems
  {
    TileOf(a.workOffset)
  }

  /**
   * `end_tile = (end_element + 1023) / 1024` in `uint32_t`: without
   * wrap-around, the least tile boundary at or above the end of the range.
   */
  function EndTile(a: ReaderArgs): (t: u32)
    ensures a.workOffset + a.workPerCore + TileElems - 1 < 0x1_0000_0000 ==>
              t * TileElems - TileElems < a.workOffset + a.workPerCore <= t * TileElems
  {
    var x := Wrap32(EndElement(a) + TileElems - 1);
    DivModSplit(x, TileElems);
    x / TileElems
  }

  /** The part of a tile a core works on, as tile-local offsets `[lo, hi)`. */
  datatype InTileWindow = InTileWindow(lo: u32, hi: u32)

  /**
   * The window of tile `t`: `work_start_in_tile` and `work_end_in_tile`,
   * with the tile bounds and the subtraction in `uint32_t`. Without
   * wrap-around it is the core's element range
   * `[work_offset, work_offset + work_per_core)` intersected with the tile,
   * shifted to tile-local offsets.
   */
  function Window(a: ReaderArgs, t: u32): (w: InTileWindow)
    ensures a.workOffset + a.workPerCore < 0x1_0000_0000 && (t + 1) * TileElems < 0x1_0000_0000 ==>
            var lo := if a.workOffset > t * TileElems then a.workOffset else t * TileElems;
            var hi := if a.workOffset + a.workPerCore < (t + 1) * TileElems then a.workOffset + a.workPerCore
                      else (t + 1) * TileElems;
            w.lo == lo - t * TileElems && (lo <= hi ==> w.hi == hi - t * TileElems)
  {
    var tileStart := Wrap32(t * TileElems);
    var tileEnd := Wrap32((t + 1) * TileElems);
    var lo := if a.workOffset > tileStart then a.workOffset - tileStart else 0;
    var hi := if EndElement(a) < tileEnd then Wrap32(EndElement(a) - tileStart) else TileElems;
    InTileWindow(lo, hi)
  }

  /**
   * Tile `t` is not skipped: its window is not empty. Without wrap-around,
   * a tile the loop visits has work exactly when the core has elements.
   */
  predicate HasWork(a: ReaderArgs, t: u32): (b: bool)
    ensures a.workOffset + a.workPerCore + TileElems - 1 < 0x1_0000_0000 && StartTile(a) <= t < EndTile(a) ==>
              (b <==> a.workPerCore > 0)
  {
    var w := Window(a, t);
    if StartTile(a) <= t then
      MulMonotone(TileElems, StartTile(a), t);
      w.lo < w.hi
    else
      w.lo < w.hi
  }

  /**
   * The tiles the loop has pushed once `tile_idx` reaches `hi`: the tiles of
   * `[start_tile, hi)` with work, in ascending order.
   */
  function ReadTiles(a: ReaderArgs, hi: u32): (r: seq<u32>)
    ensures forall k :: 0 <= k < |r| ==> StartTile(a) <= r[k] < hi
    ensures forall k :: 0 < k < |r| ==> r[k - 1] < r[k]
    decreases hi
  {
    if hi <= StartTile(a) then []
    else
      var r := ReadTiles(a, hi - 1);
      if HasWork(a, hi - 1) then r + [hi - 1] else r
  }

  /** Moving `tile_idx` past tile `t` reads `t` exactly when it has work. */
  lemma ReadTilesStep(a: ReaderArgs, t: u32)
    requires StartTile(a) <= t < 0xFFFF_FFFF
    ensures ReadTiles(a, t + 1) == if HasWork(a, t) then ReadTiles(a, t) + [t] else ReadTiles(a, t)
  {
  }

  /** Only tiles with work are read. */
  lemma {:induction false} ReadTilesHaveWork(a: ReaderArgs, hi: u32, k: nat)
    requires k < |ReadTiles(a, hi)|
    ensures HasWork(a, ReadTiles(a, hi)[k])
    decreases hi
  {
    var r := ReadTiles(a, hi - 1);
    if k < |r| {
      ReadTilesHaveWork(a, hi - 1, k);
      assert ReadTiles(a, hi)[k] == r[k];
    } else {
      assert HasWork(a, hi - 1) && ReadTiles(a, hi) == r + [hi - 1];
    }
  }

  /** One push to a circular buffer of the compute stage: `c_1` takes pattern tiles, `c_0` sparse tiles. */
  datatype Push = PatternTile(id: u32, pattern: seq<u32>) | SparseTile(id: u32, sparse: seq<u16>)

  /** The reader's inputs: its arguments, the two DRAM buffers, and the page size of each circular buffer. */
  datatype ReaderInputs = ReaderInputs(args: ReaderArgs, pattern: seq<u32>, sparse: seq<u16>,
                                       patternPage: nat, sparsePage: nat)

  /** Every tile id up to `end_tile` is a whole page of both buffers. */
  predicate Admissible(r: ReaderInputs)
  {
    EndTile(r.args) * r.patternPage <= |r.pattern| && EndTile(r.args) * r.sparsePage <= |r.sparse|
  }

  type ReaderJob = r: ReaderInputs | Admissible(r) witness ReaderInputs(ReaderArgs(0, 0, 0, 0), [], [], 0, 0)

  /** A tile id below `end_tile` is a whole page of both buffers. */
  lemma PagesExist(r: ReaderJob, t: u32)
    requires t < EndTile(r.args)
    ensures (t + 1) * r.patternPage <= |r.pattern| && (t + 1) * r.sparsePage <= |r.sparse|
  {
    MulMonotone(r.patternPage, t + 1, EndTile(r.args));
    MulMonotone(r.sparsePage, t + 1, EndTile(r.args));
  }

  /** The two pushes for tile `t`: its pattern page, then its sparse page. */
  function TilePushes(r: ReaderJob, t: u32): (p: seq<Push>)
    requires t < EndTile(r.args)
    ensures |p| == 2
  {
    PagesExist(r, t);
    [PatternTile(t, PageOf(r.pattern, t, r.patternPage)), SparseTile(t, PageOf(r.sparse, t, r.sparsePage))]
  }

  /** The pushes for the tiles `ts`, in order. */
  function Pushes(r: ReaderJob, ts: seq<u32>): (p: seq<Push>)
    requires forall k :: 0 <= k < |ts| ==> ts[k] < EndTile(r.args)
    ensures |p| == 2 * |ts|
  {
    if ts == [] then [] else Pushes(r, ts[..|ts| - 1]) + TilePushes(r, ts[|ts| - 1])
  }

  /** One more tile adds its two pushes at the end. */
  lemma PushesSnoc(r: ReaderJob, ts: seq<u32>, t: u32)
    requires forall k :: 0 <= k < |ts| ==> ts[k] < EndTile(r.args)
    requires t < EndTile(r.args)
    ensures Pushes(r, ts + [t]) == Pushes(r, ts) + TilePushes(r, t)
  {
    assert (ts + [t])[..|ts|] == ts;
  }

  /**
   * Push `2k` is the pattern page of the k-th tile read and push `2k + 1` its
   * sparse page: the sparse tile has the output tile's id, whatever the
   * pattern holds.
   */
  lemma {:induction false} PushesAt(r: ReaderJob, ts: seq<u32>, k: nat)
    requires forall i :: 0 <= i < |ts| ==> ts[i] < EndTile(r.args)
    requires k < |ts|
    ensures (ts[k] + 1) * r.patternPage <= |r.pattern| && (ts[k] + 1) * r.sparsePage <= |r.sparse|
    ensures Pushes(r, ts)[2 * k] == PatternTile(ts[k], PageOf(r.pattern, ts[k], r.patternPage))
    ensures Pushes(r, ts)[2 * k + 1] == SparseTile(ts[k], PageOf(r.sparse, ts[k], r.sparsePage))
  {
    PagesExist(r, ts[k]);
    if k < |ts| - 1 {
      PushesAt(r, ts[..|ts| - 1], k);
    }
  }

  /** With no work, every tile is skipped. */
  lemma NoWorkSkipsEveryTile(a: ReaderArgs, t: u32)
    requires a.workPerCore == 0 && StartTile(a) <= t < EndTile(a)
    ensures !HasWork(a, t)
  {
    if a.workOffset + TileElems - 1 < 0x1_0000_0000 {
      DivModSplit(a.workOffset + TileElems - 1, TileElems);
    } else {
      DivModUnique(a.workOffset + TileElems - 1, 0x1_0000_0000, 1, a.workOffset + TileElems - 1 - 0x1_0000_0000);
    }
    assert t == StartTile(a);
  }

  /** The tiles the loop reads when every tile of `[start_tile, hi)` has work: all of them. */
  lemma {:induction false} ReadTilesContiguous(a: ReaderArgs, hi: u32)
    requires forall t: u32 :: StartTile(a) <= t < hi ==> HasWork(a, t)
    ensures ReadTiles(a, hi) == seq(if hi <= StartTile(a) then 0 else hi - StartTile(a), k => StartTile(a) + k)
    decreases hi
  {
    if hi > StartTile(a) {
      ReadTilesContiguous(a, hi - 1);
    }
  }

  /**
   * With work to do and no wrap-around, the reader reads exactly the tiles
   * `start_tile, start_tile + 1, ..., end_tile - 1`; with no work it reads none.
   */
  lemma TilesRead(a: ReaderArgs)
    ensures a.workPerCore > 0 && a.workOffset + a.workPerCore + TileElems - 1 < 0x1_0000_0000 ==>
      ReadTiles(a, EndTile(a)) == seq(EndTile(a) - StartTile(a), k => StartTile(a) + k)
    ensures a.workPerCore == 0 ==> ReadTiles(a, EndTile(a)) == []
  {
    if a.workPerCore > 0 && a.workOffset + a.workPerCore + TileElems - 1 < 0x1_0000_0000 {
      ReadTilesContiguous(a, EndTile(a));
      DivModSplit(a.workOffset + a.workPerCore + TileElems - 1, TileElems);
    }
    if a.workPerCore == 0 {
      NoHasWorkNoTiles(a, EndTile(a));
    }
  }

  /** When no tile has work, nothing is read. */
  lemma {:induction false} NoHasWorkNoTiles(a: ReaderArgs, hi: u32)
    requires a.workPerCore == 0 && hi <= EndTile(a)
    ensures ReadTiles(a, hi) == []
    decreases hi
  {
    if StartTile(a) < hi {
      NoWorkSkipsEveryTile(a, hi - 1);
      NoHasWorkNoTiles(a, hi - 1);
    }
  }

  /**
   * The reader: for each tile of `[start_tile, end_tile)` in ascending order
   * whose window is not empty, push its pattern page and then its sparse page.
   */
  method KernelMain(r: ReaderJob) returns (pushes: seq<Push>)
    ensures pushes == Pushes(r, ReadTiles(r.args, EndTile(r.args)))
  {
    var a := r.args;
    var startTile := StartTile(a);
    var endTile := EndTile(a);
    pushes := [];
    var tile := startTile;
    while tile < endTile
      invariant tile == startTile || startTile < tile <= endTile
      invariant forall k :: 0 <= k < |ReadTiles(a, tile)| ==> ReadTiles(a, tile)[k] < endTile
      invariant pushes == Pushes(r, ReadTiles(a, tile))
    {
      pushes := ReadTile(r, tile, pushes);
      tile := tile + 1;
    }
    if tile != endTile {
      assert ReadTiles(a, tile) == [] == ReadTiles(a, endTile);
    }
  }

  /**
   * One iteration of the tile loop: if tile `t`'s window is not empty, push
   * its pattern page, then its sparse page.
   */
  method ReadTile(r: ReaderJob, t: u32, pushes: seq<Push>) returns (pushes': seq<Push>)
    requires StartTile(r.args) <= t < EndTile(r.args)
    requires pushes == Pushes(r, ReadTiles(r.args, t))
    ensures pushes' == Pushes(r, ReadTiles(r.args, t + 1))
  {
    ReadTilesStep(r.args, t);
    pushes' := pushes;
    var w := Window(r.args, t);
    if w.lo < w.hi {
      pushes' := PushTile(r, t, pushes');
      PushesSnoc(r, ReadTiles(r.args, t), t);
    }
  }

  /**
   * The body of a tile with work: read pattern tile `t` into the pattern
   * buffer's back slot and push it, then the same for sparse tile `t`.
   */
  method PushTile(r: ReaderJob, t: u32, pushes: seq<Push>) returns (pushes': seq<Push>)
    requires t < EndTile(r.args)
    ensures pushes' == pushes + TilePushes(r, t)
  {
    PagesExist(r, t);
    pushes' := pushes + [PatternTile(t, PageOf(r.pattern, t, r.patternPage))];
    pushes' := pushes' + [SparseTile(t, PageOf(r.sparse, t, r.sparsePage))];
  }
}
