/**
 * The writer of the three-kernel gather pipeline: it takes the output tiles
 * the compute kernel produces, one at a time and in order, from circular
 * buffer `c_16`, and writes them to consecutive tiles of the dense buffer,
 * starting at tile `work_offset / 1024`.
 *
 * The circular buffer is the sequence of pages the compute kernel produces;
 * `cb_wait_front` / `get_read_ptr` read its next page and `cb_pop_front`
 * advances past it, so the kernel's result includes how many pages it
 * consumed.
 */
module WriterGather {
  import opened Words
  import opened TileStore

  /** Runtime arguments 1 and 2 (argument 0, the buffer address, is the `DramBuffer` itself). */
  datatype WriterArgs = WriterArgs(numTiles: u32, workOffset: u32)

  /**
   * `end_tile_id = start_tile_id + num_tiles`, a 32-bit sum, where
   * `start_tile_id = work_offset / (32 * 32)` is `TileOf(work_offset)`. Past
   * 2^32 the sum wraps to a tile below the start.
   */
  function EndTile(a: WriterArgs): (e: u32)
    ensures TileOf(a.workOffset) + a.numTiles < 0x1_0000_0000 ==> e == TileOf(a.workOffset) + a.numTiles
    ensures TileOf(a.workOffset) + a.numTiles >= 0x1_0000_0000 ==> e < TileOf(a.workOffset)
  {
    Wrap32(TileOf(a.workOffset) + a.numTiles)
  }

  /**
   * How many times the loop `for (tile_id = start; tile_id < end; ++tile_id)`
   * runs: `num_tiles`, unless the end tile wraps past 2^32, in which case it
   * lies below the start and the loop does not run at all.
   */
  function Count(a: WriterArgs): (n: nat)
    ensures n == if TileOf(a.workOffset) + a.numTiles < 0x1_0000_0000 then a.numTiles else 0
    ensures TileOf(a.workOffset) + n < 0x1_0000_0000
  {
    if EndTile(a) <= TileOf(a.workOffset) then 0 else EndTile(a) - TileOf(a.workOffset)
  }

  /** Every page of `pages` before `n` is one whole tile. */
  ghost predicate WholeTiles(pages: seq<seq<u16>>, n: nat)
  {
    n <= |pages| && forall k :: 0 <= k < n ==> |pages[k]| == TileElems
  }

  /** `d0` with tiles `start .. start + n - 1` replaced by the first `n` pages, in order. */
  function Placed(d0: seq<u16>, start: nat, pages: seq<seq<u16>>, n: nat): (r: seq<u16>)
    requires WholeTiles(pages, n) && (start + n) * TileElems <= |d0|
    ensures |r| == |d0|
  {
    seq(|d0|, i requires 0 <= i < |d0| =>
      if start * TileElems <= i < (start + n) * TileElems then pages[TileOf(i) - start][OffsetOf(i)] else d0[i])
  }

  /** The writes of tiles `start .. start + n - 1`, in order. */
  function TileWrites(start: nat, n: nat): (r: seq<PageOp>)
    ensures |r| == n && forall k :: 0 <= k < n ==> r[k] == PageWrite(start + k)
  {
    seq(n, k requires 0 <= k < n => PageWrite(start + k))
  }

  /** Writing page `n` to tile `start + n` over the first `n` placed pages places `n + 1`. */
  lemma {:induction false} PlacedStep(d0: seq<u16>, start: nat, pages: seq<seq<u16>>, n: nat)
    requires WholeTiles(pages, n + 1) && (start + n + 1) * TileElems <= |d0|
    ensures Splice(Placed(d0, start, pages, n), start + n, TileElems, pages[n]) == Placed(d0, start, pages, n + 1)
  {
    var a := Splice(Placed(d0, start, pages, n), start + n, TileElems, pages[n]);
    var b := Placed(d0, start, pages, n + 1);
    forall i | 0 <= i < |d0| ensures a[i] == b[i] {
      if (start + n) * TileElems <= i < (start + n + 1) * TileElems {
        assert TileOf(i) == start + n;
        assert a[i] == pages[n][i - (start + n) * TileElems];
      }
    }
  }

  /** Slot `off` of the `k`-th page consumed lands in slot `off` of tile `start + k`. */
  lemma PageLands(d0: seq<u16>, start: nat, pages: seq<seq<u16>>, n: nat, k: nat, off: nat)
    requires WholeTiles(pages, n) && (start + n) * TileElems <= |d0|
    requires k < n && off < TileElems
    ensures (start + k) * TileElems + off < |d0|
    ensures Placed(d0, start, pages, n)[(start + k) * TileElems + off] == pages[k][off]
  {
    var i := (start + k) * TileElems + off;
    MulMonotone(TileElems, start + k + 1, start + n);
    DivModUnique(i, TileElems, start + k, off);
  }

  /** Every tile outside `start .. start + n - 1` keeps its contents. */
  lemma OtherTilesUntouched(d0: seq<u16>, start: nat, pages: seq<seq<u16>>, n: nat, p: nat)
    requires WholeTiles(pages, n) && (start + n) * TileElems <= |d0|
    requires (p + 1) * TileElems <= |d0| && (p < start || start + n <= p)
    ensures PageOf(Placed(d0, start, pages, n), p, TileElems) == PageOf(d0, p, TileElems)
  {
    if p < start {
      MulMonotone(TileElems, p + 1, start);
    } else {
      MulMonotone(TileElems, start + n, p);
    }
  }

  /**
   * The kernel: tile `start + k` of the dense buffer receives the `k`-th page
   * the compute kernel produced, for every `k` below the loop's count, in
   * ascending order; nothing else changes.
   */
  method KernelMain(a: WriterArgs, produced: seq<seq<u16>>, dense: DramBuffer<u16>) returns (consumed: nat)
    requires WholeTiles(produced, Count(a))
    requires (TileOf(a.workOffset) + Count(a)) * TileElems <= |dense.data|
    modifies dense
    ensures consumed == Count(a)
    ensures dense.data == Placed(old(dense.data), TileOf(a.workOffset), produced, consumed)
    ensures dense.trace == old(dense.trace) + TileWrites(TileOf(a.workOffset), consumed)
  {
    var start := TileOf(a.workOffset);
    var end := EndTile(a);
    ghost var d0 := dense.data;
    ghost var t0 := dense.trace;
    var tile := start;
    consumed := 0;
    while tile < end
      invariant tile == start + consumed && consumed <= Count(a)
      invariant dense.data == Placed(d0, start, produced, consumed)
      invariant dense.trace == t0 + TileWrites(start, consumed)
    {
      var page := produced[consumed];
      MulMonotone(TileElems, tile + 1, start + Count(a));
      PlacedStep(d0, start, produced, consumed);
      dense.WritePage(tile, TileElems, page);
      assert TileWrites(start, consumed) + [PageWrite(tile)] == TileWrites(start, consumed + 1);
      consumed := consumed + 1;
      tile := tile + 1;
    }
  }

  /** With `num_tiles == 0` the kernel consumes nothing and leaves the buffer as it was. */
  lemma NoTilesNoWrites(a: WriterArgs, d0: seq<u16>, pages: seq<seq<u16>>)
    requires a.numTiles == 0 && TileOf(a.workOffset) * TileElems <= |d0|
    ensures Count(a) == 0 && Placed(d0, TileOf(a.workOffset), pages, Count(a)) == d0
  {
    assert Placed(d0, TileOf(a.workOffset), pages, 0) == d0;
  }
}
