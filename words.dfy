/** Fixed-width machine words, tile geometry and the uint32 arithmetic the kernels use. */
module Words {

  /** A bfloat16 element, seen only as its 16-bit pattern. */
  type u16 = x: int | 0 <= x < 0x1_0000
  /** A `uint32_t`. */
  type u32 = x: int | 0 <= x < 0x1_0000_0000
  /** A `size_t` on the 64-bit host. */
  type u64 = x: int | 0 <= x < 0x1_0000_0000_0000_0000

  /** Elements of a 32 x 32 tile. */
  const TileElems: nat := 1024
  /** `TILE_SIZE_BYTES`: 32 * 32 two-byte elements. */
  const TileBytes: nat := 2048
  /** `uint32_t` words in one 2048-byte page of an index array. */
  const IndexPageWords: nat := 512
  /** `UINT32_MAX`, the kernels' "no tile cached" marker. */
  const NoTile: u32 := 0xFFFF_FFFF
  /** The device's 4 GiB of DRAM holds at most 2^31 two-byte elements. */
  const MaxDramElems: nat := 0x8000_0000

  /** Reduction modulo 2^32, which is what C does to a `uint32_t` result. */
  function Wrap32(x: int): (r: u32)
    ensures 0 <= x < 0x1_0000_0000 ==> r == x
    ensures (x - r) % 0x1_0000_0000 == 0
  {
    x % 0x1_0000_0000
  }

  /** Reduction modulo 2^64, for `size_t` results. */
  function Wrap64(x: int): (r: u64)
    ensures 0 <= x < 0x1_0000_0000_0000_0000 ==> r == x
    ensures (x - r) % 0x1_0000_0000_0000_0000 == 0
  {
    x % 0x1_0000_0000_0000_0000
  }

  /** The tile holding element `idx`: `idx / elements_per_tile`. */
  function TileOf(idx: nat): (t: nat)
    ensures t * TileElems <= idx < (t + 1) * TileElems
  {
    idx / TileElems
  }

  /** The slot of element `idx` inside its tile: `idx % elements_per_tile`. */
  function OffsetOf(idx: nat): (off: nat)
    ensures off < TileElems
    ensures TileOf(idx) * TileElems + off == idx
  {
    idx % TileElems
  }

  /** An index below a whole number of tiles lies in one of those tiles. */
  lemma TileInRange(idx: nat, len: nat)
    requires idx < len && len % TileElems == 0
    ensures (TileOf(idx) + 1) * TileElems <= len
  {
    var t := TileOf(idx);
    var q := len / TileElems;
    assert q * TileElems == len;
    assert t < q;
  }

  lemma MulMonotone(a: int, b: int, c: int)
    requires a >= 0 && b <= c
    ensures a * b <= a * c
  {
    assert a * c - a * b == a * (c - b);
  }

  /** Quotient and remainder put a number back together. */
  lemma DivModSplit(a: int, n: int)
    requires n > 0
    ensures (a / n) * n + a % n == a
  {
  }

  /** Remainder and quotient are no larger than what they come from. */
  lemma DivModBounds(x: nat, n: nat)
    requires n > 0
    ensures x % n < n && x / n <= x
  {
    DivModSplit(x, n);
    MulMonotone(x / n, 1, n);
  }

  /** Euclidean division has one quotient and one remainder. */
  lemma DivModUnique(a: int, n: int, q: int, r: int)
    requires n > 0 && 0 <= r < n && a == q * n + r
    ensures a / n == q && a % n == r
  {
    var q', r' := a / n, a % n;
    assert a == q' * n + r';
    assert (q - q') * n == r' - r;
    if q > q' {
      MulMonotone(n, 1, q - q');
    } else if q < q' {
      MulMonotone(n, 1, q' - q);
    }
  }

  /** The tile count `(num_elements + elements_per_tile - 1) / elements_per_tile` in `uint32_t`. */
  function NumTiles(num: u32): (n: u32)
    ensures num + TileElems - 1 < 0x1_0000_0000 ==> (n - 1) * TileElems < num <= n * TileElems
    ensures num + TileElems - 1 >= 0x1_0000_0000 ==> n == 0
  {
    var n := Wrap32(num + TileElems - 1) / TileElems;
    if num + TileElems - 1 < 0x1_0000_0000 then
      DivModSplit(num + TileElems - 1, TileElems);
      n
    else
      DivModUnique(num + TileElems - 1, 0x1_0000_0000, 1, num + TileElems - 1 - 0x1_0000_0000);
      n
  }

  /**
   * The elements a tile loop over `NumTiles(num)` tiles handles: all of them,
   * unless the rounding-up addition wraps (`num > 2^32 - 1024`), in which
   * case there is no tile at all.
   */
  function Processed(num: u32): (p: u32)
    ensures p == num || p == 0
    ensures p <= NumTiles(num) * TileElems
  {
    if num + TileElems - 1 < 0x1_0000_0000 then num else 0
  }

  /** An empty count processes no tile, and a count whose rounding wraps processes none either. */
  lemma NoTilesWhenNothingProcessed(num: u32)
    requires Processed(num) == 0
    ensures NumTiles(num) == 0
  {
  }

  /** Tile `t` of the loop neither starts nor ends past 2^32, and starts below `num_elements`. */
  lemma TileBounds(num: u32, t: u32)
    requires t < NumTiles(num)
    ensures t * TileElems < num && (t + 1) * TileElems < 0x1_0000_0000
  {
    MulMonotone(TileElems, t, NumTiles(num) - 1);
  }

  /** The smaller of two counts. */
  function Min(a: nat, b: nat): (m: nat)
    ensures m <= a && m <= b && (m == a || m == b)
  {
    if a <= b then a else b
  }
}
