/**
 * The host side of the backend: the buffer-size arithmetic, the zero padding
 * of data sent to the device, the bookkeeping of unpadded lengths in
 * `buffer_sizes_`, and the guards against an uninitialised device.
 *
 * Device memory is modelled byte by byte, little-endian, so that data written
 * as `uint32_t` words and data read back as bfloat16 halves are two views of
 * the same bytes. `EnqueueWriteBuffer` places the bytes of the vector it is
 * given at the start of the buffer; `EnqueueReadBuffer` returns the whole
 * buffer. Element values are bfloat16 bit patterns: the double/float
 * conversions around them are not part of this model.
 */
module Backend {
  import opened Words
  import opened Bytes

  /** `TILE_SIZE_BYTES`. */
  const TileSizeBytes: nat := TileBytes
  /** `DRAM_ALIGNMENT`: DRAM buffer sizes are multiples of 64 bytes. */
  const DramAlignment: nat := 64

  /**
   * `((x + m - 1) / m) * m` in `size_t`: the least multiple of `m` at or
   * above `x`, or 0 when `x + m - 1` wraps past 2^64.
   */
  function RoundUp(x: u64, m: nat): (r: u64)
    requires 0 < m <= TileSizeBytes
    ensures x + m - 1 < 0x1_0000_0000_0000_0000 ==> r % m == 0 && x <= r < x + m
    ensures x + m - 1 >= 0x1_0000_0000_0000_0000 ==> r == 0
  {
    var y := Wrap64(x + m - 1);
    var q := y / m;
    DivModSplit(y, m);
    DivModUnique(q * m, m, q, 0);
    if x + m - 1 >= 0x1_0000_0000_0000_0000 then
      DivModUnique(y, m, 0, y);
      q * m
    else
      q * m
  }

  /** `align_to_tile_size(size)`: the least multiple of 2048 at or above `size`, unless the sum wraps. */
  function AlignToTileSize(size: u64): (r: u64)
    ensures size + TileSizeBytes - 1 < 0x1_0000_0000_0000_0000 ==>
              r % TileSizeBytes == 0 && size <= r < size + TileSizeBytes
    ensures size + TileSizeBytes - 1 >= 0x1_0000_0000_0000_0000 ==> r == 0
  {
    RoundUp(size, TileSizeBytes)
  }

  /** No multiple of 2048 at or above `size` lies below `align_to_tile_size(size)`. */
  lemma AlignIsLeast(size: u64, m: nat)
    requires size + TileSizeBytes - 1 < 0x1_0000_0000_0000_0000
    requires m % TileSizeBytes == 0 && size <= m
    ensures AlignToTileSize(size) <= m
  {
    var r := AlignToTileSize(size);
    DivModSplit(m, TileSizeBytes);
    DivModSplit(r, TileSizeBytes);
    var qm, qr := m / TileSizeBytes, r / TileSizeBytes;
    assert m == 2048 * qm && r == 2048 * qr;
    assert qr < qm + 1;
  }

  /**
   * `calculate_buffer_size(num_elements)`: the bytes of `num_elements`
   * bfloat16 values, rounded up to whole tiles.
   */
  function CalculateBufferSize(numElements: u64): (r: u64)
    ensures r % TileSizeBytes == 0
    ensures 2 * numElements + TileSizeBytes - 1 < 0x1_0000_0000_0000_0000 ==>
              2 * numElements <= r < 2 * numElements + TileSizeBytes
    ensures 2 * numElements < 0x1_0000_0000_0000_0000 <= 2 * numElements + TileSizeBytes - 1 ==> r == 0
    ensures 2 * numElements >= 0x1_0000_0000_0000_0000 ==>
              r == AlignToTileSize(2 * numElements - 0x1_0000_0000_0000_0000)
  {
    RoundUp(Wrap64(numElements * 2), TileSizeBytes)
  }

  /** 1000 elements take one tile. */
  lemma ThousandElementsTakeOneTile()
    ensures CalculateBufferSize(1000) == 2048
  {
    assert Wrap64(1000 * 2) == 2000;
    assert Wrap64(2000 + 2047) == 4047;
  }

  /** The memory kinds a buffer can be allocated in. */
  datatype BufferType = Dram | L1

  /**
   * The size `allocate_buffer` asks for: the tile-aligned size, further
   * rounded up to 64 bytes for DRAM.
   */
  function AllocationSize(sizeBytes: u64, kind: BufferType): (r: u64)
    ensures kind == L1 ==> r == AlignToTileSize(sizeBytes)
    ensures kind == Dram ==>
              r % DramAlignment == 0 && AlignToTileSize(sizeBytes) <= r < AlignToTileSize(sizeBytes) + DramAlignment
  {
    var aligned := AlignToTileSize(sizeBytes);
    DivModSplit(aligned, TileSizeBytes);
    if kind == Dram then RoundUp(aligned, DramAlignment) else aligned
  }

  /** The 64-byte DRAM rounding never changes a tile-aligned size. */
  lemma AllocationIsTileAligned(sizeBytes: u64, kind: BufferType)
    ensures AllocationSize(sizeBytes, kind) == AlignToTileSize(sizeBytes)
  {
    var a := AlignToTileSize(sizeBytes);
    if kind == Dram {
      DivModSplit(a, TileSizeBytes);
      var q := a / TileSizeBytes;
      assert a == (32 * q) * DramAlignment;
      assert a + DramAlignment - 1 < 0x1_0000_0000_0000_0000;
      DivModUnique(a + DramAlignment - 1, DramAlignment, 32 * q, DramAlignment - 1);
    }
  }

  /** `((n + 1023) / 1024) * 1024`: the length data of `n` elements is padded to. */
  function PaddedLength(n: nat): (m: nat)
    ensures m % TileElems == 0 && n <= m < n + TileElems
  {
    DivModSplit(n + TileElems - 1, TileElems);
    ((n + TileElems - 1) / TileElems) * TileElems
  }

  /** No multiple of 1024 at or above `n` lies below the padded length. */
  lemma PaddedLengthIsLeast(n: nat, m: nat)
    requires m % TileElems == 0 && n <= m
    ensures PaddedLength(n) <= m
  {
    var r := PaddedLength(n);
    DivModSplit(m, TileElems);
    DivModSplit(r, TileElems);
    var qm, qr := m / TileElems, r / TileElems;
    assert m == 1024 * qm && r == 1024 * qr;
    assert qr < qm + 1;
  }

  /** `data` followed by zeros up to the padded length. */
  function Padded<T>(data: seq<T>, zero: T): (r: seq<T>)
    ensures |r| == PaddedLength(|data|) && r[..|data|] == data
    ensures forall i :: |data| <= i < |r| ==> r[i] == zero
  {
    data + seq(PaddedLength(|data|) - |data|, _ => zero)
  }

  /**
   * What `read_buffer` returns for buffer `b` holding `mem`: its halves, cut
   * to the recorded length when one was recorded.
   */
  function Readback(sizes: map<BufferId, nat>, b: BufferId, mem: seq<byte>): (r: seq<u16>)
    ensures b in sizes ==> |r| == Min(sizes[b], |mem| / 2)
    ensures b !in sizes ==> r == DecodeHalves(mem)
    ensures r == DecodeHalves(mem)[..|r|]
  {
    var halves := DecodeHalves(mem);
    var n := if b in sizes then sizes[b] else |halves|;
    halves[..Min(n, |halves|)]
  }

  /**
   * Writing `data` through `write_buffer` and reading the buffer back gives
   * `data` again, with its length and without the padding.
   */
  lemma WriteThenRead(sizes: map<BufferId, nat>, b: BufferId, mem: seq<byte>, data: seq<u16>)
    requires 2 * PaddedLength(|data|) <= |mem|
    ensures Readback(sizes[b := |data|], b, Overwrite(mem, 0, EncodeHalves(Padded(data, 0)))) == data
  {
    var p := Padded(data, 0);
    var m := Overwrite(mem, 0, EncodeHalves(p));
    assert m == EncodeHalves(p) + mem[2 * |p|..];
    DecodeEncodeHalves(p, mem[2 * |p|..]);
    assert DecodeHalves(m)[..|data|] == p[..|data|];
  }

  /** The one failure the buffer operations report: `TensTorrent device not initialized`. */
  datatype Error = NotInitialized

  datatype Result<T> = Ok(value: T) | Err(error: Error)

  /** A buffer handle; `shared_ptr<Buffer>` identity. */
  type BufferId = nat

  /** A possibly null buffer handle. */
  datatype BufferRef = Null | Ref(id: BufferId)

  class Device {
    /** `initialized_`. */
    var initialized: bool
    /** `buffer_sizes_`: the unpadded element count last written to each buffer. */
    var bufferSizes: map<BufferId, nat>
    /** The bytes of every buffer allocated so far. */
    var memory: map<BufferId, seq<byte>>
    /** The handle the next allocation returns. */
    var nextBuffer: BufferId

    /**
     * Handles are issued in order, and only a live buffer has a recorded
     * size (`buffer_sizes_` is keyed by the buffers themselves).
     */
    ghost predicate Valid()
      reads this
    {
      (forall b :: b in memory ==> b < nextBuffer) && bufferSizes.Keys <= memory.Keys
    }

    /** A device whose `initialize` succeeded (`succeeded`) or failed; the bring-up itself is foreign. */
    constructor (succeeded: bool)
      ensures Valid() && initialized == succeeded
      ensures bufferSizes == map[] && memory == map[]
    {
      initialized := succeeded;
      bufferSizes := map[];
      memory := map[];
      nextBuffer := 0;
    }

    /**
     * `allocate_buffer(size_bytes, type)`: a new buffer of the aligned size.
     * Its initial contents are not specified by the device; here they are zeros.
     */
    method AllocateBuffer(sizeBytes: u64, kind: BufferType) returns (r: Result<BufferId>)
      requires Valid()
      modifies this
      ensures Valid()
      ensures !old(initialized) ==> r == Err(NotInitialized) && unchanged(this)
      ensures old(initialized) ==>
                r == Ok(old(nextBuffer)) && r.value !in old(memory) && r.value !in bufferSizes &&
                memory == old(memory)[r.value := seq(AlignToTileSize(sizeBytes), _ => 0)] &&
                initialized && bufferSizes == old(bufferSizes)
    {
      if !initialized {
        return Err(NotInitialized);
      }
      var alignedSize := AllocationSize(sizeBytes, kind);
      AllocationIsTileAligned(sizeBytes, kind);
      var b := nextBuffer;
      memory := memory[b := seq(alignedSize, _ => 0)];
      nextBuffer := nextBuffer + 1;
      r := Ok(b);
    }

    /**
     * `write_buffer(buffer, data)`: records the unpadded length, pads the
     * halves with zeros to whole tiles and writes them to the buffer.
     */
    method WriteBuffer(b: BufferId, data: seq<u16>) returns (r: Result<()>)
      requires Valid() && (initialized ==> b in memory && 2 * PaddedLength(|data|) <= |memory[b]|)
      modifies this
      ensures Valid()
      ensures !old(initialized) ==> r == Err(NotInitialized) && unchanged(this)
      ensures old(initialized) ==>
                r == Ok(()) && initialized && nextBuffer == old(nextBuffer) &&
                bufferSizes == old(bufferSizes)[b := |data|] &&
                memory == old(memory)[b := Overwrite(old(memory)[b], 0, EncodeHalves(Padded(data, 0)))]
    {
      if !initialized {
        return Err(NotInitialized);
      }
      bufferSizes := bufferSizes[b := |data|];
      var alignedSize := ((|data| + TileElems - 1) / TileElems) * TileElems;
      var ttData: seq<u16> := [];
      var i := 0;
      while i < |data|
        invariant i <= |data| && ttData == data[..i]
      {
        ttData := ttData + [data[i]];
        i := i + 1;
      }
      while i < alignedSize
        invariant |data| <= i <= alignedSize && ttData == data + seq(i - |data|, _ => 0)
      {
        ttData := ttData + [0];
        i := i + 1;
      }
      assert ttData == Padded(data, 0);
      memory := memory[b := Overwrite(memory[b], 0, EncodeHalves(ttData))];
      r := Ok(());
    }

    /**
     * `writeBuffer(buffer, vector<uint32_t>)`: records the unpadded length,
     * pads the words with zeros to whole tiles and writes them to the buffer.
     */
    method WriteWords(b: BufferId, data: seq<u32>) returns (r: Result<()>)
      requires Valid() && (initialized ==> b in memory && 4 * PaddedLength(|data|) <= |memory[b]|)
      modifies this
      ensures Valid()
      ensures !old(initialized) ==> r == Err(NotInitialized) && unchanged(this)
      ensures old(initialized) ==>
                r == Ok(()) && initialized && nextBuffer == old(nextBuffer) &&
                bufferSizes == old(bufferSizes)[b := |data|] &&
                memory == old(memory)[b := Overwrite(old(memory)[b], 0, EncodeWords(Padded(data, 0)))]
    {
      if !initialized {
        return Err(NotInitialized);
      }
      bufferSizes := bufferSizes[b := |data|];
      var alignedSize := ((|data| + TileElems - 1) / TileElems) * TileElems;
      var alignedData := data + seq(alignedSize - |data|, _ => 0);
      assert alignedData == Padded(data, 0);
      memory := memory[b := Overwrite(memory[b], 0, EncodeWords(alignedData))];
      r := Ok(());
    }

    /**
     * `read_buffer(buffer, data)`: the buffer's halves, as many as were
     * recorded for it when that is fewer than the buffer holds.
     */
    method ReadBuffer(b: BufferId) returns (r: Result<seq<u16>>)
      requires initialized ==> b in memory
      ensures !initialized ==> r == Err(NotInitialized)
      ensures initialized ==> r == Ok(Readback(bufferSizes, b, memory[b]))
    {
      if !initialized {
        return Err(NotInitialized);
      }
      var ttData := DecodeHalves(memory[b]);
      var originalSize := |ttData|;
      if b in bufferSizes {
        originalSize := bufferSizes[b];
      }
      var n := if originalSize <= |ttData| then originalSize else |ttData|;
      var data: seq<u16> := [];
      var i := 0;
      while i < n
        invariant i <= n && data == ttData[..i]
      {
        data := data + [ttData[i]];
        i := i + 1;
      }
      r := Ok(data);
    }

    /**
     * `executeGatherKernel`: `false` on an uninitialised device, otherwise
     * the launch's outcome (`launchFails` stands for an exception from the
     * foreign launch calls). The handles are dereferenced unchecked.
     */
    method ExecuteGatherKernel(src: BufferRef, dst: BufferRef, pattern: BufferRef,
                               numElements: u32, delta: u32, launchFails: bool) returns (ok: bool)
      requires initialized ==> src.Ref? && dst.Ref? && pattern.Ref?
      ensures ok <==> initialized && !launchFails
    {
      if !initialized {
        return false;
      }
      ok := !launchFails;
    }

    /**
     * `executeScatterKernel`: `false` on an uninitialised device or a null
     * handle, otherwise the launch's outcome.
     */
    method ExecuteScatterKernel(src: BufferRef, dst: BufferRef, pattern: BufferRef,
                                numElements: u32, delta: u32, launchFails: bool) returns (ok: bool)
      ensures ok <==> initialized && src.Ref? && dst.Ref? && pattern.Ref? && !launchFails
    {
      if !initialized || src.Null? || dst.Null? || pattern.Null? {
        return false;
      }
      ok := !launchFails;
    }
  }

  /**
   * On an initialised device, a buffer written with `write_buffer` reads
   * back as exactly the data written.
   */
  method WriteThenReadBuffer(d: Device, b: BufferId, data: seq<u16>) returns (back: Result<seq<u16>>)
    requires d.Valid() && d.initialized && b in d.memory && 2 * PaddedLength(|data|) <= |d.memory[b]|
    modifies d
    ensures back == Ok(data)
  {
    ghost var sizes, mem := d.bufferSizes, d.memory[b];
    var w := d.WriteBuffer(b, data);
    WriteThenRead(sizes, b, mem, data);
    back := d.ReadBuffer(b);
  }

  /**
   * On an initialised device, a buffer just allocated has no recorded size,
   * so `read_buffer` returns all of its (zero) halves.
   */
  method AllocateThenReadBuffer(d: Device, sizeBytes: u64, kind: BufferType) returns (back: Result<seq<u16>>)
    requires d.Valid() && d.initialized
    modifies d
    ensures back == Ok(seq(AlignToTileSize(sizeBytes) / 2, _ => 0))
  {
    var r := d.AllocateBuffer(sizeBytes, kind);
    back := d.ReadBuffer(r.value);
    assert DecodeHalves(seq(AlignToTileSize(sizeBytes), _ => 0)) == seq(AlignToTileSize(sizeBytes) / 2, _ => 0);
  }
}
