/**
 * The DRAM side of a kernel: buffers read and written one page at a time, and
 * the one-page L1 caches the kernels keep in front of them.
 *
 * A page is what `noc_async_read_tile` / `noc_async_write_tile` move for a
 * TensorAccessor; its size in elements is the accessor's page size, so it is
 * passed with every call. Each transfer together with its barrier is one
 * synchronous step here. A buffer a kernel only reads does not change while
 * the kernel runs, so it is a value (`seq`); a buffer the kernel writes is a
 * `DramBuffer` object.
 */
module TileStore {
  import opened Words
  import opened WriteLog

  /** A page transfer, as recorded in a buffer's trace. */
  datatype PageOp = PageRead(page: nat) | PageWrite(page: nat)

  /** Page `p` of `s` when pages hold `n` elements. */
  function PageOf<T>(s: seq<T>, p: nat, n: nat): (r: seq<T>)
    requires (p + 1) * n <= |s|
    ensures |r| == n
  {
    s[p * n .. (p + 1) * n]
  }

  /** Slot `k` of page `p` is element `p * n + k`. */
  lemma PageOfAt<T>(s: seq<T>, p: nat, n: nat, k: nat)
    requires (p + 1) * n <= |s| && k < n
    ensures p * n + k < |s| && PageOf(s, p, n)[k] == s[p * n + k]
  {
  }

  /** `s` with page `p` replaced by `page`. */
  function Splice<T>(s: seq<T>, p: nat, n: nat, page: seq<T>): (r: seq<T>)
    requires (p + 1) * n <= |s| && |page| == n
    ensures |r| == |s|
  {
    s[.. p * n] + page + s[(p + 1) * n ..]
  }

  /** Writing back an unmodified page leaves the buffer as it was. */
  lemma SpliceOwnPage<T>(s: seq<T>, p: nat, n: nat)
    requires (p + 1) * n <= |s|
    ensures Splice(s, p, n, PageOf(s, p, n)) == s
  {
    assert s[.. p * n] + s[p * n .. (p + 1) * n] + s[(p + 1) * n ..] == s;
  }

  /** Changing one slot of a cached page changes one element of the buffer it stands for. */
  lemma SpliceUpdate<T>(s: seq<T>, p: nat, n: nat, page: seq<T>, off: nat, v: T)
    requires (p + 1) * n <= |s| && |page| == n && off < n
    ensures p * n + off < |s|
    ensures Splice(s, p, n, page[off := v]) == Splice(s, p, n, page)[p * n + off := v]
  {
    assert Splice(s, p, n, page[off := v]) == Splice(s, p, n, page)[p * n + off := v];
  }

  /** `noc_async_read_tile(p, accessor, buf)` and its barrier, on a buffer the kernel only reads. */
  method LoadPage<T>(src: seq<T>, p: nat, n: nat, buf: array<T>)
    requires buf.Length == n && (p + 1) * n <= |src|
    modifies buf
    ensures buf[..] == PageOf(src, p, n)
  {
    forall k | 0 <= k < n {
      buf[k] := src[p * n + k];
    }
    assert buf[..] == PageOf(src, p, n);
  }

  /** One DRAM buffer behind a TensorAccessor that the kernel writes. */
  class DramBuffer<T> {
    var data: seq<T>
    /** Every page transfer made on this buffer, in order. */
    ghost var trace: seq<PageOp>

    constructor (contents: seq<T>)
      ensures data == contents && trace == []
    {
      data := contents;
      trace := [];
    }

    /** `noc_async_read_tile(p, accessor, buf)` followed by `noc_async_read_barrier()`. */
    method ReadPage(p: nat, n: nat, buf: array<T>)
      requires buf.Length == n && (p + 1) * n <= |data|
      modifies this`trace, buf
      ensures buf[..] == PageOf(data, p, n)
      ensures trace == old(trace) + [PageRead(p)]
    {
      LoadPage(data, p, n, buf);
      trace := trace + [PageRead(p)];
    }

    /** `noc_async_write_tile(p, accessor, buf)` followed by `noc_async_write_barrier()`. */
    method WritePage(p: nat, n: nat, page: seq<T>)
      requires |page| == n && (p + 1) * n <= |data|
      modifies this
      ensures data == Splice(old(data), p, n, page)
      ensures trace == old(trace) + [PageWrite(p)]
    {
      data := data[.. p * n] + page + data[(p + 1) * n ..];
      trace := trace + [PageWrite(p)];
    }
  }

  /** The read-only cache invariant: `buf` holds page `cached` of `src`, unless nothing is cached. */
  ghost predicate Cached<T>(src: seq<T>, cached: u32, n: nat, buf: array<T>)
    reads buf
  {
    buf.Length == n && (cached != NoTile ==> (cached + 1) * n <= |src| && buf[..] == PageOf(src, cached, n))
  }

  /**
   * A cached element load on a read-only buffer: page `idx / 1024` is read if
   * it is not the cached one (`if (p != cached) { read page p; cached = p; }`),
   * then slot `idx % 1024` of the L1 page is read. With 1024-element pages this
   * is element `idx`; with smaller pages it is element `idx` only in the first
   * page.
   */
  method CachedLoad<T>(src: seq<T>, idx: u32, n: nat, cached: u32, buf: array<T>) returns (c: u32, v: T)
    requires Cached(src, cached, n, buf)
    requires OffsetOf(idx) < n && (TileOf(idx) + 1) * n <= |src|
    modifies buf
    ensures Cached(src, c, n, buf) && c == TileOf(idx)
    ensures v == src[TileOf(idx) * n + OffsetOf(idx)]
    ensures n == TileElems || idx < TileElems ==> v == src[idx]
  {
    var t, off := TileOf(idx), OffsetOf(idx);
    if t != cached {
      LoadPage(src, t, n, buf);
    }
    c := t;
    v := buf[off];
    PageOfAt(src, t, n, off);
    assert idx < TileElems ==> t == 0;
  }

  /** The buffer as it would read with the cached page `buf` written back. */
  ghost function View<T>(data: seq<T>, cached: u32, n: nat, buf: seq<T>): seq<T>
    requires cached != NoTile ==> (cached + 1) * n <= |data| && |buf| == n
  {
    if cached == NoTile then data else Splice(data, cached, n, buf)
  }

  /**
   * A write-back page cache switching to page `p`:
   * `if (p != cached) { if (cached != UINT32_MAX) write back cached; read p; cached = p; }`.
   * The buffer with the cached page written back is unchanged by the switch.
   */
  method SwitchPage<T>(store: DramBuffer<T>, p: u32, n: nat, cached: u32, buf: array<T>) returns (c: u32)
    requires buf.Length == n && (p + 1) * n <= |store.data| && p != NoTile
    requires cached != NoTile ==> (cached + 1) * n <= |store.data|
    modifies store, buf
    ensures c == p && |store.data| == old(|store.data|)
    ensures View(store.data, c, n, buf[..]) == old(View(store.data, cached, n, buf[..]))
    ensures store.trace == old(store.trace) +
      if p == cached then [] else if cached == NoTile then [PageRead(p)] else [PageWrite(cached), PageRead(p)]
  {
    if p != cached {
      if cached != NoTile {
        store.WritePage(cached, n, buf[..]);
      }
      store.ReadPage(p, n, buf);
      SpliceOwnPage(store.data, p, n);
    }
    c := p;
  }

  /** The write-back cache invariant: a cached page lies inside the buffer. */
  ghost predicate Dirty<T>(store: DramBuffer<T>, cached: u32, n: nat, buf: array<T>)
    reads store, buf
  {
    buf.Length == n && (cached != NoTile ==> (cached + 1) * n <= |store.data|)
  }

  /**
   * A cached element store `buffer[w.index] = w.value`: switch the write-back
   * cache to page `index / 1024`, then set slot `index % 1024`. If the buffer
   * with the cache written back was `init` after the stores `done`, it is now
   * `init` after the stores `done + [w]`.
   */
  method CachedStore(store: DramBuffer<u16>, w: Write, cached: u32, buf: array<u16>,
                     ghost init: seq<u16>, ghost done: seq<Write>) returns (c: u32)
    requires Dirty(store, cached, TileElems, buf) && |store.data| % TileElems == 0 && |store.data| <= MaxDramElems
    requires w.index < |store.data| == |init| && InBounds(done, |init|)
    requires View(store.data, cached, TileElems, buf[..]) == Apply(init, done)
    modifies store, buf
    ensures Dirty(store, c, TileElems, buf) && c == TileOf(w.index) && |store.data| == |init|
    ensures InBounds(done + [w], |init|)
    ensures View(store.data, c, TileElems, buf[..]) == Apply(init, done + [w])
    ensures store.trace == old(store.trace) +
      if c == cached then [] else if cached == NoTile then [PageRead(c)] else [PageWrite(cached), PageRead(c)]
  {
    TileInRange(w.index, |store.data|);
    c := SwitchPage(store, TileOf(w.index), TileElems, cached, buf);
    SpliceUpdate(store.data, c, TileElems, buf[..], OffsetOf(w.index), w.value);
    buf[OffsetOf(w.index)] := w.value;
    ApplySnoc(init, done, w);
  }

  /**
   * An uncached element store: read the tile holding `idx` into `buf`, set
   * slot `idx % 1024`, and write the tile straight back. The buffer changes in
   * element `idx` only.
   */
  method StoreThrough(store: DramBuffer<u16>, idx: nat, v: u16, buf: array<u16>)
    requires buf.Length == TileElems && idx < |store.data| && |store.data| % TileElems == 0
    modifies store, buf
    ensures store.data == old(store.data)[idx := v]
    ensures store.trace == old(store.trace) + [PageRead(TileOf(idx)), PageWrite(TileOf(idx))]
  {
    TileInRange(idx, |store.data|);
    var t := TileOf(idx);
    store.ReadPage(t, TileElems, buf);
    SpliceOwnPage(store.data, t, TileElems);
    SpliceUpdate(store.data, t, TileElems, buf[..], OffsetOf(idx), v);
    buf[OffsetOf(idx)] := v;
    store.WritePage(t, TileElems, buf[..]);
  }

  /** The final `if (cached != UINT32_MAX) write back cached;` after a kernel's loop. */
  method Flush<T>(store: DramBuffer<T>, n: nat, cached: u32, buf: array<T>)
    requires buf.Length == n
    requires cached != NoTile ==> (cached + 1) * n <= |store.data|
    modifies store
    ensures store.data == old(View(store.data, cached, n, buf[..]))
    ensures store.trace == old(store.trace) + if cached == NoTile then [] else [PageWrite(cached)]
  {
    if cached != NoTile {
      store.WritePage(cached, n, buf[..]);
    }
  }
}
