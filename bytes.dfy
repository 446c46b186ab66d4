/**
 * Little-endian byte images of `uint32_t` words and 16-bit values, and
 * writes of bytes into a memory at an offset: the one representation device
 * DRAM and L1 share, whether a kernel reads them as words or as halves.
 */
module Bytes {
  import opened Words

  type byte = x: int | 0 <= x < 0x100

  /** bfloat16 halves as little-endian bytes. */
  function EncodeHalves(h: seq<u16>): (b: seq<byte>)
    ensures |b| == 2 * |h|
  {
    seq(2 * |h|, i requires 0 <= i < 2 * |h| => if i % 2 == 0 then h[i / 2] % 0x100 else h[i / 2] / 0x100)
  }

  /** Byte `j` of half `k` sits at position `2 * k + j`: the low byte first. */
  lemma EncodeHalvesAt(h: seq<u16>, k: nat, j: nat)
    requires k < |h| && j < 2
    ensures 2 * k + j < 2 * |h|
    ensures EncodeHalves(h)[2 * k + j] == if j == 0 then h[k] % 0x100 else h[k] / 0x100
  {
    DivModUnique(2 * k + j, 2, k, j);
  }

  /**
   * The bytes of two consecutive halves, read as one word: the first half is
   * its low 16 bits and the second its high 16 bits.
   */
  lemma HalvesAsWord(h: seq<u16>, k: nat)
    requires 2 * k + 1 < |h|
    ensures 4 * k + 3 < |EncodeHalves(h)|
    ensures var b := EncodeHalves(h);
            var w := WordOf(b[4 * k], b[4 * k + 1], b[4 * k + 2], b[4 * k + 3]);
            w == h[2 * k] as int + 0x1_0000 * h[2 * k + 1] as int && w % 0x1_0000 == h[2 * k] && w / 0x1_0000 == h[2 * k + 1]
  {
    EncodeHalvesAt(h, 2 * k, 0);
    EncodeHalvesAt(h, 2 * k, 1);
    EncodeHalvesAt(h, 2 * k + 1, 0);
    EncodeHalvesAt(h, 2 * k + 1, 1);
    DivModSplit(h[2 * k], 0x100);
    DivModSplit(h[2 * k + 1], 0x100);
    DivModUnique(h[2 * k] as int + 0x1_0000 * h[2 * k + 1] as int, 0x1_0000, h[2 * k + 1], h[2 * k]);
  }

  /** Bytes read back as little-endian halves; a trailing odd byte is dropped. */
  function DecodeHalves(b: seq<byte>): (h: seq<u16>)
    ensures |h| == |b| / 2
  {
    seq(|b| / 2, k requires 0 <= k < |b| / 2 => b[2 * k] as int + 0x100 * b[2 * k + 1] as int)
  }

  /** `uint32_t` words as little-endian bytes. */
  function EncodeWords(w: seq<u32>): (b: seq<byte>)
    ensures |b| == 4 * |w|
  {
    seq(4 * |w|, i requires 0 <= i < 4 * |w| => WordByte(w[i / 4], i % 4))
  }

  /** Byte `k` of a little-endian word. */
  function WordByte(x: u32, k: nat): byte
    requires k < 4
  {
    if k == 0 then x % 0x100
    else if k == 1 then x / 0x100 % 0x100
    else if k == 2 then x / 0x100 / 0x100 % 0x100
    else x / 0x100 / 0x100 / 0x100 % 0x100
  }

  /** The word whose little-endian bytes are `b0 .. b3`. */
  function WordOf(b0: byte, b1: byte, b2: byte, b3: byte): u32
  {
    b0 + 0x100 * b1 + 0x1_0000 * b2 + 0x100_0000 * b3
  }

  /** The four bytes of a word make up the word. */
  lemma WordBytesRecombine(x: u32)
    ensures WordOf(WordByte(x, 0), WordByte(x, 1), WordByte(x, 2), WordByte(x, 3)) == x
  {
    var a := x / 0x100;
    var b := a / 0x100;
    var c := b / 0x100;
    DivModSplit(x, 0x100);
    DivModSplit(a, 0x100);
    DivModSplit(b, 0x100);
    DivModSplit(c, 0x100);
    assert c < 0x100;
    assert c % 0x100 == c;
  }

  /** Byte `j` of word `k` sits at position `4 * k + j`. */
  lemma EncodeWordsAt(w: seq<u32>, k: nat, j: nat)
    requires k < |w| && j < 4
    ensures 4 * k + j < 4 * |w| && EncodeWords(w)[4 * k + j] == WordByte(w[k], j)
  {
    DivModUnique(4 * k + j, 4, k, j);
  }

  /** Word `k` of an encoding reads back from its four bytes. */
  lemma EncodedWordAt(w: seq<u32>, k: nat)
    requires k < |w|
    ensures 4 * k + 3 < |EncodeWords(w)|
    ensures var b := EncodeWords(w); WordOf(b[4 * k], b[4 * k + 1], b[4 * k + 2], b[4 * k + 3]) == w[k]
  {
    EncodeWordsAt(w, k, 0);
    EncodeWordsAt(w, k, 1);
    EncodeWordsAt(w, k, 2);
    EncodeWordsAt(w, k, 3);
    WordBytesRecombine(w[k]);
  }

  /** Bytes read back as little-endian words. */
  function DecodeWords(b: seq<byte>): (w: seq<u32>)
    ensures |w| == |b| / 4
  {
    seq(|b| / 4, k requires 0 <= k < |b| / 4 => WordOf(b[4 * k], b[4 * k + 1], b[4 * k + 2], b[4 * k + 3]))
  }

  /** The halves written at the start of a buffer read back unchanged, whatever follows them. */
  lemma DecodeEncodeHalves(h: seq<u16>, rest: seq<byte>)
    ensures |DecodeHalves(EncodeHalves(h) + rest)| >= |h|
    ensures DecodeHalves(EncodeHalves(h) + rest)[..|h|] == h
  {
    var b := EncodeHalves(h) + rest;
    forall k | 0 <= k < |h| ensures DecodeHalves(b)[k] == h[k] {
      assert b[2 * k] == h[k] % 0x100 && b[2 * k + 1] == h[k] / 0x100;
    }
  }

  /** The words written at the start of a buffer read back unchanged, whatever follows them. */
  lemma DecodeEncodeWords(w: seq<u32>, rest: seq<byte>)
    ensures |DecodeWords(EncodeWords(w) + rest)| >= |w|
    ensures DecodeWords(EncodeWords(w) + rest)[..|w|] == w
  {
    var b := EncodeWords(w) + rest;
    forall k | 0 <= k < |w| ensures DecodeWords(b)[k] == w[k] {
      EncodeWordsAt(w, k, 0);
      EncodeWordsAt(w, k, 1);
      EncodeWordsAt(w, k, 2);
      EncodeWordsAt(w, k, 3);
      WordBytesRecombine(w[k]);
    }
  }


  /** Byte `i` of the transferred bytes lands at `at + i`. */
  lemma OverwriteAt(mem: seq<byte>, at: nat, bytes: seq<byte>, i: nat)
    requires at + |bytes| <= |mem| && i < |bytes|
    ensures Overwrite(mem, at, bytes)[at + i] == bytes[i]
  {
    assert Overwrite(mem, at, bytes)[at + i] == Overwrite(mem, at, bytes)[at..at + |bytes|][i];
  }

  /** A byte before offset `at` is kept. */
  lemma OverwriteBefore(mem: seq<byte>, at: nat, bytes: seq<byte>, i: nat)
    requires at + |bytes| <= |mem| && i < at
    ensures Overwrite(mem, at, bytes)[i] == mem[i]
  {
    assert Overwrite(mem, at, bytes)[i] == Overwrite(mem, at, bytes)[..at][i];
  }

  /**
   * A transfer of `bytes` to offset `at` of a memory: those bytes are
   * replaced, every other byte and the length are kept.
   */
  function Overwrite(mem: seq<byte>, at: nat, bytes: seq<byte>): (r: seq<byte>)
    requires at + |bytes| <= |mem|
    ensures |r| == |mem| && r[..at] == mem[..at] && r[at..at + |bytes|] == bytes
    ensures r[at + |bytes|..] == mem[at + |bytes|..]
  {
    mem[..at] + bytes + mem[at + |bytes|..]
  }

  /**
   * A page read into L1 memory (`noc_async_read_tile` and its barrier):
   * `bytes` land at offset `at`, every other byte is kept.
   */
  method LoadBytes(mem: array<byte>, at: nat, bytes: seq<byte>)
    requires at + |bytes| <= mem.Length
    modifies mem
    ensures mem[..] == Overwrite(old(mem[..]), at, bytes)
  {
    ghost var m0 := mem[..];
    forall k | at <= k < at + |bytes| {
      mem[k] := bytes[k - at];
    }
    assert mem[..] == m0[..at] + bytes + m0[at + |bytes|..];
  }
}
