/** The two checksums of fletch.c as pure functions of the byte buffer:
    `fletcher64` (32-bit words and accumulators) and `fletcher128`
    (64-bit words and accumulators), and the properties they have. */
module Fletch {
  import opened ModArith
  import opened Bytes
  import opened Accumulator

  /** 2^32 and 2^64: the moduli of uint32_t and uint64_t. */
  const M32: nat := 0x1_0000_0000
  const M64: nat := 0x1_0000_0000_0000_0000

  lemma Widths()
    ensures Pow256(4) == M32 && Pow256(8) == M64
  {
    assert Pow256(2) == 0x1_0000;
    assert Pow256(4) == 0x1_0000 * Pow256(2);
    assert Pow256(6) == 0x1_0000 * Pow256(4);
    assert Pow256(8) == 0x1_0000 * Pow256(6);
  }

  /** `struct _f128`, returned by value. */
  datatype F128 = F128(hi64: nat, lo64: nat)

  /** What either function computes for words of w bytes: the main loop
      over the words of the zero-padded buffer, then the tail loop, which
      counts on `len % 4` in both functions. */
  function Checksum(data: seq<Byte>, w: nat): (s: Sums)
    requires w > 0
    ensures Reduced(s, Pow256(w))
  {
    var m := Pow256(w);
    Tail(m, Fold(m, Zero, Words(data, w)), |data|)
  }

  /** `(uint64_t)hi32 << 32 | lo32`: `hi32` in bits 63..32 and `lo32` in
      bits 31..0. `htole64` is the identity on a little-endian host. */
  function Pack(s: Sums): (r: nat)
    requires Reduced(s, M32)
    ensures r < M64
    ensures r / M32 == s.hi && r % M32 == s.lo
  {
    s.hi * M32 + s.lo
  }

  /** fletcher64: Fletcher-64 over little-endian 32-bit words. */
  function Fletcher64(data: seq<Byte>): (r: nat)
    ensures r < M64
  {
    Widths();
    Pack(Checksum(data, 4))
  }

  /** fletcher128: Fletcher-128 over little-endian 64-bit words. */
  function Fletcher128(data: seq<Byte>): (f: F128)
    ensures f.hi64 < M64 && f.lo64 < M64
  {
    Widths();
    var s := Checksum(data, 8);
    F128(s.hi, s.lo)
  }

  /** With len == 0 neither loop runs: both accumulators stay zero. */
  lemma EmptyBuffer()
    ensures Fletcher64([]) == 0
    ensures Fletcher128([]) == F128(0, 0)
  {
    assert Words([], 4) == [] && Words([], 8) == [];
  }

  /** Closed form of either function: `lo` is the sum of the words and
      `hi` their triangular sum plus (len mod 4) further copies of `lo`
      from the tail loop, all modulo 256^w. */
  lemma ChecksumClosedForm(data: seq<Byte>, w: nat)
    requires w > 0
    ensures Checksum(data, w).lo == Sum(Words(data, w)) % Pow256(w)
    ensures Checksum(data, w).hi
         == (Weighted(Words(data, w)) + (|data| % 4) * Sum(Words(data, w))) % Pow256(w)
  {
    var m := Pow256(w);
    assert Checksum(data, w) == Tail(m, Fold(m, Zero, Words(data, w)), |data|);
    MainThenTail(m, Words(data, w), |data|);
  }

  /** fletcher64 folds ceil(len/4) words; bits 31..0 hold their sum and
      bits 63..32 their triangular sum plus (len mod 4)·lo, modulo 2^32. */
  lemma Fletcher64Value(data: seq<Byte>)
    ensures |Words(data, 4)| == (|data| + 3) / 4
    ensures Fletcher64(data) % M32 == Sum(Words(data, 4)) % M32
    ensures Fletcher64(data) / M32
         == (Weighted(Words(data, 4)) + (|data| % 4) * Sum(Words(data, 4))) % M32
  {
    Widths();
    WordsCount(data, 4);
    ChecksumClosedForm(data, 4);
  }

  /** fletcher128 folds ceil(len/8) words; `lo64` is their sum and `hi64`
      their triangular sum plus (len mod 4)·lo, modulo 2^64. The tail
      still counts modulo 4, not modulo 8. */
  lemma Fletcher128Value(data: seq<Byte>)
    ensures |Words(data, 8)| == (|data| + 7) / 8
    ensures Fletcher128(data).lo64 == Sum(Words(data, 8)) % M64
    ensures Fletcher128(data).hi64
         == (Weighted(Words(data, 8)) + (|data| % 4) * Sum(Words(data, 8))) % M64
  {
    Widths();
    WordsCount(data, 8);
    ChecksumClosedForm(data, 8);
  }

  /** Word i is read from bytes [i·w, i·w + w) of the zero-padded
      buffer; its value is that of the data bytes in that range alone,
      since the zero bytes past `len` are its most significant bytes. */
  lemma WordAt(data: seq<Byte>, w: nat, i: nat)
    requires w > 0 && i < |Words(data, w)|
    ensures Offset(i, w) < |data|
    ensures Words(data, w)[i]
         == LeWord(data[Offset(i, w) .. if Offset(i, w) + w < |data| then Offset(i, w) + w else |data|])
  {
    WordInPad(data, w, i);
    PaddedWindow(data, w, Offset(i, w));
  }

  lemma WordInPad(data: seq<Byte>, w: nat, i: nat)
    requires w > 0 && i < |Words(data, w)|
    ensures Offset(i, w) < |data|
    ensures Offset(i, w) + w <= |Pad(data, w)|
    ensures Words(data, w)[i] == LeWord(Pad(data, w)[Offset(i, w) .. Offset(i, w) + w])
  {
    var k, p := WordCount(|data|, w), Pad(data, w);
    WordsCount(data, w);
    WordsArePaddedChunks(data, w);
    ChunkAt(p, w, k, i);
    OffsetOrder(i, k - 1, w);
  }

  /** Completing the buffer with explicit zero bytes up to the word
      boundary reads the same words, but the tail loop no longer runs:
      the data as given has `hi` larger by (len mod 4)·lo. */
  lemma ExplicitPadding(data: seq<Byte>, w: nat)
    requires w == 4 || w == 8
    ensures Checksum(data, w).lo == Checksum(Pad(data, w), w).lo
    ensures Checksum(data, w).hi
         == (Checksum(Pad(data, w), w).hi + (|data| % 4) * Checksum(Pad(data, w), w).lo) % Pow256(w)
  {
    var m := Pow256(w);
    var main := Fold(m, Zero, Words(data, w));
    PaddedChecksum(data, w);
    assert Checksum(data, w) == Tail(m, main, |data|);
    TailClosedForm(m, main, |data|);
  }

  /** On the explicitly padded buffer only the main loop does work. */
  lemma PaddedChecksum(data: seq<Byte>, w: nat)
    requires w == 4 || w == 8
    ensures Checksum(Pad(data, w), w) == Fold(Pow256(w), Zero, Words(data, w))
  {
    var m, p := Pow256(w), Pad(data, w);
    var main := Fold(m, Zero, Words(data, w));
    PadLengthMod4(data, w);
    WordsOfPad(data, w);
    assert Checksum(p, w) == Tail(m, main, |p|);
    TailClosedForm(m, main, |p|);
  }

  /** A buffer padded to 4- or 8-byte words has a length divisible by 4. */
  lemma PadLengthMod4(data: seq<Byte>, w: nat)
    requires w == 4 || w == 8
    ensures |Pad(data, w)| % 4 == 0
  {
    var p, k := Pad(data, w), WordCount(|data|, w);
    OffsetIsProduct(k, w);
    if w == 4 {
      assert |p| == k * 4;
    } else {
      assert |p| == (k * 2) * 4;
    }
  }

  /** Appending one all-zero word to a word-aligned buffer keeps `lo`
      and adds `lo` to `hi`: zero padding is not neutral for `hi`. */
  lemma AppendZeroWord(data: seq<Byte>, w: nat)
    requires w == 4 || w == 8
    requires |data| % w == 0
    ensures Checksum(data + Zeros(w), w).lo == Checksum(data, w).lo
    ensures Checksum(data + Zeros(w), w).hi
         == (Checksum(data, w).hi + Checksum(data, w).lo) % Pow256(w)
  {
    var m, ws := Pow256(w), Words(data, w);
    var d := data + Zeros(w);
    WordsAppendZeroWord(data, w);
    AlignedChecksum(data, w);
    AlignedChecksum(d, w);
    Accumulator.AppendZeroWord(m, Zero, ws);
  }

  /** On a word-aligned buffer the tail loop does nothing. */
  lemma AlignedChecksum(data: seq<Byte>, w: nat)
    requires w == 4 || w == 8
    requires |data| % w == 0
    ensures Checksum(data, w) == Fold(Pow256(w), Zero, Words(data, w))
  {
    var m := Pow256(w);
    var main := Fold(m, Zero, Words(data, w));
    AlignedMod4(|data|, w);
    assert Checksum(data, w) == Tail(m, main, |data|);
    TailClosedForm(m, main, |data|);
  }

  /** A length divisible by 4 or 8 is divisible by 4. */
  lemma AlignedMod4(n: nat, w: nat)
    requires (w == 4 || w == 8) && n % w == 0
    ensures n % 4 == 0
  {
    if w == 8 {
      assert n == (n / 8) * 8;
    }
  }

  /** The number of words of a length divisible by 4 or 8. */
  function AlignedWords(n: nat, w: nat): (k: nat)
    requires (w == 4 || w == 8) && n % w == 0
    ensures n == Offset(k, w)
  {
    var k := if w == 4 then n / 4 else n / 8;
    OffsetIsProduct(k, w);
    k
  }

  /** A whole number of 4- or 8-byte words is aligned. */
  lemma AlignedMod(k: nat, w: nat)
    requires w == 4 || w == 8
    ensures Offset(k, w) % w == 0
  {
    OffsetIsProduct(k, w);
    if w == 4 {
      assert k * 4 == k * 4 + 0;
    }
  }

  /** The words of an aligned buffer followed by one zero word. */
  lemma WordsAppendZeroWord(data: seq<Byte>, w: nat)
    requires w == 4 || w == 8
    requires |data| % w == 0
    ensures |data + Zeros(w)| % w == 0
    ensures Words(data + Zeros(w), w) == Words(data, w) + [0]
  {
    var k := AlignedWords(|data|, w);
    WordsAppend(data, Zeros(w), w, k);
    assert |data + Zeros(w)| == Offset(k + 1, w);
    AlignedMod(k + 1, w);
    assert Zeros(w)[..w] == Zeros(w) && Zeros(w)[w..] == [];
    LeWordZeros(w);
    assert Words(Zeros(w), w) == [0];
  }

  /** fletcher64 and fletcher128 see the order of the words: exchanging
      two adjacent, different aligned words keeps `lo` and changes `hi`. */
  lemma SwapWords(a: seq<Byte>, u: seq<Byte>, v: seq<Byte>, b: seq<Byte>, w: nat)
    requires w == 4 || w == 8
    requires |a| % w == 0 && |u| == w && |v| == w && u != v
    ensures Checksum(a + u + v + b, w).lo == Checksum(a + v + u + b, w).lo
    ensures Checksum(a + u + v + b, w).hi != Checksum(a + v + u + b, w).hi
  {
    var m := Pow256(w);
    LeBytesOfLeWord(u);
    LeBytesOfLeWord(v);
    var x, y := LeWord(u), LeWord(v);
    var n := |a + u + v + b|;
    assert |a + v + u + b| == n;
    ChecksumOfPair(a, u, v, b, w);
    ChecksumOfPair(a, v, u, b, w);
    SwapAdjacent(m, Zero, Words(a, w), x, y, Words(b, w));
    TailKeepsHiApart(m,
      Fold(m, Zero, Words(a, w) + [x, y] + Words(b, w)),
      Fold(m, Zero, Words(a, w) + [y, x] + Words(b, w)), n);
  }

  /** The checksum of a + u + v + b with a word-aligned and u, v one word
      each, in terms of the words. */
  lemma ChecksumOfPair(a: seq<Byte>, u: seq<Byte>, v: seq<Byte>, b: seq<Byte>, w: nat)
    requires (w == 4 || w == 8) && |a| % w == 0 && |u| == w && |v| == w
    ensures Checksum(a + u + v + b, w)
         == Tail(Pow256(w), Fold(Pow256(w), Zero, Words(a, w) + [LeWord(u), LeWord(v)] + Words(b, w)), |a + u + v + b|)
  {
    WordsOfPair(a, u, v, b, w, AlignedWords(|a|, w));
  }

  /** The words of a + u + v + b with a word-aligned and u, v one word. */
  lemma WordsOfPair(a: seq<Byte>, u: seq<Byte>, v: seq<Byte>, b: seq<Byte>, w: nat, k: nat)
    requires w > 0 && |a| == Offset(k, w) && |u| == w && |v| == w
    ensures Words(a + u + v + b, w) == Words(a, w) + [LeWord(u), LeWord(v)] + Words(b, w)
  {
    assert a + u + v + b == a + ((u + v) + b);
    WordsAppend(a, (u + v) + b, w, k);
    OffsetSplit(2, w);
    OffsetSplit(1, w);
    assert |u + v| == Offset(2, w);
    WordsAppend(u + v, b, w, 2);
    WordsAppend(u, v, w, 1);
    assert u[..w] == u && u[w..] == [] && v[..w] == v && v[w..] == [];
    assert Words(u, w) == [LeWord(u)] && Words(v, w) == [LeWord(v)];
  }

  /** One 4-byte word 01 02 03 04 is read as 0x04030201 whatever the host
      byte order, and it is both `lo` and `hi`. */
  lemma OneWordExample()
    ensures Fletcher64([1, 2, 3, 4]) == 0x0403_0201_0403_0201
  {
    Widths();
    var d: seq<Byte> := [1, 2, 3, 4];
    assert d[..4] == d && d[4..] == [];
    assert LeWord(d) == 0x0403_0201;
    assert Words(d, 4) == [0x0403_0201];
  }

  /** The tail quirk of fletcher128: four and five bytes fold the same
      single 64-bit word, but five bytes run the tail loop once more. */
  lemma Fletcher128TailExample()
    ensures Fletcher128([1, 0, 0, 0]) == F128(1, 1)
    ensures Fletcher128([1, 0, 0, 0, 0]) == F128(2, 1)
  {
    Widths();
    var d4: seq<Byte> := [1, 0, 0, 0];
    var d5: seq<Byte> := [1, 0, 0, 0, 0];
    assert d4 + Zeros(4) == d5 + Zeros(3) == [1, 0, 0, 0, 0, 0, 0, 0];
    assert LeWord([1, 0, 0, 0, 0, 0, 0, 0]) == 1;
    assert Words(d4, 8) == [1] && Words(d5, 8) == [1];
    assert Fold(M64, Zero, [1]) == Sums(1, 1);
    assert Tail(M64, Sums(1, 1), 4) == Sums(1, 1);
    assert Tail(M64, Sums(1, 1), 5) == Tail(M64, Sums(1, 2), 4);
  }
}
