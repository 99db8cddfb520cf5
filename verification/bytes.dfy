/** The input buffer as a sequence of bytes and its little-endian reading
    as fixed-width unsigned words (`le32toh`, `le64toh`), including the
    zero-filled bytes that complete the final partial word. */
module Bytes {
  import opened ModArith

  type Byte = b: int | 0 <= b < 256

  /** 256^n: the modulus of an n-byte unsigned integer. */
  function Pow256(n: nat): (r: nat)
    ensures r > 0
  {
    if n == 0 then 1 else 256 * Pow256(n - 1)
  }

  /** n zero bytes. */
  function Zeros(n: nat): (z: seq<Byte>)
    ensures |z| == n
    ensures forall i :: 0 <= i < n ==> z[i] == 0
  {
    if n == 0 then [] else [0] + Zeros(n - 1)
  }

  /** The unsigned value of `bs` read least-significant byte first. */
  function LeWord(bs: seq<Byte>): (v: nat)
    ensures v < Pow256(|bs|)
  {
    if |bs| == 0 then 0 else bs[0] + 256 * LeWord(bs[1..])
  }

  /** The n bytes of `v`, least-significant first. */
  function LeBytes(v: nat, n: nat): (bs: seq<Byte>)
    requires v < Pow256(n)
    ensures |bs| == n
  {
    if n == 0 then [] else [v % 256] + LeBytes(v / 256, n - 1)
  }

  /** Decoding the encoding of a value gives the value back. */
  lemma {:induction false} LeWordOfLeBytes(v: nat, n: nat)
    requires v < Pow256(n)
    ensures LeWord(LeBytes(v, n)) == v
  {
    if n > 0 {
      LeWordOfLeBytes(v / 256, n - 1);
      assert LeBytes(v, n)[1..] == LeBytes(v / 256, n - 1);
    }
  }

  /** Encoding the decoding of some bytes gives the bytes back, so
      decoding is one-to-one on words of equal width. */
  lemma {:induction false} LeBytesOfLeWord(bs: seq<Byte>)
    ensures LeBytes(LeWord(bs), |bs|) == bs
  {
    if |bs| > 0 {
      var v := LeWord(bs);
      assert v % 256 == bs[0] && v / 256 == LeWord(bs[1..]);
      LeBytesOfLeWord(bs[1..]);
    }
  }

  /** The first byte is the least significant one. */
  lemma LowByteFirst(bs: seq<Byte>)
    requires |bs| > 0
    ensures LeWord(bs) % 256 == bs[0]
    ensures LeWord(bs) / 256 == LeWord(bs[1..])
  {
  }

  /** Zero bytes after the data are high-order zeros: a partial word
      completed with zeros has the value of its valid bytes alone. */
  lemma {:induction false} LeWordZeroExtend(bs: seq<Byte>, k: nat)
    ensures LeWord(bs + Zeros(k)) == LeWord(bs)
  {
    if |bs| == 0 {
      LeWordZeros(k);
      assert bs + Zeros(k) == Zeros(k);
    } else {
      LeWordZeroExtend(bs[1..], k);
      assert (bs + Zeros(k))[1..] == bs[1..] + Zeros(k);
    }
  }

  lemma {:induction false} LeWordZeros(k: nat)
    ensures LeWord(Zeros(k)) == 0
  {
    if k > 0 {
      LeWordZeros(k - 1);
      assert Zeros(k)[1..] == Zeros(k - 1);
    }
  }

  /** The words the main loop of fletcher64 (w = 4) and fletcher128
      (w = 8) reads while its word pointer is below `addr + len`: whole
      words while at least w bytes remain, then one last word made of the
      remaining bytes followed by the zero bytes that fill the rest of
      the mapped page. */
  function Words(data: seq<Byte>, w: nat): (ws: seq<nat>)
    requires w > 0
    ensures forall i :: 0 <= i < |ws| ==> ws[i] < Pow256(w)
    decreases |data|
  {
    if |data| == 0 then []
    else if |data| < w then [LeWord(data + Zeros(w - |data|))]
    else [LeWord(data[..w])] + Words(data[w..], w)
  }

  /** The byte offset of word i: i·w, counted out word by word. It is
      zero exactly at the first word, unless words are empty. */
  function Offset(i: nat, w: nat): (o: nat)
    ensures o == 0 <==> i == 0 || w == 0
  {
    if i == 0 then 0 else Offset(i - 1, w) + w
  }

  lemma {:induction false} OffsetIsProduct(i: nat, w: nat)
    ensures Offset(i, w) == i * w
  {
    if i > 0 {
      OffsetIsProduct(i - 1, w);
      assert (i - 1) * w + w == i * w;
    }
  }

  /** Later words start at later offsets. */
  lemma {:induction false} OffsetOrder(i: nat, j: nat, w: nat)
    ensures i <= j ==> Offset(i, w) <= Offset(j, w)
    ensures i < j && w > 0 ==> Offset(i, w) + w <= Offset(j, w)
    decreases j
  {
    if i < j {
      OffsetOrder(i, j - 1, w);
    }
  }

  /** The number of w-byte words that cover n bytes: the least count
      whose words reach at least n bytes, that is ceil(n / w). */
  function WordCount(n: nat, w: nat): (k: nat)
    requires w > 0
    ensures Offset(k, w) >= n
    ensures k > 0 ==> Offset(k - 1, w) < n
    ensures n > 0 ==> k > 0
  {
    if n == 0 then 0 else if n <= w then 1 else 1 + WordCount(n - w, w)
  }

  /** The main loop reads one word per w bytes of data, rounding up. */
  lemma {:induction false} WordsCount(data: seq<Byte>, w: nat)
    requires w > 0
    ensures |Words(data, w)| == WordCount(|data|, w)
    decreases |data|
  {
    if |data| > w {
      WordsCount(data[w..], w);
    }
  }

  /** The buffer as the main loop sees it: the data followed by the zero
      bytes of the page that complete its last word. */
  function Pad(data: seq<Byte>, w: nat): (p: seq<Byte>)
    requires w > 0
    ensures |p| == Offset(WordCount(|data|, w), w)
    ensures |p| - |data| < w
    ensures p[..|data|] == data
    ensures forall i :: |data| <= i < |p| ==> p[i] == 0
  {
    data + Zeros(Offset(WordCount(|data|, w), w) - |data|)
  }

  /** A buffer of whole words cut into w-byte words, in address order. */
  function Chunks(p: seq<Byte>, w: nat): (ws: seq<nat>)
    requires w > 0
    decreases |p|
  {
    if |p| < w then [] else [LeWord(p[..w])] + Chunks(p[w..], w)
  }

  /** A buffer of k whole words has k chunks. */
  lemma {:induction false} ChunkCount(p: seq<Byte>, w: nat, k: nat)
    requires w > 0 && |p| == Offset(k, w)
    ensures |Chunks(p, w)| == k
    decreases k
  {
    if k > 0 {
      OffsetSplit(k, w);
      ChunkCount(p[w..], w, k - 1);
    }
  }

  /** k words take w bytes, then k - 1 words. */
  lemma OffsetSplit(k: nat, w: nat)
    requires k > 0
    ensures Offset(k, w) == w + Offset(k - 1, w)
  {
  }

  /** Word i of a buffer of k whole words is the little-endian value of
      its bytes [i·w, i·w + w). */
  lemma {:induction false} ChunkAt(p: seq<Byte>, w: nat, k: nat, i: nat)
    requires w > 0 && |p| == Offset(k, w)
    requires i < k
    ensures |Chunks(p, w)| == k
    ensures Offset(i, w) + w <= |p|
    ensures Chunks(p, w)[i] == LeWord(p[Offset(i, w) .. Offset(i, w) + w])
    decreases k
  {
    ChunkCount(p, w, k);
    OffsetOrder(i, k, w);
    if i > 0 {
      var rest := p[w..];
      OffsetSplit(k, w);
      ChunkAt(rest, w, k - 1, i - 1);
      OffsetSplit(i, w);
      var o := Offset(i - 1, w);
      assert rest[o .. o + w] == p[w + o .. w + o + w];
      assert Chunks(p, w)[i] == Chunks(rest, w)[i - 1];
    }
  }

  /** The words the main loop reads are exactly the words of the padded
      buffer: the last partial word is the trailing bytes followed by
      zero bytes. */
  lemma {:induction false} WordsArePaddedChunks(data: seq<Byte>, w: nat)
    requires w > 0
    ensures Words(data, w) == Chunks(Pad(data, w), w)
    decreases |data|
  {
    var p := Pad(data, w);
    if |data| == 0 {
    } else if |data| < w {
      assert WordCount(|data|, w) == 1;
      assert |p| == w;
      assert p[..w] == p == data + Zeros(w - |data|);
      assert p[w..] == [];
    } else if |data| == w {
      assert p == data;
      assert p[w..] == [];
    } else {
      WordsArePaddedChunks(data[w..], w);
      var k := WordCount(|data|, w);
      assert k == 1 + WordCount(|data| - w, w);
      OffsetSplit(k, w);
      assert p[..w] == data[..w];
      assert p[w..] == Pad(data[w..], w);
    }
  }

  /** Data of k whole words followed by more bytes: the words of the
      first part, then the words of the rest. */
  lemma {:induction false} WordsAppend(data: seq<Byte>, extra: seq<Byte>, w: nat, k: nat)
    requires w > 0 && |data| == Offset(k, w)
    ensures Words(data + extra, w) == Words(data, w) + Words(extra, w)
    decreases k
  {
    if k == 0 {
      assert data + extra == extra;
    } else {
      OffsetSplit(k, w);
      var whole := data + extra;
      WordsAppend(data[w..], extra, w, k - 1);
      assert whole[..w] == data[..w];
      assert whole[w..] == data[w..] + extra;
      assert Words(whole, w) == [LeWord(data[..w])] + Words(data[w..] + extra, w);
      assert Words(data, w) == [LeWord(data[..w])] + Words(data[w..], w);
    }
  }

  /** On a buffer of whole words the main loop reads exactly its chunks. */
  lemma {:induction false} WordsOfWholeWords(p: seq<Byte>, w: nat, k: nat)
    requires w > 0 && |p| == Offset(k, w)
    ensures Words(p, w) == Chunks(p, w)
    decreases k
  {
    if k > 0 {
      OffsetSplit(k, w);
      WordsOfWholeWords(p[w..], w, k - 1);
    }
  }

  /** Making the zero fill explicit does not change the words read. */
  lemma WordsOfPad(data: seq<Byte>, w: nat)
    requires w > 0
    ensures Words(Pad(data, w), w) == Words(data, w)
  {
    WordsArePaddedChunks(data, w);
    WordsOfWholeWords(Pad(data, w), w, WordCount(|data|, w));
  }

  /** A w-byte window of the padded buffer that starts inside the data
      has the value of the data bytes it covers: the zero bytes past the
      end are high-order zeros. */
  lemma PaddedWindow(data: seq<Byte>, w: nat, lo: nat)
    requires w > 0 && lo < |data| && lo + w <= |Pad(data, w)|
    ensures LeWord(Pad(data, w)[lo .. lo + w])
         == LeWord(data[lo .. if lo + w < |data| then lo + w else |data|])
  {
    var p, hi := Pad(data, w), lo + w;
    if hi < |data| {
      assert p[lo .. hi] == data[lo .. hi];
    } else {
      var z := Zeros(|p| - |data|);
      assert p == data + z;
      assert p[lo .. hi] == data[lo..] + z[..hi - |data|];
      assert z[..hi - |data|] == Zeros(hi - |data|);
      LeWordZeroExtend(data[lo..], hi - |data|);
      assert data[lo .. |data|] == data[lo..];
    }
  }
}
