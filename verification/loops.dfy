/** The loops of fletcher64 and fletcher128 as imperative methods over the
    mapped buffer, proved to compute the functional checksums. */
module FletchLoops {
  import opened Bytes
  import opened Accumulator
  import opened Fletch

  /** The main loop `while (p < pend) { lo += le(*p); p++; hi += lo; }`
      for words of w bytes, with `off` standing for `p - addr`. The page
      holds the data followed by the zero fill of the mapping, so the
      last word read past `addr + len` finds zeros there. */
  method MainLoop(data: seq<Byte>, w: nat) returns (s: Sums)
    requires w > 0
    ensures s == Fold(Pow256(w), Zero, Words(data, w))
  {
    var m := Pow256(w);
    var page := Pad(data, w);
    WordsCount(data, w);
    var lo: nat, hi: nat := 0, 0;
    var off := 0;
    ghost var i := 0;
    while off < |data|
      invariant i <= |Words(data, w)| && off == Offset(i, w)
      invariant Sums(lo, hi) == Fold(m, Zero, Words(data, w)[..i])
      decreases |Words(data, w)| - i
    {
      NextWord(data, w, i);
      var word := LeWord(page[off .. off + w]);
      FoldStep(m, Words(data, w), i, lo, hi, word);
      lo := (lo + word) % m;
      off := off + w;
      hi := (hi + lo) % m;
      i := i + 1;
    }
    AllWords(data, w, i);
    s := Sums(lo, hi);
  }

  /** One pass of the main loop body `lo += word; hi += lo;` folds the
      next word. */
  lemma FoldStep(m: nat, ws: seq<nat>, i: nat, lo: nat, hi: nat, word: nat)
    requires m > 0 && i < |ws| && ws[i] == word
    requires Sums(lo, hi) == Fold(m, Zero, ws[..i])
    ensures Sums((lo + word) % m, (hi + (lo + word) % m) % m) == Fold(m, Zero, ws[..i + 1])
  {
    FoldPrefixStep(m, Zero, ws, i);
  }

  /** While the word offset is below `len`, the word there lies wholly
      inside the padded buffer and is the next word of Words. */
  lemma NextWord(data: seq<Byte>, w: nat, i: nat)
    requires w > 0 && Offset(i, w) < |data|
    ensures i < |Words(data, w)| && Offset(i, w) + w <= |Pad(data, w)|
    ensures Words(data, w)[i] == LeWord(Pad(data, w)[Offset(i, w) .. Offset(i, w) + w])
  {
    var k := WordCount(|data|, w);
    OffsetOrder(k, i, w);
    ChunkAt(Pad(data, w), w, k, i);
    WordsArePaddedChunks(data, w);
  }

  /** Once the word offset reaches `len`, every word has been read. */
  lemma AllWords(data: seq<Byte>, w: nat, i: nat)
    requires w > 0 && i <= |Words(data, w)| && Offset(i, w) >= |data|
    ensures Words(data, w)[..i] == Words(data, w)
  {
    var k := WordCount(|data|, w);
    WordsCount(data, w);
    if k > 0 {
      OffsetOrder(i, k - 1, w);
    }
  }

  /** The tail loop `while (len-- % 4 != 0) { lo += 0; hi += lo; }`. The
      final decrement, which wraps `len` when it is 0, is not observable. */
  method TailLoop(m: nat, s: Sums, len: nat) returns (t: Sums)
    requires m > 0 && Reduced(s, m)
    ensures t == Tail(m, s, len)
    ensures t.lo == s.lo
    ensures t.hi == (s.hi + (len % 4) * s.lo) % m
  {
    var lo: nat, hi: nat := s.lo, s.hi;
    var n := len;
    while n % 4 != 0
      invariant Reduced(Sums(lo, hi), m)
      invariant Tail(m, Sums(lo, hi), n) == Tail(m, s, len)
      decreases n
    {
      n := n - 1;
      var zero := 0;
      lo := (lo + zero) % m;
      hi := (hi + lo) % m;
    }
    t := Sums(lo, hi);
    TailClosedForm(m, s, len);
  }

  /** fletcher64: the main loop over 32-bit words, the tail loop, and
      `hi32` packed above `lo32`. */
  method ComputeFletcher64(data: seq<Byte>) returns (csum: nat)
    ensures csum == Fletcher64(data)
    ensures csum % M32 == Sum(Words(data, 4)) % M32
    ensures |data| == 0 ==> csum == 0
  {
    Widths();
    var main := MainLoop(data, 4);
    FoldFromZero(M32, Words(data, 4));
    var s := TailLoop(M32, main, |data|);
    csum := s.hi * M32 + s.lo;
  }

  /** fletcher128: the same loops over 64-bit words; the tail loop still
      counts modulo 4. */
  method ComputeFletcher128(data: seq<Byte>) returns (f: F128)
    ensures f == Fletcher128(data)
    ensures f.lo64 == Sum(Words(data, 8)) % M64
    ensures |data| == 0 ==> f == F128(0, 0)
  {
    Widths();
    var main := MainLoop(data, 8);
    FoldFromZero(M64, Words(data, 8));
    var s := TailLoop(M64, main, |data|);
    f := F128(s.hi, s.lo);
  }
}
