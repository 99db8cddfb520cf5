# Fletcher-64 / Fletcher-128 checksum core of `fletch.c`

`fletch.c` contains two checksum functions, `fletcher64` and `fletcher128`.
Each folds a mapped file into two wrapping accumulators, `lo` and `hi`.

- The main loop reads little-endian words while the word pointer is below
  `addr + len`. For each word it does `lo += word`, then `hi += lo`.
  `fletcher64` uses 32-bit words and `uint32_t` sums. `fletcher128` uses
  64-bit words and `uint64_t` sums.
- A tail loop `while (len-- % 4 != 0)` then adds a zero word that many
  times. `fletcher128` also uses this loop, and it also counts modulo 4.
- `fletcher64` returns `hi32 << 32 | lo32`. `fletcher128` returns the pair
  `struct _f128 { hi64, lo64 }`.

The Dafny model has five modules:

- `ModArith` (`arith.dfy`): small facts about `%` used by the proofs.
- `Bytes` (`bytes.dfy`): bytes, and how to read a little-endian word (`LeWord`)
  and write one (`LeBytes`). It also defines `Words`, the sequence of words
  the main loop reads. The last partial word of `Words` is the remaining
  bytes followed by zeros, because those bytes come from the zero-filled rest
  of the mapped page. `Pad` and `Chunks` describe the same buffer with the
  zero fill written out.
- `Accumulator` (`accumulator.dfy`): the pair `Sums(lo, hi)` and the three
  loop operations:
  - `Step` is one loop body;
  - `Fold` is the main loop;
  - `Tail` is the tail loop, written as in the source.

  Closed forms are stated against two independent definitions. `Sum` is
  Σ wᵢ. `Weighted` is Σ wᵢ·(k − i).
- `Fletch` (`fletch.dfy`): the two checksums as functions, generic in the word
  width w (4 or 8 bytes), with the modulus 256^w. `F128` models `struct _f128`.
- `FletchLoops` (`loops.dfy`): the two C loops as imperative methods, proved
  to compute the functions.

Accumulators are unbounded naturals with every `+=` reduced explicitly, using
`% 2^32` or `% 2^64`. The unsigned wrap-around of the C code is therefore
written out, not assumed.

Zero padding is not neutral in this code. It shows in `hi`, both through
the tail loop and through any extra zero word. The model keeps that
behaviour and states it in `Fletch.ExplicitPadding` and
`Fletch.AppendZeroWord`.

## Model

| member | source | states |
|---|---|---|
| Bytes.LeWord | fletch.c:91 | a w-byte little-endian word has a value below 256^w |
| Bytes.LeWordOfLeBytes | fletch.c:91 | writing a value as n little-endian bytes and reading it back gives the value |
| Bytes.LeBytesOfLeWord | fletch.c:70 | reading bytes as a little-endian word and writing the word back gives the bytes, so different byte strings of one width are different words |
| Bytes.LowByteFirst | fletch.c:70 | the first byte is the least significant byte of the word, and the rest of the bytes form the word divided by 256 |
| Bytes.LeWordZeroExtend | fletch.c:90-91 | zero bytes after a partial word are high-order zeros and do not change its value |
| Bytes.Words | fletch.c:69-71 | every word the main loop reads is below 256^w; its partners `Bytes.WordsCount` (ceil(len/w) words), `Bytes.WordsArePaddedChunks` and `Fletch.WordAt` (word i is bytes [i·w, i·w + w) of the zero-padded buffer) fix which words these are |
| Bytes.Offset | fletch.c:71 | the byte offset of the word pointer is zero exactly before the first increment (for a positive width); its partner `Bytes.OffsetIsProduct` gives i·w |
| Bytes.WordCount | fletch.c:86 | the word count for n bytes is the least k whose k words reach n bytes, i.e. ceil(n / w) |
| Bytes.WordsCount | fletch.c:90-92 | the main loop reads one word per w bytes, rounding up |
| Bytes.OffsetIsProduct | fletch.c:71 | after i increments of the word pointer, its byte offset is i·w |
| Bytes.Pad | fletch.c:64 | the padded buffer starts with the data, is followed only by zero bytes, has fewer than w extra bytes, and ends on a word boundary |
| Bytes.WordsArePaddedChunks | fletch.c:69-71 | the words read from the data are the whole w-byte chunks of the zero-padded buffer |
| Bytes.WordsOfPad | fletch.c:69-71 | writing out the zero fill does not change the words the main loop reads |
| Bytes.WordsAppend | fletch.c:90-92 | for a buffer that starts with whole words, the words read are those of the prefix followed by those of the rest |
| Accumulator.Step | fletch.c:91-93 | one loop body keeps both accumulators inside their unsigned range |
| Accumulator.Fold | fletch.c:90-94 | the main loop keeps reduced accumulators reduced; its partner `Accumulator.FoldClosedForm` gives their values |
| Accumulator.Tail | fletch.c:95-99 | the tail loop keeps reduced accumulators reduced; its partners `Accumulator.TailClosedForm` and `Accumulator.TailIsZeroWords` give its effect and pass count |
| Accumulator.FoldClosedForm | fletch.c:90-94 | after the words ws, `lo` has gained Σ wᵢ and `hi` has gained k·lo₀ + Σ wᵢ·(k − i) for k words, modulo m |
| Accumulator.FoldFromZero | fletch.c:66-73 | from zero accumulators, lo = Σ wᵢ and hi = Σ wᵢ·(k − i), modulo m |
| Accumulator.HiGainsNewLo | fletch.c:91-93 | each further word is added to `lo`, and then the new `lo` is added to `hi` |
| Accumulator.FoldAppend | fletch.c:90-94 | folding two runs of words one after the other equals folding their concatenation |
| Accumulator.FoldPrefixStep | fletch.c:90-94 | folding one more word of a prefix is one more loop body |
| Accumulator.TailIsZeroWords | fletch.c:95-99 | the tail loop runs exactly len mod 4 times, and each pass folds one zero word |
| Accumulator.TailClosedForm | fletch.c:95-99 | the tail loop keeps `lo` and sets hi to (hi + (len mod 4)·lo) mod m; it does nothing when 4 divides len |
| Accumulator.MainThenTail | fletch.c:87-99 | the main loop from zero then the tail loop gives lo = Σ wᵢ and hi = Σ wᵢ·(k − i) + (len mod 4)·Σ wᵢ, modulo m |
| Accumulator.AppendZeroWord | fletch.c:90-94 | folding one more zero word keeps `lo` and adds `lo` to `hi` |
| Accumulator.SwapAdjacent | fletch.c:90-94 | swapping two adjacent, different words keeps `lo` and always changes `hi` |
| Accumulator.SameLoKeepsHiApart | fletch.c:90-94 | two states with equal `lo` and different `hi` stay that way after folding the same words |
| Accumulator.TailKeepsHiApart | fletch.c:95-99 | two states with equal `lo` and different `hi` stay that way after the tail loop |
| Fletch.Checksum | fletch.c:60-99 | the accumulators of either function fit their unsigned width |
| Fletch.Pack | fletch.c:101 | the packed value is below 2^64; bits 63..32 hold `hi32` and bits 31..0 hold `lo32` |
| Fletch.Fletcher64 | fletch.c:82-102 | the result fits a `uint64_t` |
| Fletch.Fletcher128 | fletch.c:49-80 | both halves of the `struct _f128` result fit a `uint64_t` |
| Fletch.EmptyBuffer | fletch.c:66-78 | with len = 0 neither loop runs: `fletcher64` returns 0 and `fletcher128` returns hi64 = lo64 = 0 |
| Fletch.ChecksumClosedForm | fletch.c:60-99 | lo is the sum of the words, and hi their weighted sum plus (len mod 4)·lo, modulo 256^w |
| Fletch.Fletcher64Value | fletch.c:82-102 | `fletcher64` folds (len+3)/4 words; its low 32 bits are their sum and its high 32 bits are their weighted sum plus (len mod 4)·lo, modulo 2^32 |
| Fletch.Fletcher128Value | fletch.c:60-80 | `fletcher128` folds (len+7)/8 words; lo64 is their sum and hi64 is their weighted sum plus (len mod 4)·lo, modulo 2^64, so the tail counts modulo 4 and not 8 |
| Fletch.WordAt | fletch.c:69-71 | word i starts inside the data at byte i·w and has the value of the data bytes in [i·w, i·w + w) alone |
| Fletch.WordInPad | fletch.c:69-71 | word i is the little-endian reading of bytes [i·w, i·w + w) of the zero-padded buffer |
| Fletch.ExplicitPadding | fletch.c:69-78 | checksumming the data zero-padded to a word boundary gives the same `lo`; hi differs by (len mod 4)·lo, because only the unpadded buffer runs the tail loop |
| Fletch.PaddedChecksum | fletch.c:74-78 | on the padded buffer the tail loop does nothing |
| Fletch.AppendZeroWord | fletch.c:87-99 | appending one zero word to a word-aligned buffer keeps `lo` and adds `lo` to `hi`, so zero padding is not neutral |
| Fletch.AlignedChecksum | fletch.c:95-99 | on a word-aligned buffer the tail loop does nothing |
| Fletch.SwapWords | fletch.c:87-99 | swapping two adjacent, different aligned words of a buffer keeps `lo` and changes `hi` |
| Fletch.WordsOfPair | fletch.c:90-92 | two whole words placed after aligned data are read as themselves, between the words before them and the words after them |
| Fletch.OneWordExample | fletch.c:90-101 | the bytes 01 02 03 04 are the word 0x04030201, which becomes both `lo` and `hi` |
| Fletch.Fletcher128TailExample | fletch.c:69-78 | `fletcher128` of 01 00 00 00 is (1, 1); one more zero byte leaves the word unchanged, but the tail loop runs once more and gives (2, 1) |
| FletchLoops.MainLoop | fletch.c:90-94 | the word-pointer loop over the mapped buffer computes the fold of the words the data defines |
| FletchLoops.FoldStep | fletch.c:91-93 | the loop body `lo += word; hi += lo;` on the next word is one more fold step |
| FletchLoops.NextWord | fletch.c:90-91 | while the word offset is below len, the word there lies wholly inside the padded buffer and is the next word the loop reads |
| FletchLoops.AllWords | fletch.c:90 | once the word offset reaches len, every word has been read |
| FletchLoops.TailLoop | fletch.c:95-99 | `while (len-- % 4 != 0)` computes `Tail`: `lo` is unchanged, and hi becomes (hi + (len mod 4)·lo) mod m |
| FletchLoops.ComputeFletcher64 | fletch.c:82-102 | the imperative `fletcher64` returns `Fletcher64`; its low 32 bits are the sum of the words, and it is 0 for an empty buffer |
| FletchLoops.ComputeFletcher128 | fletch.c:60-80 | the imperative `fletcher128` returns `Fletcher128`; lo64 is the sum of the words, and the pair is (0, 0) for an empty buffer |

## Left out

- `main` (fletch.c:104-141) is left out because it is I/O and presentation. This covers the argument check, `open`, `fstat`, `mmap`, `munmap`, `close`, the `printf` columns and the exit codes.
- Memory is modelled as a byte sequence, not as raw pointers. The read past `len` in the last partial word is modelled by explicit zero bytes. Those bytes come from the zero-filled rest of the mapped page, which a byte sequence does not have.
- The model assumes a little-endian host, so host byte order is left out. On such a host `le32toh`, `le64toh` and `htole64` are identities. Words are read little-endian and the result is packed by bit position.
- `fletcher128` keeps its result in static storage and returns a pointer to it. The model returns the pair by value instead, which is equivalent because each call first resets both fields.
- The model counts the tail loop with an unbounded `len`. The C code's final `len--`, which wraps when `len` is 0, leaves no trace in the result.
- The model uses unbounded naturals with explicit `% 2^32` / `% 2^64` instead of fixed-width bit vectors. The two give the same values.
- `Fletch.SwapWords` is proved only for swapping two adjacent whole words at a word-aligned position. Swapping bytes inside a word, or words that are not adjacent, is not covered.
