/** The pair of wrapping accumulators that both checksums of fletch.c fold
    their words into, as a pure left-to-right fold, with a closed form
    for each accumulator and the facts about order and zero words. */
module Accumulator {
  import opened ModArith

  /** The running sums: `lo` is the sum of the words folded so far and
      `hi` the sum of the successive values of `lo`, both reduced modulo
      the accumulator width m (2^32 for fletcher64, 2^64 for fletcher128). */
  datatype Sums = Sums(lo: nat, hi: nat)

  /** Both accumulators start at zero on every call. */
  const Zero := Sums(0, 0)

  /** Both accumulators fit the unsigned type of width m. */
  predicate Reduced(s: Sums, m: nat) {
    s.lo < m && s.hi < m
  }

  /** One pass of a loop body: `lo += w; hi += lo;` with unsigned
      wrap-around. */
  function Step(m: nat, s: Sums, w: nat): (t: Sums)
    requires m > 0
    ensures Reduced(t, m)
  {
    var lo := (s.lo + w) % m;
    Sums(lo, (s.hi + lo) % m)
  }

  /** The accumulators after folding the words `ws` in order, starting
      from `s`. */
  function Fold(m: nat, s: Sums, ws: seq<nat>): (t: Sums)
    requires m > 0
    ensures Reduced(s, m) ==> Reduced(t, m)
    decreases |ws|
  {
    if |ws| == 0 then s else Fold(m, Step(m, s, ws[0]), ws[1..])
  }

  /** The tail loop `while (len-- % 4 != 0) { lo += 0; hi += lo; }`: a
      zero-word step for every decrement until `len` is a multiple of 4. */
  function Tail(m: nat, s: Sums, len: nat): (t: Sums)
    requires m > 0
    ensures Reduced(s, m) ==> Reduced(t, m)
    decreases len
  {
    if len % 4 == 0 then s else Tail(m, Step(m, s, 0), len - 1)
  }

  /** k zero words. */
  function ZeroWords(k: nat): (z: seq<nat>)
    ensures |z| == k
  {
    seq(k, _ => 0)
  }

  /** The plain (unreduced) sum of the words. */
  function Sum(ws: seq<nat>): (s: nat)
  {
    if |ws| == 0 then 0 else ws[0] + Sum(ws[1..])
  }

  /** The plain (unreduced) triangular sum: word i of k is counted k - i
      times, once for each value of `lo` it is part of. */
  function Weighted(ws: seq<nat>): (s: nat)
  {
    if |ws| == 0 then 0 else |ws| * ws[0] + Weighted(ws[1..])
  }

  /** Closed form of the fold: `lo` gains the sum of the words and `hi`
      gains |ws| copies of the old `lo` plus the triangular sum, both
      wrapping modulo m. From Zero this is lo = Σ w_i and
      hi = Σ w_i·(k − i), modulo m. */
  lemma {:induction false} FoldClosedForm(m: nat, s: Sums, ws: seq<nat>)
    requires m > 0 && Reduced(s, m)
    ensures Fold(m, s, ws).lo == (s.lo + Sum(ws)) % m
    ensures Fold(m, s, ws).hi == (s.hi + |ws| * s.lo + Weighted(ws)) % m
    decreases |ws|
  {
    if |ws| > 0 {
      var x, r := ws[0], ws[1..];
      var s1 := Step(m, s, x);
      FoldClosedForm(m, s1, r);
      ReduceAddend(s.lo + x, Sum(r), m);
      HiAfterStep(s.hi, s.lo, x, |r|, Weighted(r), m);
      assert |ws| == |r| + 1;
    }
  }

  /** The arithmetic of one step of FoldClosedForm for `hi`: the wrapped
      `lo` may be replaced by the unwrapped one. */
  lemma HiAfterStep(h: nat, lo: nat, x: nat, k: nat, wr: nat, m: nat)
    requires m > 0
    ensures ((h + (lo + x) % m) % m + k * ((lo + x) % m) + wr) % m
         == (h + (k + 1) * lo + ((k + 1) * x + wr)) % m
  {
    var l1 := (lo + x) % m;
    ReduceAddend(h + l1, k * l1 + wr, m);
    var a := h + l1 + k * l1 + wr;
    var b := (h + wr) + (k + 1) * l1;
    assert a == b by { Distribute(k, l1); }
    ReduceScaled(h + wr, k + 1, lo + x, m);
    assert (h + wr) + (k + 1) * (lo + x) == h + (k + 1) * lo + ((k + 1) * x + wr) by {
      Distribute2(k + 1, lo, x);
    }
  }

  lemma Distribute(k: int, a: int)
    ensures a + k * a == (k + 1) * a
  {
  }

  lemma Distribute2(k: int, a: int, b: int)
    ensures k * (a + b) == k * a + k * b
  {
  }

  /** From Zero: lo = Σ w_i and hi = Σ w_i·(k − i), modulo m. */
  lemma FoldFromZero(m: nat, ws: seq<nat>)
    requires m > 0
    ensures Fold(m, Zero, ws) == Sums(Sum(ws) % m, Weighted(ws) % m)
  {
    FoldClosedForm(m, Zero, ws);
    assert |ws| * Zero.lo == 0;
  }

  /** Reduced sums combine like unreduced ones. */
  lemma ReduceBoth(a: nat, j: nat, b: nat, m: nat)
    requires m > 0
    ensures (a % m + j * (b % m)) % m == (a + j * b) % m
  {
    ReduceAddend(a, j * (b % m), m);
    ReduceScaled(a, j, b, m);
  }

  /** The main loop from Zero followed by the tail loop. */
  lemma MainThenTail(m: nat, ws: seq<nat>, len: nat)
    requires m > 0
    ensures Tail(m, Fold(m, Zero, ws), len).lo == Sum(ws) % m
    ensures Tail(m, Fold(m, Zero, ws), len).hi == (Weighted(ws) + (len % 4) * Sum(ws)) % m
  {
    var s, t, j := Sum(ws), Weighted(ws), len % 4;
    var main := Fold(m, Zero, ws);
    FoldFromZero(m, ws);
    TailClosedForm(m, main, len);
    ReduceBoth(t, j, s, m);
  }

  /** Folding a concatenation folds the first part, then the second. */
  lemma {:induction false} FoldAppend(m: nat, s: Sums, xs: seq<nat>, ys: seq<nat>)
    requires m > 0
    ensures Fold(m, s, xs + ys) == Fold(m, Fold(m, s, xs), ys)
    decreases |xs|
  {
    if |xs| == 0 {
      assert xs + ys == ys;
    } else {
      FoldAppend(m, Step(m, s, xs[0]), xs[1..], ys);
      assert (xs + ys)[0] == xs[0];
      assert (xs + ys)[1..] == xs[1..] + ys;
    }
  }

  /** The main-loop invariant read literally: each further word adds it
      to `lo`, then adds the new `lo` to `hi`. */
  lemma HiGainsNewLo(m: nat, s: Sums, ws: seq<nat>, x: nat)
    requires m > 0
    ensures Fold(m, s, ws + [x]).lo == (Fold(m, s, ws).lo + x) % m
    ensures Fold(m, s, ws + [x]).hi == (Fold(m, s, ws).hi + Fold(m, s, ws + [x]).lo) % m
  {
    FoldAppend(m, s, ws, [x]);
  }

  /** One more word of a prefix is one more step. */
  lemma FoldPrefixStep(m: nat, s: Sums, ws: seq<nat>, i: nat)
    requires m > 0 && i < |ws|
    ensures Fold(m, s, ws[..i + 1]) == Step(m, Fold(m, s, ws[..i]), ws[i])
  {
    assert ws[..i + 1] == ws[..i] + [ws[i]];
    HiGainsNewLo(m, s, ws[..i], ws[i]);
  }

  /** The tail loop runs exactly `len mod 4` times, and each pass is the
      fold of one zero word. */
  lemma {:induction false} TailIsZeroWords(m: nat, s: Sums, len: nat)
    requires m > 0
    ensures Tail(m, s, len) == Fold(m, s, ZeroWords(len % 4))
    decreases len
  {
    if len % 4 != 0 {
      TailIsZeroWords(m, Step(m, s, 0), len - 1);
      assert (len - 1) % 4 == len % 4 - 1;
      assert ZeroWords(len % 4)[1..] == ZeroWords(len % 4 - 1);
    }
  }

  /** The tail loop leaves `lo` alone and adds it to `hi` once per pass:
      hi grows by (len mod 4)·lo, wrapping; a no-op when 4 divides len. */
  lemma {:induction false} TailClosedForm(m: nat, s: Sums, len: nat)
    requires m > 0 && Reduced(s, m)
    ensures Tail(m, s, len) == Sums(s.lo, (s.hi + (len % 4) * s.lo) % m)
    ensures len % 4 == 0 ==> Tail(m, s, len) == s
    decreases len
  {
    if len % 4 == 0 {
      ModUnique(s.hi, 0, s.hi, m);
    } else {
      var s1 := Step(m, s, 0);
      ModUnique(s.lo, 0, s.lo, m);
      assert s1 == Sums(s.lo, (s.hi + s.lo) % m);
      TailClosedForm(m, s1, len - 1);
      var j := (len - 1) % 4;
      assert len % 4 == j + 1;
      TailStepArith(s.hi, s.lo, j, m);
    }
  }

  /** The arithmetic of one pass of TailClosedForm. */
  lemma TailStepArith(h: nat, lo: nat, j: nat, m: nat)
    requires m > 0
    ensures ((h + lo) % m + j * lo) % m == (h + (j + 1) * lo) % m
  {
    ReduceAddend(h + lo, j * lo, m);
    Distribute(j, lo);
  }

  /** Folding one more zero word keeps `lo` and adds it to `hi`: zero
      words are not neutral for `hi`. */
  lemma AppendZeroWord(m: nat, s: Sums, ws: seq<nat>)
    requires m > 0 && Reduced(s, m)
    ensures Fold(m, s, ws + [0]).lo == Fold(m, s, ws).lo
    ensures Fold(m, s, ws + [0]).hi == (Fold(m, s, ws).hi + Fold(m, s, ws).lo) % m
  {
    var t := Fold(m, s, ws);
    HiGainsNewLo(m, s, ws, 0);
    ModUnique(t.lo, 0, t.lo, m);
  }

  /** Exchanging two adjacent, distinct words keeps `lo` but always
      changes `hi`: the checksum sees the order of the words. */
  lemma SwapAdjacent(m: nat, s: Sums, a: seq<nat>, x: nat, y: nat, b: seq<nat>)
    requires m > 0 && Reduced(s, m)
    requires x < m && y < m && x != y
    ensures Fold(m, s, a + [x, y] + b).lo == Fold(m, s, a + [y, x] + b).lo
    ensures Fold(m, s, a + [x, y] + b).hi != Fold(m, s, a + [y, x] + b).hi
  {
    var t := Fold(m, s, a);
    FoldAppend(m, s, a + [x, y], b);
    FoldAppend(m, s, a, [x, y]);
    FoldAppend(m, s, a + [y, x], b);
    FoldAppend(m, s, a, [y, x]);
    SwapPair(m, t, x, y);
    SameLoKeepsHiApart(m, Fold(m, t, [x, y]), Fold(m, t, [y, x]), b);
  }

  /** Two words folded in either order give the same `lo` and different
      `hi`. */
  lemma SwapPair(m: nat, t: Sums, x: nat, y: nat)
    requires m > 0
    requires x < m && y < m && x != y
    ensures Fold(m, t, [x, y]).lo == Fold(m, t, [y, x]).lo
    ensures Fold(m, t, [x, y]).hi != Fold(m, t, [y, x]).hi
  {
    FoldPair(m, t, x, y);
    FoldPair(m, t, y, x);
    SwapSteps(m, t, x, y);
  }

  /** Folding two words is two steps. */
  lemma FoldPair(m: nat, t: Sums, x: nat, y: nat)
    requires m > 0
    ensures Fold(m, t, [x, y]) == Step(m, Step(m, t, x), y)
  {
    var t1 := Step(m, t, x);
    assert [x, y][0] == x && [x, y][1..] == [y];
    assert Fold(m, t, [x, y]) == Fold(m, t1, [y]);
    assert [y][0] == y && [y][1..] == [];
    assert Fold(m, t1, [y]) == Fold(m, Step(m, t1, y), []);
  }

  /** The arithmetic of SwapPair: after `lo += x; hi += lo; lo += y;
      hi += lo` the final `lo` is symmetric in x and y, the final `hi`
      is not. */
  lemma SwapSteps(m: nat, t: Sums, x: nat, y: nat)
    requires m > 0 && x < m && y < m && x != y
    ensures Step(m, Step(m, t, x), y).lo == Step(m, Step(m, t, y), x).lo
    ensures Step(m, Step(m, t, x), y).hi != Step(m, Step(m, t, y), x).hi
  {
    var h, lo := t.hi, t.lo;
    var l2 := (lo + x + y) % m;
    ReduceAddend(lo + x, y, m);
    ReduceAddend(lo + y, x, m);
    ReduceAddend(h + (lo + x) % m, l2, m);
    ReduceAddend(h + (lo + y) % m, l2, m);
    ShiftInjective(x, y, lo, m);
    ShiftInjective((lo + x) % m, (lo + y) % m, h + l2, m);
  }

  /** Folding the same words into two states with equal `lo` and
      different `hi` keeps them so. */
  lemma SameLoKeepsHiApart(m: nat, u1: Sums, u2: Sums, b: seq<nat>)
    requires m > 0 && Reduced(u1, m) && Reduced(u2, m)
    requires u1.lo == u2.lo && u1.hi != u2.hi
    ensures Fold(m, u1, b).lo == Fold(m, u2, b).lo
    ensures Fold(m, u1, b).hi != Fold(m, u2, b).hi
  {
    FoldClosedForm(m, u1, b);
    FoldClosedForm(m, u2, b);
    ShiftInjective(u1.hi, u2.hi, |b| * u1.lo + Weighted(b), m);
  }

  /** The tail loop keeps equal `lo` equal and different `hi` different. */
  lemma TailKeepsHiApart(m: nat, u1: Sums, u2: Sums, len: nat)
    requires m > 0 && Reduced(u1, m) && Reduced(u2, m)
    requires u1.lo == u2.lo && u1.hi != u2.hi
    ensures Tail(m, u1, len).lo == Tail(m, u2, len).lo
    ensures Tail(m, u1, len).hi != Tail(m, u2, len).hi
  {
    TailClosedForm(m, u1, len);
    TailClosedForm(m, u2, len);
    ShiftInjective(u1.hi, u2.hi, (len % 4) * u1.lo, m);
  }
}
