/** Facts about Euclidean remainder that the wrap-around proofs rely on.
    Every accumulator in the model is a natural number reduced modulo
    `m = 256^w`, which is how unsigned C arithmetic behaves. */
module ModArith {

  /** A non-zero multiple of `m` is at least `m` away from zero. */
  lemma MultipleAwayFromZero(d: int, m: int)
    requires m > 0
    ensures d >= 1 ==> d * m >= m
    ensures d <= -1 ==> d * m <= -m
  {
    if d >= 1 {
      assert d * m == m + (d - 1) * m;
    } else if d <= -1 {
      assert d * m == -m + (d + 1) * m;
    }
  }

  /** Euclidean division has exactly one remainder. */
  lemma ModUnique(y: int, q: int, r: int, m: int)
    requires m > 0 && 0 <= r < m
    requires y == q * m + r
    ensures y % m == r
  {
    var d := q - y / m;
    assert y == (y / m) * m + y % m;
    assert d * m == y % m - r;
    MultipleAwayFromZero(d, m);
  }

  /** Adding a multiple of the modulus does not change the remainder. */
  lemma AddMultiple(y: int, c: int, m: int)
    requires m > 0
    ensures (y + c * m) % m == y % m
  {
    assert y == (y / m) * m + y % m;
    assert y + c * m == (y / m + c) * m + y % m;
    ModUnique(y + c * m, y / m + c, y % m, m);
  }

  /** Reducing an addend first gives the same remainder. */
  lemma ReduceAddend(a: int, b: int, m: int)
    requires m > 0
    ensures (a % m + b) % m == (a + b) % m
  {
    assert a + b == (a % m + b) + (a / m) * m;
    AddMultiple(a % m + b, a / m, m);
  }

  /** Reducing a factor of a product first gives the same remainder. */
  lemma ReduceScaled(a: int, k: int, x: int, m: int)
    requires m > 0
    ensures (a + k * (x % m)) % m == (a + k * x) % m
  {
    var q := x / m;
    assert x == q * m + x % m;
    assert k * x == k * (x % m) + (k * q) * m;
    AddMultiple(a + k * (x % m), k * q, m);
  }

  /** Distinct reduced values stay distinct after the same shift. */
  lemma ShiftInjective(h1: int, h2: int, c: int, m: int)
    requires m > 0
    requires 0 <= h1 < m && 0 <= h2 < m && h1 != h2
    ensures (h1 + c) % m != (h2 + c) % m
  {
    var c' := c % m;
    ReduceAddend(c, h1, m);
    ReduceAddend(c, h2, m);
    var s1, s2 := h1 + c', h2 + c';
    ModUnique(s1, if s1 < m then 0 else 1, if s1 < m then s1 else s1 - m, m);
    ModUnique(s2, if s2 < m then 0 else 1, if s2 < m then s2 else s2 - m, m);
  }
}
