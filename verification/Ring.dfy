/**
 Arithmetic of a ring of `n` slots of `size` bytes each. Record number `i` (counted from
 the first record ever written) lives in slot `i % n`, that is, at byte offset `Offset(n, size, i)`.
 */
module Ring {
  function Offset(n: int, size: int, i: int): int
    requires n > 0
  {
    (i % n) * size
  }

  /** Multiplying by a positive size keeps order, adds up, and is undone by division. */
  lemma Scale(size: int, a: int, b: int)
    requires size > 0
    ensures a < b <==> a * size < b * size
    ensures a * size + size == (a + 1) * size
    ensures a * size - b * size == (a - b) * size
    ensures a * size + b * size == (a + b) * size
    ensures (a * size) / size == a
  {
    if a < b {
      assert (b - a) * size > 0;
    } else if b < a {
      assert (a - b) * size > 0;
    }
    DivUnique(size, a * size, a, 0);
  }

  /** The quotient and remainder of `n * k + m` are `k` and `m`. */
  lemma DivUnique(n: int, x: int, k: int, m: int)
    requires n > 0 && 0 <= m < n && x == n * k + m
    ensures x % n == m && x / n == k
  {
    var q, r := x / n, x % n;
    assert n * (q - k) == m - r;
    assert -n < n * (q - k) < n;
    Grow(n, q - k);
    Grow(n, k - q);
  }

  lemma Grow(n: int, d: int)
    requires n > 0
    ensures d >= 1 ==> n * d >= n
  {
  }

  /** Moving `d <= n` slots on wraps at most once. */
  lemma ModShift(n: int, i: int, d: int)
    requires n > 0 && i >= 0 && 0 <= d <= n
    ensures 0 <= i % n < n
    ensures (i + d) % n == if i % n + d < n then i % n + d else i % n + d - n
  {
    var q := i / n;
    var m := if i % n + d < n then i % n + d else i % n + d - n;
    var k := if i % n + d < n then q else q + 1;
    assert i + d == n * k + m;
    DivUnique(n, i + d, k, m);
  }

  /** Two record numbers at most `n - 1` apart share a slot only when they are equal. */
  lemma OffsetInjective(n: int, size: int, i: int, j: int)
    requires n > 0 && size > 0 && 0 <= i <= j < i + n
    ensures Offset(n, size, i) == Offset(n, size, j) <==> i == j
  {
    ModShift(n, i, j - i);
    Scale(size, i % n, j % n);
    Scale(size, j % n, i % n);
  }

  /** Stepping one record forward and wrapping at the end of the ring. */
  lemma OffsetNext(n: int, size: int, i: int)
    requires n > 0 && size > 0 && i >= 0
    ensures 0 <= Offset(n, size, i) < n * size
    ensures Offset(n, size, i) / size == i % n
    ensures Offset(n, size, i + 1)
         == if Offset(n, size, i) + size >= n * size then 0 else Offset(n, size, i) + size
  {
    ModShift(n, i, 1);
    Scale(size, i % n, n);
    Scale(size, i % n + 1, n);
    Scale(size, 0, i % n);
    Scale(size, i % n, 0);
  }

  lemma SmallMod(n: int, i: int)
    requires 0 <= i < n
    ensures i % n == i
  {
  }
}
