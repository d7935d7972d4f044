/**
 * Integer products by repeated addition.
 *
 * The solver handles sums well and products of two unknowns badly, so the
 * row-major numbering of the terrain grid and the error term of Bresenham's
 * algorithm are stated with `Times`; only the lemmas here relate it to `*`.
 */
module IntArith {

  /** `n * k` for `n >= 0`, by repeated addition; 0 for negative `n`. */
  function Times(n: int, k: int): int
    decreases n
  {
    if n <= 0 then 0 else Times(n - 1, k) + k
  }

  lemma {:induction false} TimesIsMul(n: int, k: int)
    requires n >= 0
    ensures Times(n, k) == n * k
    decreases n
  {
    if n > 0 {
      TimesIsMul(n - 1, k);
      assert (n - 1) * k + k == n * k;
    }
  }

  lemma {:induction false} TimesMonotone(n: int, m: int, k: int)
    requires 0 <= n <= m && k >= 0
    ensures Times(n, k) <= Times(m, k)
    decreases m
  {
    if n < m {
      TimesMonotone(n, m - 1, k);
    }
  }

  lemma TimesCommutes(n: int, k: int)
    requires n >= 0 && k >= 0
    ensures Times(n, k) == Times(k, n)
  {
    TimesIsMul(n, k);
    TimesIsMul(k, n);
  }
}
