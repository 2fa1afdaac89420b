/** Integer facts the verifier does not find on its own. */
module Arith {

  /** The remainder is the one `r` with `x == q * n + r` and `0 <= r < n`. */
  lemma ModUnique(x: int, n: int, q: int, r: int)
    requires n > 0 && x == q * n + r && 0 <= r < n
    ensures x % n == r
  {
    var q', r' := x / n, x % n;
    assert (q - q') * n == r' - r;
    MulAtLeast(q - q', n);
  }

  /** A non-zero multiple of `n` is at least `n` away from zero. */
  lemma {:induction false} MulAtLeast(d: int, n: int)
    requires n >= 0
    decreases if d < 0 then -d else d
    ensures d >= 1 ==> d * n >= n
    ensures d <= -1 ==> d * n <= -n
  {
    if d > 1 {
      MulAtLeast(d - 1, n);
      assert d * n == (d - 1) * n + n;
    } else if d < -1 {
      MulAtLeast(d + 1, n);
      assert d * n == (d + 1) * n - n;
    }
  }
}
