/** Facts about Dafny's `%` on integers with a variable modulus. */
module Modular {
  /** The remainder is the unique `r` in `[0, n)` with `x == q * n + r`. */
  lemma ModUnique(x: int, n: int, q: int, r: int)
    requires n > 0 && x == q * n + r && 0 <= r < n
    ensures x % n == r
  {
    var d := q - x / n;
    assert d * n == x % n - r;
  }

  /** Reducing a sum's first term modulo `n` first does not change the sum modulo `n`. */
  lemma ModSucc(a: nat, k: nat, n: nat)
    requires n > 0
    ensures ((a + 1) % n + k) % n == (a + 1 + k) % n
  {
    var x := a + 1 + k;
    var q := (a + 1) / n;
    var y := (a + 1) % n + k;
    assert x == q * n + y;
    var r := y % n;
    assert y == (y / n) * n + r;
    assert x == (q + y / n) * n + r;
    ModUnique(x, n, q + y / n, r);
  }
}
