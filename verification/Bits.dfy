/** Fields of packed words: quotients and remainders of a number written in a base. */
module Bits {

  function Pow2(n: nat): nat
  {
    if n == 0 then 1 else 2 * Pow2(n - 1)
  }

  lemma MulAtLeast(a: int, k: int)
    requires a >= 1 && k > 0
    ensures a * k >= k
  {
  }

  lemma MulNegative(q: int, k: int)
    requires q <= -1 && k > 0
    ensures q * k <= -k
  {
  }

  lemma NonNegative(a: nat, k: int)
    requires k > 0
    ensures a / k >= 0
  {
    assert a == a / k * k + a % k;
    if a / k <= -1 {
      MulNegative(a / k, k);
    }
  }

  lemma OnlyZero(d: int, k: int)
    requires k > 0 && -k < d * k < k
    ensures d == 0
  {
    if d >= 1 {
      MulAtLeast(d, k);
    } else if d <= -1 {
      MulAtLeast(-d, k);
    }
  }

  /** The digits of `h * k + l` in base `k`. */
  lemma Split(h: int, k: int, l: int)
    requires k > 0 && 0 <= l < k
    ensures (h * k + l) / k == h && (h * k + l) % k == l
  {
    var x := h * k + l;
    assert x == x / k * k + x % k;
    assert (x / k - h) * k == l - x % k;
    OnlyZero(x / k - h, k);
  }

  lemma DivDiv(x: int, j: int, k: int)
    requires j > 0 && k > 0
    ensures j * k > 0 && x / (j * k) == x / j / k
    ensures x % (j * k) / j == x / j % k && x % (j * k) % j == x % j
  {
    var q, r := x / j / k, x / j % k;
    assert x == (q * k + r) * j + x % j == q * (j * k) + (r * j + x % j);
    assert r * j + x % j <= (k - 1) * j + j - 1;
    Split(q, j * k, r * j + x % j);
    Split(r, j, x % j);
  }

  /** The field of width `k` at position `j` depends only on the digits below `j * k * c`. */
  lemma SameField(w: int, a: int, j: int, k: int, c: int)
    requires j > 0 && k > 0 && c > 0 && j * (k * c) > 0
    requires w % (j * (k * c)) / j == a % (j * (k * c)) / j
    ensures w / j % k == a / j % k
  {
    DivDiv(w, j, k * c);
    DivDiv(a, j, k * c);
    DivDiv(w / j, k, c);
    DivDiv(a / j, k, c);
  }
}
