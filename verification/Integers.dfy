/** Multiples and quotients of integers, with a positive divisor. */
module Integers {

  lemma ScaleSign(d: int, s: int)
    requires s > 0
    ensures d > 0 ==> d * s >= s
    ensures d < 0 ==> d * s <= -s
  {
  }

  lemma DivUnique(x: int, s: int, q: int, r: int)
    requires s > 0 && 0 <= r < s && x == q * s + r
    ensures x / s == q && x % s == r
  {
    ScaleSign(q - x / s, s);
    assert (q - x / s) * s == x % s - r;
  }

  lemma Multiple(k: int, s: int)
    requires s > 0
    ensures k * s % s == 0 && k * s / s == k
  {
    DivUnique(k * s, s, k, 0);
  }

  lemma Quotient(x: int, w: int)
    requires w > 0
    ensures x / w * w <= x < x / w * w + w
  {
    assert x == x / w * w + x % w;
  }

  lemma Steps(i: nat, j: nat, w: int)
    requires w > 0 && i < j
    ensures i * w + w <= j * w
    ensures i + 1 < j ==> i * w + w < j * w
  {
    ScaleSign(j - i - 1, w);
    assert (j - i - 1) * w == j * w - i * w - w;
  }
}
