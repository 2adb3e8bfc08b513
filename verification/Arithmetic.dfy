/** Counting a condition, and the few multiplication and division facts the money, paging and
    rate-limit proofs share. */
module Arithmetic {
  function Bit(b: bool): nat {
    if b then 1 else 0
  }

  lemma ScaledGap(d: int, lo: int, hi: int)
    requires d > 0 && lo < hi
    ensures hi * d >= lo * d + d
  {
    var k := hi - lo - 1;
    assert hi * d == lo * d + d + k * d;
    assert k * d >= 0;
  }

  /** Euclidean division is the only way to write `a` as a multiple of `e` and a remainder. */
  lemma ModularShift(a: nat, e: int, q: int, r: int)
    requires e > 0 && 0 <= r < e && a == q * e + r
    ensures a / e == q && a % e == r
  {
    var q', r' := a / e, a % e;
    assert a == e * q' + r';
    if q < q' {
      ScaledGap(e, q, q');
    } else if q' < q {
      ScaledGap(e, q', q);
    }
  }

  lemma DivideAfterStep(n: nat, d: int)
    requires d >= 1 && n >= d
    ensures n / d == (n - d) / d + 1
  {
    var q, r := (n - d) / d, (n - d) % d;
    assert n - d == d * q + r;
    assert (q + 1) * d == d * q + d;
    ModularShift(n, d, q + 1, r);
  }
}
