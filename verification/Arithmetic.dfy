/** The few facts about products and quotients the proofs lean on. */
module Arithmetic {
  import opened Base

  lemma MulStrictMono(a: int, b: int, c: int)
    requires a < b && c > 0
    ensures a * c < b * c
  {
  }

  lemma MulMono(a: int, b: int, c: int)
    requires a <= b && c >= 0
    ensures a * c <= b * c
  {
  }

  lemma DivBelow(x: int, d: int, q: int)
    requires 0 <= x && d > 0 && x < d * q
    ensures 0 <= x / d < q
  {
    if x / d >= q { MulMono(q, x / d, d); }
  }

  lemma QuotientExact(x: nat, q: nat, i: nat)
    requires q > 0
    ensures i * q <= x <==> i <= x / q
  {
    var d := x / q;
    assert x == d * q + x % q;
    if i <= d { MulMono(i, d, q); } else { MulMono(d + 1, i, q); }
  }

  lemma QuotientIs(x: int, d: int, q: int, r: int)
    requires d > 0 && x == d * q + r && 0 <= r < d
    ensures x / d == q && x % d == r
  {
    var p := x / d;
    assert x == d * p + x % d;
    if p < q { MulMono(p + 1, q, d); }
    if q < p { MulMono(q + 1, p, d); }
  }

  lemma WrapDistinct(start: nat, i: nat, j: nat, n: nat)
    requires i < j < n && start <= n
    ensures (start + i) % n != (start + j) % n
  {
    WrapOnce(start + i, n);
    WrapOnce(start + j, n);
  }

  lemma WrapOnce(x: nat, n: nat)
    requires n > 0 && x < 2 * n
    ensures x % n == if x < n then x else x - n
  {
  }

  /** `n` times `x`, counted up. */
  function Times(n: nat, x: nat): nat { if n == 0 then 0 else Times(n - 1, x) + x }

  lemma {:induction false} TimesIsProduct(n: nat, x: nat)
    ensures Times(n, x) == n * x
  {
    if n > 0 {
      TimesIsProduct(n - 1, x);
      assert n * x == (n - 1) * x + x;
    }
  }

  lemma ExactQuotient(total: nat, factor: nat)
    requires factor > 0 && total % factor == 0
    ensures total / factor >= 0 && total / factor * factor == total
  {
  }

  function Pow2(e: nat): nat { if e == 0 then 1 else 2 * Pow2(e - 1) }

  lemma {:induction false} Pow2Splits(e: nat, f: nat)
    requires f <= e
    ensures Pow2(e) == Pow2(f) * Pow2(e - f)
  {
    if f > 0 {
      Pow2Splits(e - 1, f - 1);
      DoubleProduct(Pow2(f - 1), Pow2(e - f));
    }
  }

  lemma DoubleProduct(a: nat, b: nat)
    ensures 2 * a * b == 2 * (a * b)
  {
  }

  lemma Pow63()
    ensures Pow2(63) == TWO_63
  {
    Pow2Splits(63, 31);
    Pow2Splits(32, 16);
    Pow2Splits(31, 16);
    Pow2Splits(16, 8);
    Pow2Splits(15, 8);
    assert Pow2(8) == 256 && Pow2(7) == 128;
  }
}
