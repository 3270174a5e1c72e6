/** Machine widths, rounded division and the few nonlinear facts the other modules lean on. */
module Arith {

  const TWO_32: nat := 0x1_0000_0000
  const TWO_64: nat := 0x1_0000_0000_0000_0000
  const TWO_128: nat := 0x1_0000_0000_0000_0000_0000_0000_0000_0000
  const TWO_256: nat := 0x1_0000_0000_0000_0000_0000_0000_0000_0000_0000_0000_0000_0000_0000_0000_0000_0000

  const I128_MIN: int := -0x8000_0000_0000_0000_0000_0000_0000_0000
  const I128_MAX: int := 0x7FFF_FFFF_FFFF_FFFF_FFFF_FFFF_FFFF_FFFF

  type u64 = x: int | 0 <= x < TWO_64

  type i128 = x: int | I128_MIN <= x <= I128_MAX

  datatype Option<+T> = None | Some(value: T)

  function Min(a: int, b: int): int {
    if a <= b then a else b
  }

  /** Integer division rounding up. */
  function CeilDiv(n: nat, d: nat): nat
    requires d > 0
  {
    if n % d == 0 then n / d else n / d + 1
  }

  lemma MulLe(a: int, b: int, c: int)
    requires a <= b && 0 <= c
    ensures a * c <= b * c
  {}

  lemma MulLt(a: int, b: int, c: int)
    requires a < b && 0 < c
    ensures a * c < b * c
  {}

  lemma CancelLe(a: int, b: int, c: int)
    requires a * c <= b * c && 0 < c
    ensures a <= b
  {
    if a > b { MulLt(b, a, c); }
  }

  lemma CancelLt(a: int, b: int, c: int)
    requires a * c < b * c && 0 <= c
    ensures a < b
  {
    if a >= b { MulLe(b, a, c); }
  }

  lemma MulNonNeg(a: int, b: int)
    requires 0 <= a && 0 <= b
    ensures 0 <= a * b
  {}

  /** The two inequalities that define a floored quotient. */
  lemma FloorBounds(n: nat, d: nat)
    requires d > 0
    ensures (n / d) * d <= n < (n / d + 1) * d
  {}

  /** `n / d` is the greatest `q` with `q * d <= n`. */
  lemma GreatestQuotient(n: nat, d: nat, q: int)
    requires d > 0
    ensures q * d <= n <==> q <= n / d
  {
    FloorBounds(n, d);
    if q <= n / d { MulLe(q, n / d, d); } else { MulLe(n / d + 1, q, d); }
  }

  /** `CeilDiv(n, d)` is the least `q` with `q * d >= n`. */
  lemma LeastQuotient(n: nat, d: nat, q: int)
    requires d > 0
    ensures q * d >= n <==> q >= CeilDiv(n, d)
  {
    assert n == (n / d) * d + n % d;
    if q <= n / d {
      MulLe(q, n / d, d);
      if q < n / d { MulLt(q, n / d, d); }
    } else {
      MulLe(n / d + 1, q, d);
      assert (n / d + 1) * d == (n / d) * d + d;
    }
  }

  /** A numerator lower by at least one denominator has a strictly lower quotient. */
  lemma QuotientDrops(w: nat, n: nat, d: nat)
    requires 0 < d && w + d <= n
    ensures w / d < n / d
  {
    FloorBounds(w, d);
    assert (w / d + 1) * d == (w / d) * d + d;
    GreatestQuotient(n, d, w / d + 1);
  }
}
