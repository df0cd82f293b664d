/** Facts about products, quotients and powers of two. */
module Arith {

  function Pow2(n: nat): (p: nat)
    ensures p > 0
  {
    if n == 0 then 1 else 2 * Pow2(n - 1)
  }

  lemma {:induction false} Pow2Add(m: nat, n: nat)
    ensures Pow2(m + n) == Pow2(m) * Pow2(n)
  {
    if m > 0 {
      Pow2Add(m - 1, n);
      MulAssoc(2, Pow2(m - 1), Pow2(n));
    }
  }

  lemma {:induction false} Pow2Monotone(m: nat, n: nat)
    requires m <= n
    ensures Pow2(m) <= Pow2(n)
  {
    if m < n { Pow2Monotone(m, n - 1); }
  }

  lemma MulAssoc(a: int, b: int, c: int)
    ensures a * (b * c) == (a * b) * c
  {
  }

  lemma MulRotate(a: int, b: int, c: int)
    ensures (a * b) * c == (b * c) * a
  {
  }

  lemma MulDistrib(a: int, b: int, c: int)
    ensures (a + b) * c == a * c + b * c
    ensures (a - b) * c == a * c - b * c
  {
  }

  lemma MulLe(a: int, b: int, c: int)
    requires a <= b && 0 <= c
    ensures a * c <= b * c
  {
  }

  lemma MulNonneg(a: int, b: int)
    requires 0 <= a && 0 <= b
    ensures 0 <= a * b
  {
  }

  /** A multiple of d strictly between -d and d is zero. */
  lemma SmallMultiple(k: int, d: int)
    requires -d < k * d < d
    ensures k == 0
  {
  }

  /** Quotient and remainder are unique. */
  lemma DivModUnique(x: int, q: int, r: int, d: int)
    requires d > 0 && x == r + q * d && 0 <= r < d
    ensures x % d == r && x / d == q
  {
    var q', r' := x / d, x % d;
    assert x == r' + q' * d;
    assert (q - q') * d == r' - r;
    SmallMultiple(q - q', d);
  }

  lemma DivMod(x: int, d: int)
    requires d > 0
    ensures x == x % d + x / d * d && 0 <= x % d < d
    ensures 0 <= x ==> 0 <= x / d
  {
    if 0 <= x && x / d < 0 {
      MulLe(x / d, -1, d);
    }
  }

  /** Adding a multiple of d leaves the remainder alone. */
  lemma ModShift(a: int, q: int, d: int)
    requires d > 0
    ensures (a + q * d) % d == a % d
  {
    DivMod(a, d);
    MulDistrib(a / d, q, d);
    DivModUnique(a + q * d, a / d + q, a % d, d);
  }

  /** Dividing twice is dividing by the product. */
  lemma DivDiv(x: nat, a: nat, b: nat)
    requires a > 0 && b > 0
    ensures a * b > 0 && x / a / b == x / (a * b)
  {
    MulLe(1, a, b);
    var q, r := x / a, x % a;
    var q', r' := q / b, q % b;
    DivMod(x, a);
    DivMod(q, b);
    MulDistrib(r', q' * b, a);
    MulAssoc(q', b, a);
    assert b * a == a * b;
    MulLe(r', b - 1, a);
    MulNonneg(r', a);
    MulDistrib(b, 1, a);
    DivModUnique(x, q', r' * a + r, a * b);
  }

  /** The high part of a two-digit number is a digit. */
  lemma HighDigit(low: nat, high: int, base: int, bound: int)
    requires base > 0 && low + high * base < bound * base
    ensures high < bound
  {
    if high >= bound { MulLe(bound, high, base); }
  }

  /** The product of two digits, with two digits added, is a two-digit number. */
  lemma TwoDigits(s: int, b: int, c: int, d: int, base: int)
    requires 0 <= s < base && 0 <= b < base && 0 <= c < base && 0 <= d < base
    ensures 0 <= s * b && s * b + c + d < base * base
  {
    MulNonneg(s, b);
    MulLe(s, base - 1, b);
    MulLe(b, base - 1, base - 1);
    assert (base - 1) * b == b * (base - 1);
    MulDistrib(base, 1, base - 1);
    MulDistrib(base, 1, base);
    assert base * (base - 1) == (base - 1) * base;
  }

  /** Multiplying x < p * q by q modulo p * q keeps the low part of x. */
  lemma ShiftParts(x: int, p: int, q: int)
    requires p > 0 && q > 0 && 0 <= x < p * q
    ensures (x * q) % (p * q) == x % p * q
    ensures x * q == x % p * q + x / p * (p * q)
    ensures 0 <= x % p * q < p * q
    ensures 0 <= x / p < q && 0 <= x % p < p
    ensures x == x % p + x / p * p
  {
    DivMod(x, p);
    HighDigit(x % p, x / p, p, q);
    MulDistrib(x % p, x / p * p, q);
    MulAssoc(x / p, p, q);
    MulNonneg(x % p, q);
    MulLe(x % p, p - 1, q);
    MulDistrib(p, 1, q);
    DivModUnique(x * q, x / p, x % p * q, p * q);
  }

  /** A relation between digits, scaled by the weight of their position. */
  lemma ScaleCarry(e: int, c: int, base: int, f: int, weight: int)
    requires e + c * base == f
    ensures e * weight + c * (base * weight) == f * weight
  {
    MulDistrib(e, c * base, weight);
    MulAssoc(c, base, weight);
  }

  /** The digits above decide a comparison. */
  lemma HighDecides(x: int, y: int, hx: int, hy: int, base: int)
    requires 0 <= x < base && 0 <= y < base && hx < hy
    ensures x + hx * base < y + hy * base
  {
    MulLe(hx + 1, hy, base);
    MulDistrib(hx, 1, base);
  }

  /** An even multiple does not change parity. */
  lemma EvenMultiple(x: int, t: int, h: int)
    ensures (x + t * (2 * h)) % 2 == x % 2
  {
    assert t * (2 * h) == 2 * (t * h);
  }
}
