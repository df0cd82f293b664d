/** Divisibility and congruence over the integers: the vocabulary in which the
    arithmetic modules state their results. */
module Divisibility {

  /** The product, named so that quantifiers over a factor have a term to match. */
  ghost function Times(k: int, d: int): int { k * d }

  ghost predicate Divides(d: int, x: int) {
    exists k :: Times(k, d) == x
  }

  /** a and b are congruent modulo n. */
  ghost predicate Cong(a: int, b: int, n: int) {
    Divides(n, a - b)
  }

  /** g divides a and b, and every common divisor of a and b divides g. */
  ghost predicate IsGcd(g: int, a: int, b: int) {
    && Divides(g, a) && Divides(g, b)
    && forall d :: Divides(d, a) && Divides(d, b) ==> Divides(d, g)
  }

  lemma MultipleIsDivisible(d: int, x: int, k: int)
    requires x == k * d
    ensures Divides(d, x)
  {
    assert Times(k, d) == x;
  }

  lemma Quotient(d: int, x: int) returns (k: int)
    requires Divides(d, x)
    ensures x == k * d
  {
    k :| Times(k, d) == x;
  }

  /** The divisible numbers are closed under integer combinations. */
  lemma DividesCombination(d: int, x: int, y: int, a: int, b: int)
    requires Divides(d, x) && Divides(d, y)
    ensures Divides(d, a * x + b * y)
  {
    var k := Quotient(d, x);
    var l := Quotient(d, y);
    assert a * x + b * y == (a * k + b * l) * d;
    MultipleIsDivisible(d, a * x + b * y, a * k + b * l);
  }

  lemma DividesSum(d: int, x: int, y: int)
    requires Divides(d, x) && Divides(d, y)
    ensures Divides(d, x + y) && Divides(d, x - y)
  {
    DividesCombination(d, x, y, 1, 1);
    DividesCombination(d, x, y, 1, -1);
  }

  lemma DividesProduct(d: int, x: int, a: int)
    requires Divides(d, x)
    ensures Divides(d, a * x)
  {
    DividesCombination(d, x, x, a, 0);
  }

  /** An odd number that divides 2x divides x. */
  lemma OddDividesHalf(d: int, x: int)
    requires d % 2 == 1 && Divides(d, 2 * x)
    ensures Divides(d, x)
  {
    var k := Quotient(d, 2 * x);
    var e := d / 2;
    assert d == 2 * e + 1;
    assert 2 * x == k * (2 * e + 1) == 2 * (k * e) + k;
    assert k == 2 * (x - k * e);
    var h := x - k * e;
    assert 2 * x == 2 * h * d == 2 * (h * d);
    MultipleIsDivisible(d, x, h);
  }

  /** Only an odd number divides an odd number. */
  lemma DivisorOfOdd(d: int, x: int)
    requires Divides(d, x) && x % 2 == 1
    ensures d % 2 == 1
  {
    var k := Quotient(d, x);
    assert k * d == 2 * (k * (d / 2)) + k * (d % 2);
  }

  lemma CongRefl(a: int, n: int)
    ensures Cong(a, a, n)
  {
    MultipleIsDivisible(n, a - a, 0);
  }

  lemma CongSymm(a: int, b: int, n: int)
    requires Cong(a, b, n)
    ensures Cong(b, a, n)
  {
    DividesCombination(n, a - b, a - b, -1, 0);
  }

  lemma CongTrans(a: int, b: int, c: int, n: int)
    requires Cong(a, b, n) && Cong(b, c, n)
    ensures Cong(a, c, n)
  {
    DividesSum(n, a - b, b - c);
  }

  lemma CongAdd(a: int, b: int, c: int, d: int, n: int)
    requires Cong(a, b, n) && Cong(c, d, n)
    ensures Cong(a + c, b + d, n) && Cong(a - c, b - d, n)
  {
    DividesSum(n, a - b, c - d);
    assert (a + c) - (b + d) == (a - b) + (c - d);
    assert (a - c) - (b - d) == (a - b) - (c - d);
  }

  lemma CongMul(a: int, b: int, c: int, d: int, n: int)
    requires Cong(a, b, n) && Cong(c, d, n)
    ensures Cong(a * c, b * d, n)
  {
    DividesCombination(n, a - b, c - d, c, b);
    assert c * (a - b) + b * (c - d) == a * c - b * d;
  }

  /** Adding a multiple of n does not change the residue class. */
  lemma CongMultiple(a: int, k: int, n: int)
    ensures Cong(a + k * n, a, n)
  {
    MultipleIsDivisible(n, a + k * n - a, k);
  }

  /** Halving is sound modulo an odd number. */
  lemma CongHalve(a: int, b: int, n: int)
    requires n % 2 == 1 && Cong(2 * a, 2 * b, n)
    ensures Cong(a, b, n)
  {
    assert 2 * a - 2 * b == 2 * (a - b);
    OddDividesHalf(n, a - b);
  }

  /** Two residues of the same class are equal. */
  lemma CongUnique(a: int, b: int, n: int)
    requires Cong(a, b, n) && 0 <= a < n && 0 <= b < n
    ensures a == b
  {
    var k := Quotient(n, a - b);
    assert -n < k * n < n;
  }

  lemma CongMod(a: int, n: int)
    requires n > 0
    ensures Cong(a % n, a, n)
  {
    assert a % n - a == (-(a / n)) * n;
    MultipleIsDivisible(n, a % n - a, -(a / n));
  }

  /** Congruence and equality of remainders are the same thing. */
  lemma CongIsModEqual(a: int, b: int, n: int)
    requires n > 0
    ensures Cong(a, b, n) <==> a % n == b % n
  {
    CongMod(a, n);
    CongMod(b, n);
    CongSymm(a % n, a, n);
    CongSymm(b % n, b, n);
    if Cong(a, b, n) {
      CongTrans(a % n, a, b, n);
      CongTrans(a % n, b, b % n, n);
      CongUnique(a % n, b % n, n);
    }
    if a % n == b % n {
      CongTrans(a, a % n, b, n);
    }
  }
}
