/** The step of the constant-time binary gcd, on numbers: what it keeps, and
    how many steps it can take. */
module GcdSteps {
  import opened Divisibility
  import Arith

  predicate Odd(n: int) { n % 2 == 1 }

  /** The value kept by a step (t1): the first operand when both are odd, and
      the difference otherwise. */
  function Kept(u: nat, v: nat, first: nat, diff: nat): nat {
    if Odd(u) && Odd(v) then first else diff
  }

  /** The value halved by a step (t2). */
  function Halved(u: nat, v: nat, first: nat, second: nat, diff: nat): nat {
    if Odd(u) && Odd(v) then diff else if Odd(u) then second else first
  }

  /** Division by two modulo an odd number. */
  function HalfMod(x: nat, n: nat): nat {
    if Odd(x) then (x + n) / 2 else x / 2
  }

  /** Subtraction of residues modulo n. */
  function SubMod(x: nat, y: nat, n: nat): nat
    requires x < n && y < n
  {
    if x < y then x - y + n else x - y
  }

  datatype State = State(u: nat, v: nat, q: nat, r: nat)

  /** What a step keeps and what it halves, before they are put in order. */
  function KeptOf(u: nat, v: nat): nat
    requires u <= v
  {
    Kept(u, v, u, v - u)
  }

  function HalvedOf(u: nat, v: nat): nat
    requires u <= v
  {
    Halved(u, v, u, v, v - u) / 2
  }

  predicate Swaps(u: nat, v: nat)
    requires u <= v
  {
    HalvedOf(u, v) < KeptOf(u, v)
  }

  /** The pair (u, v) after a step. */
  function Next(u: nat, v: nat): (p: (nat, nat))
    requires u <= v
    ensures p.0 <= p.1
  {
    if Swaps(u, v) then (HalvedOf(u, v), KeptOf(u, v)) else (KeptOf(u, v), HalvedOf(u, v))
  }

  /** One iteration of the loop, on the numbers the limbs stand for. */
  function Step(s: State, n: nat): State
    requires s.u <= s.v && s.q < n && s.r < n
  {
    var (u', v') := Next(s.u, s.v);
    var diff := SubMod(s.q, s.r, n);
    var kept := Kept(s.u, s.v, s.r, diff);
    var halved := HalfMod(Halved(s.u, s.v, s.r, s.q, diff), n);
    if Swaps(s.u, s.v) then State(u', v', kept, halved) else State(u', v', halved, kept)
  }

  ghost predicate SameCommonDivisors(s: State, a: nat, n: nat) {
    forall d :: Divides(d, s.u) && Divides(d, s.v) <==> Divides(d, a) && Divides(d, n)
  }

  ghost predicate Cofactors(s: State, a: nat, n: nat) {
    && s.q < n && s.r < n
    && Cong(s.v, a * s.q, n)
    && Cong(s.u, a * s.r, n)
  }

  /** The loop invariants written above the loop in the source, with the fact
      that u and v are never both even. */
  ghost predicate Inv(s: State, a: nat, n: nat) {
    && s.u <= s.v
    && (Odd(s.u) || Odd(s.v))
    && SameCommonDivisors(s, a, n)
    && Cofactors(s, a, n)
  }

  /** The state before the first iteration. */
  ghost function Start(a: nat, n: nat): State
  {
    State(a, n, 0, if n == 1 then 0 else 1)
  }

  lemma InitInv(a: nat, n: nat)
    requires a <= n && Odd(n)
    ensures Inv(Start(a, n), a, n)
  {
    MultipleIsDivisible(n, n - a * 0, 1);
    if n == 1 {
      MultipleIsDivisible(n, a - a * 0, a);
    } else {
      CongRefl(a, n);
    }
  }

  /** An odd x and a number h have the common divisors of y and z when x and
      2 * h are one of y, z and one their difference. */
  lemma SameDivisors(d: int, x: int, h: int, y: int, z: int)
    requires Odd(x)
    requires (x == y && 2 * h == z - y) || (x == z - y && (2 * h == y || 2 * h == z))
    ensures Divides(d, x) && Divides(d, h) <==> Divides(d, y) && Divides(d, z)
  {
    if Divides(d, x) && Divides(d, h) {
      DividesProduct(d, h, 2);
      DividesSum(d, 2 * h, x);
    }
    if Divides(d, y) && Divides(d, z) {
      DividesSum(d, z, y);
      DivisorOfOdd(d, x);
      OddDividesHalf(d, h);
    }
  }

  /** What is kept is odd. */
  lemma KeptOdd(u: nat, v: nat)
    requires u <= v && (Odd(u) || Odd(v))
    ensures Odd(KeptOf(u, v))
  {
  }

  /** What is halved is even. */
  lemma HalvedEven(u: nat, v: nat)
    requires u <= v && (Odd(u) || Odd(v))
    ensures Halved(u, v, u, v, v - u) % 2 == 0
    ensures 2 * HalvedOf(u, v) == Halved(u, v, u, v, v - u)
  {
  }

  /** A step leaves the set of common divisors alone. */
  lemma StepDivisors(u: nat, v: nat, d: int)
    requires u <= v && (Odd(u) || Odd(v))
    ensures Divides(d, Next(u, v).0) && Divides(d, Next(u, v).1) <==> Divides(d, u) && Divides(d, v)
  {
    KeptOdd(u, v);
    HalvedEven(u, v);
    SameDivisors(d, KeptOf(u, v), HalvedOf(u, v), u, v);
  }

  lemma HalfModIsHalf(x: nat, n: nat)
    requires x < n && Odd(n)
    ensures HalfMod(x, n) < n && Cong(2 * HalfMod(x, n), x, n)
  {
    CongMultiple(x, if Odd(x) then 1 else 0, n);
  }

  lemma SubModIsSub(x: nat, y: nat, n: nat)
    requires x < n && y < n
    ensures SubMod(x, y, n) < n && Cong(SubMod(x, y, n), x - y, n)
  {
    CongMultiple(x - y, if x < y then 1 else 0, n);
  }

  /** If h is congruent to a * x and x is twice y, then half of h is congruent to a * y. */
  lemma HalvedCong(h: nat, a: nat, x: nat, n: nat)
    requires h % 2 == 0 && x < n && Odd(n) && Cong(h, a * x, n)
    ensures Cong(h / 2, a * HalfMod(x, n), n)
  {
    var y := HalfMod(x, n);
    HalfModIsHalf(x, n);
    CongSymm(2 * y, x, n);
    CongRefl(a, n);
    CongMul(a, a, x, 2 * y, n);
    CongTrans(h, a * x, a * (2 * y), n);
    assert a * (2 * y) == 2 * (a * y);
    CongHalve(h / 2, a * y, n);
  }

  /** The difference of the cofactors belongs to the difference of u and v. */
  lemma DifferenceCofactor(s: State, a: nat, n: nat)
    requires s.u <= s.v && Cofactors(s, a, n)
    ensures SubMod(s.q, s.r, n) < n
    ensures Cong(s.v - s.u, a * SubMod(s.q, s.r, n), n)
  {
    var diff := SubMod(s.q, s.r, n);
    SubModIsSub(s.q, s.r, n);
    CongAdd(s.v, a * s.q, s.u, a * s.r, n);
    assert a * s.q - a * s.r == a * (s.q - s.r);
    CongSymm(diff, s.q - s.r, n);
    CongRefl(a, n);
    CongMul(a, a, s.q - s.r, diff, n);
    CongTrans(s.v - s.u, a * (s.q - s.r), a * diff, n);
  }

  lemma HalvedCofactor(s: State, a: nat, n: nat)
    requires s.u <= s.v && (Odd(s.u) || Odd(s.v)) && Cofactors(s, a, n) && Odd(n)
    ensures var x := Halved(s.u, s.v, s.r, s.q, SubMod(s.q, s.r, n));
            HalfMod(x, n) < n && Cong(HalvedOf(s.u, s.v), a * HalfMod(x, n), n)
  {
    DifferenceCofactor(s, a, n);
    var x := Halved(s.u, s.v, s.r, s.q, SubMod(s.q, s.r, n));
    HalvedEven(s.u, s.v);
    HalfModIsHalf(x, n);
    HalvedCong(Halved(s.u, s.v, s.u, s.v, s.v - s.u), a, x, n);
  }

  lemma StepCofactors(s: State, a: nat, n: nat)
    requires s.u <= s.v && (Odd(s.u) || Odd(s.v)) && Cofactors(s, a, n) && Odd(n)
    ensures Cofactors(Step(s, n), a, n)
  {
    assert (var k := Kept(s.u, s.v, s.r, SubMod(s.q, s.r, n)); k < n && Cong(KeptOf(s.u, s.v), a * k, n)) by {
      DifferenceCofactor(s, a, n);
    }
    HalvedCofactor(s, a, n);
  }

  lemma StepCommonDivisors(s: State, a: nat, n: nat)
    requires s.u <= s.v && s.q < n && s.r < n && (Odd(s.u) || Odd(s.v))
    requires SameCommonDivisors(s, a, n)
    ensures SameCommonDivisors(Step(s, n), a, n)
  {
    var t := Step(s, n);
    forall d
      ensures Divides(d, t.u) && Divides(d, t.v) <==> Divides(d, a) && Divides(d, n)
    {
      StepDivisors(s.u, s.v, d);
    }
  }

  /** Every iteration keeps every invariant. */
  lemma {:induction false} StepInv(s: State, a: nat, n: nat)
    requires Inv(s, a, n) && Odd(n)
    ensures Inv(Step(s, n), a, n)
  {
    StepCofactors(s, a, n);
    StepCommonDivisors(s, a, n);
    assert (var t := Step(s, n); t.u <= t.v && (Odd(t.u) || Odd(t.v))) by {
      KeptOdd(s.u, s.v);
    }
  }

  // ---- how many steps reach u == 0 ----

  /** The number of binary digits of n. */
  function Bits(n: nat): nat {
    if n == 0 then 0 else 1 + Bits(n / 2)
  }

  lemma {:induction false} BitsMonotone(x: nat, y: nat)
    requires x <= y
    ensures Bits(x) <= Bits(y)
  {
    if x > 0 { BitsMonotone(x / 2, y / 2); }
  }

  lemma BitsHalf(x: nat, y: nat)
    requires 2 * x <= y && y > 0
    ensures Bits(x) < Bits(y)
  {
    BitsMonotone(x, y / 2);
  }

  function Min(x: nat, y: nat): nat { if x <= y then x else y }

  function Gap(x: nat, y: nat): nat { if x <= y then y - x else x - y }

  /** The smaller of u and v - u, and how far apart those two are. */
  function Low(u: nat, v: nat): nat requires u <= v { Min(u, v - u) }

  function Spread(u: nat, v: nat): nat requires u <= v { Gap(u, v - u) }

  /** A bound on the steps left: the binary digits of Low and Spread while both
      are positive, and the one or two closing steps otherwise. */
  function StepsLeft(u: nat, v: nat): nat
    requires u <= v
  {
    if u == 0 then 0
    else if u == v then 1
    else if Spread(u, v) == 0 then 2
    else Bits(Low(u, v)) + Bits(Spread(u, v))
  }

  /** Replacing x and y by two numbers, one no larger and the other at most
      half as large, costs a binary digit. */
  lemma BitsDrop(x: nat, y: nat, x': nat, y': nat)
    requires x > 0 && y > 0
    requires (x' <= x && 2 * y' <= y) || (2 * x' <= x && y' <= y)
    ensures Bits(x') + Bits(y') < Bits(x) + Bits(y)
  {
    if x' <= x && 2 * y' <= y {
      BitsMonotone(x', x);
      BitsHalf(y', y);
    } else {
      BitsHalf(x', x);
      BitsMonotone(y', y);
    }
  }

  /** Two numbers that add up to m have together fewer binary digits than m
      and any number from m on. */
  lemma BitsSplit(m: nat, y: nat, x': nat, y': nat)
    requires 0 < m <= y && x' + y' == m
    ensures Bits(x') + Bits(y') < Bits(m) + Bits(y)
  {
    BitsMonotone(m, y);
    BitsDrop(m, m, x', y');
  }

  ghost predicate Drops(u: nat, v: nat)
    requires u <= v
  {
    var (u', v') := Next(u, v);
    Bits(Low(u', v')) + Bits(Spread(u', v')) < Bits(Low(u, v)) + Bits(Spread(u, v))
  }

  /** v even: u and v - u are both odd. */
  lemma DropsEvenV(u: nat, v: nat)
    requires 0 < u < v && v != 2 * u && Odd(u) && !Odd(v)
    ensures Drops(u, v)
  {
    var (u', v') := Next(u, v);
    var m, gap := Low(u, v), Spread(u, v);
    if u > v - u {
      assert u' == v - u && v' - u' == gap / 2;
      if u' <= gap / 2 {
        BitsDrop(m, gap, Low(u', v'), Spread(u', v'));
      } else {
        BitsDrop(gap, m, Low(u', v'), Spread(u', v'));
      }
    } else {
      assert u' == v / 2 && v' == v - u;
      assert Low(u', v') == gap / 2 && Spread(u', v') == m;
      BitsDrop(gap, m, Low(u', v'), Spread(u', v'));
    }
  }

  /** v odd: exactly one of u and v - u is even, and it is halved. */
  lemma NextOddV(u: nat, v: nat)
    requires 0 < u < v && Odd(v)
    ensures var m, gap := Low(u, v), Spread(u, v);
            m > 0 && gap > 0 && Odd(gap) && v == 2 * m + gap
            && Next(u, v) == if !Odd(m) then (m / 2, m + gap)
                             else if gap >= m then (m, (m + gap) / 2) else ((m + gap) / 2, m)
  {
  }

  /** The new pair, in terms of the numbers before the step. */
  lemma LowSpreadOddV(m: nat, gap: nat)
    requires m > 0 && gap > 0 && Odd(gap)
    ensures !Odd(m) ==> Low(m / 2, m + gap) == m / 2 && Spread(m / 2, m + gap) == gap
    ensures Odd(m) && gap >= 3 * m ==> m <= (m + gap) / 2
                                       && Low(m, (m + gap) / 2) == m && 2 * Spread(m, (m + gap) / 2) == gap - 3 * m
    ensures Odd(m) && m <= gap < 3 * m ==> m <= (m + gap) / 2
                                           && Low(m, (m + gap) / 2) + Spread(m, (m + gap) / 2) == m
    ensures Odd(m) && gap < m ==> (m + gap) / 2 <= m
                                  && 2 * Low((m + gap) / 2, m) == m - gap && Spread((m + gap) / 2, m) == gap
  {
    if Odd(m) {
      var h := (m + gap) / 2;
      assert m + gap == 2 * h;
    }
  }

  lemma DropsOddV(u: nat, v: nat)
    requires 0 < u < v && Odd(v)
    ensures Drops(u, v)
  {
    var m, gap := Low(u, v), Spread(u, v);
    NextOddV(u, v);
    LowSpreadOddV(m, gap);
    var (u', v') := Next(u, v);
    if Odd(m) && m <= gap < 3 * m {
      BitsSplit(m, gap, Low(u', v'), Spread(u', v'));
    } else {
      BitsDrop(m, gap, Low(u', v'), Spread(u', v'));
    }
  }

  /** Each step from u > 0 brings u == 0 nearer. */
  lemma StepsLeftDrops(u: nat, v: nat)
    requires 0 < u <= v && (Odd(u) || Odd(v))
    ensures StepsLeft(Next(u, v).0, Next(u, v).1) < StepsLeft(u, v)
  {
    if u != v && v != 2 * u {
      if Odd(v) { DropsOddV(u, v); } else { DropsEvenV(u, v); }
      assert Bits(2) == 2;
      if Spread(u, v) >= 2 { BitsMonotone(2, Spread(u, v)); }
    }
  }

  /** The number of steps the algorithm needs: never more than the binary
      digits of its two inputs. */
  lemma {:induction false} StepsLeftBound(a: nat, n: nat, i: nat, j: nat)
    requires a <= n && Odd(n) && Bits(a) <= i && Bits(n) <= j
    ensures StepsLeft(a, n) <= i + j
  {
    if 0 < a < n {
      BitsMonotone(Low(a, n), a);
      BitsMonotone(Spread(a, n), n);
    }
  }

  /** One iteration at the level of the whole loop: the invariants are kept and
      the bound on the iterations left goes down, or u is already zero. */
  lemma Progress(s: State, a: nat, n: nat, left: nat)
    requires Inv(s, a, n) && Odd(n) && StepsLeft(s.u, s.v) <= left + 1
    ensures Inv(Step(s, n), a, n)
    ensures StepsLeft(Step(s, n).u, Step(s, n).v) <= left
  {
    StepInv(s, a, n);
    if s.u > 0 { StepsLeftDrops(s.u, s.v); }
  }

  lemma CongToOne(x: nat, n: nat)
    requires Cong(1, x, n) && n > 1
    ensures x % n == 1
  {
    CongIsModEqual(1, x, n);
    Arith.DivModUnique(1, 0, 1, n);
  }

  /** What the invariants say once no steps are left. */
  lemma Finished(s: State, a: nat, n: nat)
    requires Inv(s, a, n) && StepsLeft(s.u, s.v) == 0
    ensures s.u == 0 && IsGcd(s.v, a, n)
    ensures s.v == 1 && n > 1 ==> (a * s.q) % n == 1
  {
    assert s.u == 0;
    assert IsGcd(s.v, a, n) by {
      MultipleIsDivisible(s.v, 0, 0);
      MultipleIsDivisible(s.v, s.v, 1);
      assert Divides(s.v, s.u) && Divides(s.v, s.v);
    }
    Arith.MulNonneg(a, s.q);
    if s.v == 1 && n > 1 { CongToOne(a * s.q, n); }
  }

  /** The state after k iterations. */
  ghost function Iterate(a: nat, n: nat, k: nat): (s: State)
    requires a <= n && Odd(n)
    ensures Inv(s, a, n)
  {
    InitInv(a, n);
    if k == 0 then Start(a, n)
    else
      StepInv(Iterate(a, n, k - 1), a, n);
      Step(Iterate(a, n, k - 1), n)
  }

  lemma {:induction false} IterateProgress(a: nat, n: nat, k: nat, left: nat)
    requires a <= n && Odd(n) && StepsLeft(a, n) <= left + k
    ensures StepsLeft(Iterate(a, n, k).u, Iterate(a, n, k).v) <= left
  {
    if k > 0 {
      IterateProgress(a, n, k - 1, left + 1);
      Progress(Iterate(a, n, k - 1), a, n, left);
    }
  }

  /** The theorem the source takes from the literature: as many iterations as
      the inputs have binary digits always finish the computation. */
  lemma {:induction false} EnoughIterations(a: nat, n: nat, k: nat)
    requires a <= n && Odd(n) && k >= Bits(a) + Bits(n)
    ensures var s := Iterate(a, n, k);
            s.u == 0 && IsGcd(s.v, a, n) && (s.v == 1 && n > 1 ==> (a * s.q) % n == 1)
  {
    StepsLeftBound(a, n, Bits(a), k - Bits(a));
    IterateProgress(a, n, k, 0);
    Finished(Iterate(a, n, k), a, n);
  }

  /** The count cannot be lowered: with one iteration fewer, an input with 1 + 4
      binary digits is still unfinished. */
  lemma {:induction false} CountIsTight()
    ensures Bits(1) + Bits(13) == 5 && Iterate(1, 13, 4).u != 0
  {
    assert Iterate(1, 13, 1) == State(1, 6, 6, 1);
    assert Iterate(1, 13, 2) == State(3, 5, 5, 3);
    assert Iterate(1, 13, 3) == State(1, 3, 3, 1);
    assert Iterate(1, 13, 4) == State(1, 1, 1, 1);
  }
}
