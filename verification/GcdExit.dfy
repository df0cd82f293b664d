/** The state in which the gcd loop ends. The source's comment says that r is
    zero there and that a further iteration changes nothing; both hold exactly
    when the gcd is one. */
module GcdExit {
  import opened Arith
  import opened Divisibility
  import opened GcdSteps

  /** The cofactors before they were reduced modulo n, scaled by the power of two
      that the halvings divided out. x belongs to r and y to q. */
  datatype Row = Row(x: int, y: int, k: nat, sign: int)

  /** The scaled cofactors of u and v stay unimodular: v x - u y is n or -n. */
  ghost predicate Tracks(w: Row, s: State, n: nat) {
    && (w.sign == 1 || w.sign == -1)
    && s.v * w.x - s.u * w.y == w.sign * n
    && Cong(w.x, Pow2(w.k) * s.r, n)
    && Cong(w.y, Pow2(w.k) * s.q, n)
  }

  lemma StartTracks(a: nat, n: nat)
    requires a <= n && Odd(n)
    ensures Tracks(Row(1, 0, 0, 1), Start(a, n), n)
  {
    MultipleIsDivisible(n, 0 - Pow2(0) * 0, 0);
    if n == 1 {
      MultipleIsDivisible(n, 1 - Pow2(0) * 0, 1);
    } else {
      MultipleIsDivisible(n, 1 - Pow2(0) * 1, 0);
    }
  }

  /** A cofactor that is kept: one more power of two on both sides. */
  lemma KeptScales(x: int, k: nat, c: nat, n: nat)
    requires Cong(x, Pow2(k) * c, n)
    ensures Cong(2 * x, Pow2(k + 1) * c, n)
  {
    CongRefl(2, n);
    CongMul(2, 2, x, Pow2(k) * c, n);
    MulAssoc(2, Pow2(k), c);
  }

  /** A cofactor that is halved: the power of two takes the half in. */
  lemma HalvedScales(y: int, k: nat, c: nat, n: nat)
    requires Cong(y, Pow2(k) * c, n) && c < n && Odd(n)
    ensures Cong(y, Pow2(k + 1) * HalfMod(c, n), n)
  {
    var h, p := HalfMod(c, n), Pow2(k);
    HalfModIsHalf(c, n);
    CongRefl(p, n);
    CongMul(p, p, 2 * h, c, n);
    CongSymm(p * (2 * h), p * c, n);
    CongTrans(y, p * c, p * (2 * h), n);
    MulRotate(h, p, 2);
    assert p * (2 * h) == (p * 2) * h == Pow2(k + 1) * h;
  }

  lemma DifferenceScales(x: int, y: int, k: nat, q: nat, r: nat, n: nat)
    requires Cong(x, Pow2(k) * r, n) && Cong(y, Pow2(k) * q, n) && q < n && r < n
    ensures SubMod(q, r, n) < n && Cong(y - x, Pow2(k) * SubMod(q, r, n), n)
  {
    var p, d := Pow2(k), SubMod(q, r, n);
    SubModIsSub(q, r, n);
    CongAdd(y, p * q, x, p * r, n);
    CongSymm(d, q - r, n);
    CongRefl(p, n);
    CongMul(p, p, q - r, d, n);
    MulDistrib(q, r, p);
    CongTrans(y - x, p * (q - r), p * d, n);
  }

  /** The row after a step, before kept and halved are put in order. */
  function Unordered(w: Row, u: nat, v: nat): Row {
    if Odd(u) && Odd(v) then Row(2 * w.x, w.y - w.x, w.k + 1, w.sign)
    else Row(2 * (w.y - w.x), if Odd(u) then w.y else w.x, w.k + 1, -w.sign)
  }

  function NextRow(w: Row, u: nat, v: nat): Row
    requires u <= v
  {
    var t := Unordered(w, u, v);
    if Swaps(u, v) then Row(t.y, t.x, t.k, -t.sign) else t
  }

  /** The determinant of a step: h is what is halved, already halved. */
  lemma Determinant(u: int, v: int, h: int, x: int, y: int)
    ensures 2 * h == v - u ==> h * (2 * x) - u * (y - x) == v * x - u * y
    ensures 2 * h == v ==> h * (2 * (y - x)) - (v - u) * y == -(v * x - u * y)
    ensures 2 * h == u ==> h * (2 * (y - x)) - (v - u) * x == -(v * x - u * y)
  {
    MulAssoc(h, 2, x);
    MulAssoc(h, 2, y - x);
    assert h * 2 == 2 * h;
    MulDistrib(v, u, x);
    MulDistrib(v, u, y);
    assert u * (y - x) == u * y - u * x;
    assert v * (y - x) == v * y - v * x;
  }

  lemma UnorderedDeterminant(w: Row, s: State, n: nat)
    requires s.u <= s.v && (Odd(s.u) || Odd(s.v)) && Tracks(w, s, n)
    ensures var t := Unordered(w, s.u, s.v);
            HalvedOf(s.u, s.v) * t.x - KeptOf(s.u, s.v) * t.y == t.sign * n
  {
    HalvedEven(s.u, s.v);
    Determinant(s.u, s.v, HalvedOf(s.u, s.v), w.x, w.y);
  }

  lemma UnorderedCofactors(w: Row, s: State, n: nat)
    requires s.u <= s.v && s.q < n && s.r < n && Odd(n) && Tracks(w, s, n)
    ensures var t, diff := Unordered(w, s.u, s.v), SubMod(s.q, s.r, n);
            Cong(t.x, Pow2(t.k) * Kept(s.u, s.v, s.r, diff), n)
            && Cong(t.y, Pow2(t.k) * HalfMod(Halved(s.u, s.v, s.r, s.q, diff), n), n)
  {
    var diff := SubMod(s.q, s.r, n);
    DifferenceScales(w.x, w.y, w.k, s.q, s.r, n);
    if Odd(s.u) && Odd(s.v) {
      KeptScales(w.x, w.k, s.r, n);
      HalvedScales(w.y - w.x, w.k, diff, n);
    } else {
      KeptScales(w.y - w.x, w.k, diff, n);
      if Odd(s.u) { HalvedScales(w.y, w.k, s.q, n); } else { HalvedScales(w.x, w.k, s.r, n); }
    }
  }

  lemma {:induction false} NextRowTracks(w: Row, s: State, n: nat)
    requires s.u <= s.v && (Odd(s.u) || Odd(s.v)) && s.q < n && s.r < n && Odd(n) && Tracks(w, s, n)
    ensures Tracks(NextRow(w, s.u, s.v), Step(s, n), n)
  {
    UnorderedDeterminant(w, s, n);
    UnorderedCofactors(w, s, n);
    var t := Unordered(w, s.u, s.v);
    MulDistrib(0, t.sign, n);
  }

  /** The row after k iterations. */
  ghost function RowOf(a: nat, n: nat, k: nat): (w: Row)
    requires a <= n && Odd(n)
    ensures Tracks(w, Iterate(a, n, k), n)
  {
    if k == 0 then
      StartTracks(a, n);
      Row(1, 0, 0, 1)
    else
      var s := Iterate(a, n, k - 1);
      NextRowTracks(RowOf(a, n, k - 1), s, n);
      NextRow(RowOf(a, n, k - 1), s.u, s.v)
  }

  /** An odd number that divides a power of two times c divides c. */
  lemma {:induction false} OddDividesScaled(n: nat, k: nat, c: int)
    requires Odd(n) && Divides(n, Pow2(k) * c)
    ensures Divides(n, c)
  {
    if k > 0 {
      MulAssoc(2, Pow2(k - 1), c);
      OddDividesHalf(n, Pow2(k - 1) * c);
      OddDividesScaled(n, k - 1, c);
    }
  }

  lemma SmallDivisible(n: nat, r: nat)
    requires r < n
    ensures Divides(n, r) <==> r == 0
  {
    if Divides(n, r) {
      var k := Quotient(n, r);
      SmallMultiple(k, n);
    }
    MultipleIsDivisible(n, 0, 0);
  }

  /** n times t is n or -n: so t is. */
  lemma UnitFactor(v: nat, x: int, n: nat, sign: int)
    requires n > 0 && (sign == 1 || sign == -1) && v * x == sign * n
    ensures Divides(n, x) <==> v == 1
  {
    if Divides(n, x) {
      var t := Quotient(n, x);
      MulAssoc(v, t, n);
      MulDistrib(v * t, sign, n);
      assert (v * t - sign) * n == 0;
      SmallMultiple(v * t - sign, n);
      UnitOnly(v, t);
    }
    if v == 1 { MultipleIsDivisible(n, x, sign); }
  }

  lemma UnitOnly(v: nat, t: int)
    requires v * t == 1 || v * t == -1
    ensures v == 1
  {
    if v >= 2 {
      if t >= 1 { MulLe(1, t, v); } else if t <= -1 { MulLe(t, -1, v); }
    }
  }

  /** Where the loop ends, r is zero exactly when A and N are coprime. */
  lemma {:induction false} ExitRowZeroIff(a: nat, n: nat, k: nat)
    requires a <= n && Odd(n) && k >= Bits(a) + Bits(n)
    ensures var s := Iterate(a, n, k); IsGcd(s.v, a, n) && (s.r == 0 <==> s.v == 1)
    ensures Iterate(a, n, k).r == 0 <==> IsGcd(1, a, n)
  {
    var s, w := Iterate(a, n, k), RowOf(a, n, k);
    EnoughIterations(a, n, k);
    UnitFactor(s.v, w.x, n, w.sign);
    SmallDivisible(n, s.r);
    if s.r == 0 {
      assert Pow2(w.k) * s.r == 0;
      assert Divides(n, w.x);
    }
    if s.v == 1 {
      DividesSum(n, w.x, w.x - Pow2(w.k) * s.r);
      OddDividesScaled(n, w.k, s.r);
    }
    assert s.v == 1 <==> IsGcd(1, a, n) by {
      if IsGcd(1, a, n) {
        var c := Quotient(s.v, 1);
        UnitOnly(s.v, c);
      }
    }
  }

  /** With u zero, one more iteration leaves the state alone exactly when r is
      zero. Otherwise it moves q, the would-be inverse. */
  lemma FixedPointIff(s: State, a: nat, n: nat)
    requires Inv(s, a, n) && s.u == 0
    ensures Step(s, n) == s <==> s.r == 0
    ensures Step(s, n).u == 0 && Step(s, n).v == s.v
  {
  }

  /** The comment's last claim, with its exact condition. */
  lemma ExitIsFixedPointIff(a: nat, n: nat, k: nat)
    requires a <= n && Odd(n) && k >= Bits(a) + Bits(n)
    ensures Step(Iterate(a, n, k), n) == Iterate(a, n, k) <==> IsGcd(1, a, n)
  {
    ExitRowZeroIff(a, n, k);
    EnoughIterations(a, n, k);
    FixedPointIff(Iterate(a, n, k), a, n);
  }

  /** So it fails for inputs with a common divisor. */
  lemma ExitMoves(a: nat, n: nat, k: nat, d: nat)
    requires a <= n && Odd(n) && k >= Bits(a) + Bits(n) && d > 1 && Divides(d, a) && Divides(d, n)
    ensures Step(Iterate(a, n, k), n) != Iterate(a, n, k)
  {
    var s := Iterate(a, n, k);
    ExitIsFixedPointIff(a, n, k);
    if IsGcd(1, a, n) {
      var c := Quotient(d, 1);
      UnitOnly(d, c);
    }
  }

  /** One such input. */
  lemma ExitCanMove(k: nat)
    requires k >= Bits(3) + Bits(9)
    ensures Step(Iterate(3, 9, k), 9) != Iterate(3, 9, k)
  {
    MultipleIsDivisible(3, 3, 1);
    MultipleIsDivisible(3, 9, 3);
    ExitMoves(3, 9, k, 3);
  }
}
