/** Montgomery multiplication on limb arrays. */
module Montgomery {
  import opened Arith
  import opened Divisibility
  import opened Limbs
  import opened LimbOps

  // ---- the Montgomery constant ----

  /** x inverts n modulo m. */
  ghost predicate Inverts(x: int, n: int, m: int) {
    Cong(n * x, 1, m)
  }

  /** What the seed adds to n. */
  function SeedOffset(n: int): int { if (n + 2) / 4 % 2 == 1 then 8 else 0 }

  lemma SeedResidue(r: int)
    requires 0 <= r < 16 && r % 2 == 1
    ensures Inverts(r + SeedOffset(r), r, 16)
  {
    var k :=
      if r == 1 then 0 else if r == 3 then 2 else if r == 5 then 4 else if r == 7 then 3
      else if r == 9 then 5 else if r == 11 then 13 else if r == 13 then 17 else 14;
    assert r * (r + SeedOffset(r)) - 1 == k * 16;
    MultipleIsDivisible(16, r * (r + SeedOffset(r)) - 1, k);
  }

  lemma SeedOffsetPeriodic(n: int)
    ensures SeedOffset(n) == SeedOffset(n % 16)
  {
    var q, r := n / 16, n % 16;
    DivMod(n, 16);
    DivMod(r + 2, 4);
    DivModUnique(n + 2, (r + 2) / 4 + q * (2 * 2), (r + 2) % 4, 4);
    EvenMultiple((r + 2) / 4, q, 2);
  }

  /** The seed is right modulo 16. */
  lemma SeedInverts(n: int)
    requires n % 2 == 1
    ensures Inverts(n + SeedOffset(n), n, 16)
  {
    var r, e := n % 16, SeedOffset(n);
    assert Inverts(r + e, r, 16) by {
      assert r % 2 == 1;
      SeedOffsetPeriodic(n);
      SeedResidue(r);
    }
    assert Cong(r, n, 16) by { CongMod(n, 16); }
    ShiftedInverse(n, r, e, 16);
  }

  /** Being an inverse depends on residues only. */
  lemma ShiftedInverse(n: int, r: int, e: int, m: int)
    requires Cong(r, n, m) && Inverts(r + e, r, m)
    ensures Inverts(n + e, n, m)
  {
    CongSymm(r, n, m);
    CongRefl(e, m);
    CongAdd(n, r, e, e, m);
    CongMul(n, r, n + e, r + e, m);
    CongTrans(n * (n + e), r * (r + e), 1, m);
  }

  /** A Newton step squares the modulus: twice the number of correct bits. */
  lemma NewtonStep(n: int, x: int, m: int)
    requires Inverts(x, n, m)
    ensures Inverts(x * (2 - n * x), n, m * m)
  {
    var k := Quotient(m, n * x - 1);
    var y := x * (2 - n * x);
    assert n * y == (n * x) * (2 - n * x);
    assert (n * x) * (2 - n * x) == (1 + k * m) * (1 - k * m) == 1 - (k * m) * (k * m);
    assert (k * m) * (k * m) == (k * k) * (m * m);
    MultipleIsDivisible(m * m, n * y - 1, -(k * k));
  }

  /** Reducing modulo a multiple of m does not disturb an inverse modulo m. */
  lemma InvertsReduced(x: int, y: int, n: int, m: int, big: int)
    requires Inverts(x, n, m) && Cong(y, x, big) && Divides(m, big)
    ensures Inverts(y, n, m)
  {
    var k := Quotient(m, big);
    var l := Quotient(big, y - x);
    assert l * (k * m) == (l * k) * m;
    MultipleIsDivisible(m, y - x, l * k);
    CongRefl(n, m);
    CongMul(n, n, y, x, m);
    CongTrans(n * y, n * x, 1, m);
  }

  /** The wrapped arithmetic of a Newton step agrees with the exact one. */
  lemma WrappedStep(n: Limb, x: Limb)
    ensures Cong(Mul(x, Sub(2, Mul(n, x))), x * (2 - n * x), BASE)
  {
    var p := Mul(n, x);
    var t := Sub(2, p);
    CongMod(n * x, BASE);
    var exact: int := 2 - (p as int);
    CongMultiple(exact, if 2 >= p then 0 else 1, BASE);
    CongRefl(2, BASE);
    CongAdd(2, 2, p, n * x, BASE);
    CongTrans(t, exact, 2 - n * x, BASE);
    CongRefl(x, BASE);
    CongMul(x, x, t, 2 - n * x, BASE);
    CongMod(x * t, BASE);
    CongTrans(Mul(x, t), x * t, x * (2 - n * x), BASE);
  }

  lemma Pow2DividesBase(k: nat)
    requires k <= LIMB_BITS
    ensures Divides(Pow2(k), BASE)
  {
    Pow2Add(LIMB_BITS - k, k);
    MultipleIsDivisible(Pow2(k), BASE, Pow2(LIMB_BITS - k));
  }

  lemma BaseIsMultipleOf16()
    ensures BASE % 16 == 0 && Pow2(4) == 16 && LIMB_BITS >= 8
  {
    assert Pow2(3) == 8;
    Pow2Monotone(3, LOG_WIDTH);
    Pow2Add(4, LIMB_BITS - 4);
    assert Pow2(4) == 16;
    DivModUnique(BASE, Pow2(LIMB_BITS - 4), 0, 16);
  }

  /** The seed, computed with wrapping additions. */
  lemma WrappedSeed(n: Limb)
    requires n % 2 == 1
    ensures Inverts(Add(n, if Add(n, 2) / 4 % 2 == 1 then 8 else 0), n, 16)
  {
    BaseIsMultipleOf16();
    var e: Limb := if Add(n, 2) / 4 % 2 == 1 then 8 else 0;
    assert (if Add(n, 2) / 4 % 2 == 1 then 8 else 0) == SeedOffset(n) by {
      if n + 2 >= BASE {
        var h := BASE / 16;
        DivMod(BASE, 16);
        assert n + 2 == 1 + BASE;
        DivModUnique(n + 2, 0 + h * (2 * 2), 1, 4);
        EvenMultiple(0, h, 2);
      }
    }
    SeedInverts(n);
    CongMultiple(n + e, if n + e < BASE then 0 else -1, BASE);
    Pow2DividesBase(4);
    InvertsReduced(n + e, Add(n, e), n, 16, BASE);
  }

  /** One Newton step in machine arithmetic doubles the correct bits. */
  lemma {:induction false} BitsDouble(n: Limb, x: Limb, bits: nat)
    requires Inverts(x, n, Pow2(bits)) && 2 * bits <= LIMB_BITS
    ensures Inverts(Mul(x, Sub(2, Mul(n, x))), n, Pow2(2 * bits))
  {
    NewtonStep(n, x, Pow2(bits));
    Pow2Add(bits, bits);
    WrappedStep(n, x);
    Pow2DividesBase(2 * bits);
    InvertsReduced(x * (2 - n * x), Mul(x, Sub(2, Mul(n, x))), n, Pow2(2 * bits), BASE);
  }

  /** The Montgomery constant of N: minus the inverse of N[0] modulo 2^LIMB_BITS. */
  method MontMulInit(N: array<Limb>) returns (mm: Limb)
    requires N.Length > 0 && N[0] % 2 == 1
    ensures Cong(N[0] * mm, -1, BASE)
  {
    BaseIsMultipleOf16();
    var x: Limb := Add(N[0], if Add(N[0], 2) / 4 % 2 == 1 then 8 else 0);
    WrappedSeed(N[0]);
    var i := LIMB_BITS;
    ghost var j: nat, b: nat := LOG_WIDTH, 2;
    assert Pow2(2) == 4 && Pow2(3) == 8;
    while i >= 8
      invariant 2 <= j <= LOG_WIDTH && b == LOG_WIDTH + 2 - j
      invariant i == Pow2(j)
      invariant Inverts(x, N[0], Pow2(Pow2(b)))
      decreases i
    {
      assert j != 2;
      Pow2Monotone(b + 1, LOG_WIDTH);
      BitsDouble(N[0], x, Pow2(b));
      x := Mul(x, Sub(2, Mul(N[0], x)));
      i := i / 2;
      j, b := j - 1, b + 1;
    }
    if j > 2 { Pow2Monotone(3, j); }
    mm := Sub(0, x);
    NegatedInverse(N[0], x);
  }

  lemma NegatedInverse(n: Limb, x: Limb)
    requires Inverts(x, n, BASE)
    ensures Cong(n * Sub(0, x), -1, BASE)
  {
    var minus: int := -(x as int);
    CongMultiple(minus, if x == 0 then 0 else 1, BASE);
    CongRefl(n, BASE);
    CongMul(n, n, Sub(0, x), minus, BASE);
    CongRefl(0, BASE);
    CongAdd(0, 0, n * x, 1, BASE);
    assert n * minus == 0 - n * x;
    CongTrans(n * Sub(0, x), n * minus, -1, BASE);
  }

  // ---- the multiplication ----

  /** A product of limbs dominates no more than the next power. */
  lemma StepFits(t: nat, b: nat, n: nat, u0: Limb, u1: Limb, limbs: nat)
    requires t < b + n && b < BPow(limbs) && n < BPow(limbs)
    ensures 0 <= b * u0 && 0 <= n * u1
    ensures t + b * u0 + n * u1 < BASE * (b + n) <= BPow(limbs + 2)
  {
    MulNonneg(b, u0);
    MulNonneg(n, u1);
    MulLe(u0, BASE - 1, b);
    MulLe(u1, BASE - 1, n);
    MulDistrib(BASE, 1, b);
    MulDistrib(BASE, 1, n);
    MulDistrib(b, n, BASE);
    MulLe(2, BASE, BPow(limbs));
    MulLe(b + n, BPow(limbs + 1), BASE);
  }

  /** The multiplier u1 makes the sum divisible by the base. */
  lemma LowLimbVanishes(t0: Limb, u0: Limb, b0: Limb, n0: Limb, mm: Limb)
    requires Cong(n0 * mm, -1, BASE)
    ensures var u1 := Mul(Add(t0, Mul(u0, b0)), mm);
            Cong(t0 + u0 * b0 + n0 * u1, 0, BASE)
  {
    var u1 := Mul(Add(t0, Mul(u0, b0)), mm);
    var s, exact: int := Add(t0, Mul(u0, b0)), t0 + u0 * b0;
    WrappedSum(t0, u0, b0);
    assert Cong(n0 * Mul(s, mm), -exact, BASE) by {
      CongMod(s * mm, BASE);
      MinusByInverse(s, n0, mm, Mul(s, mm), exact, BASE);
    }
    CongRefl(exact, BASE);
    CongAdd(exact, exact, n0 * u1, -exact, BASE);
  }

  lemma WrappedSum(t: Limb, u: Limb, b: Limb)
    ensures Cong(Add(t, Mul(u, b)), t + u * b, BASE)
  {
    var p := Mul(u, b);
    var sum: int := (t as int) + p;
    CongMod(u * b, BASE);
    CongRefl(t, BASE);
    CongAdd(t, t, p, u * b, BASE);
    CongMultiple(sum, if sum < BASE then 0 else -1, BASE);
    CongTrans(Add(t, p), sum, t + u * b, BASE);
  }

  lemma MinusByInverse(s: int, n0: int, mm: int, u1: int, exact: int, m: int)
    requires Cong(n0 * mm, -1, m) && Cong(s, exact, m) && Cong(u1, s * mm, m)
    ensures Cong(n0 * u1, -exact, m)
  {
    CongRefl(n0, m);
    CongMul(n0, n0, u1, s * mm, m);
    CongMul(n0 * mm, -1, s, exact, m);
    MulRotate(n0, mm, s);
    assert (mm * s) * n0 == n0 * (s * mm);
    CongTrans(n0 * u1, (n0 * mm) * s, -exact, m);
  }

  /** A number is congruent to its lowest limb. */
  lemma CongLowLimb(a: seq<Limb>, lo: nat, hi: nat)
    requires lo < hi <= |a|
    ensures Cong(V(a, lo, hi), a[lo], BASE)
  {
    VHead(a, lo, hi);
    CongMultiple(a[lo], V(a, lo + 1, hi), BASE);
  }

  /** A sum below the top weight leaves no carry. */
  lemma NoCarry(v: nat, c: nat, weight: nat, total: nat)
    requires v + c * weight == total && total < weight
    ensures c == 0 && v == total
  {
    if c >= 1 { MulLe(1, c, weight); }
  }

  /** The lowest limb of the accumulated sum is zero. */
  lemma LowLimbZero(t: seq<Limb>, t': seq<Limb>, at: nat, b: seq<Limb>, bLen: nat, n: seq<Limb>,
                    u0: Limb, u1: Limb, mm: Limb, w: nat)
    requires |t| == |t'| && at < at + w <= |t| && 0 < bLen <= |b| && |n| > 0
    requires Cong(n[0] * mm, -1, BASE)
    requires u1 == Mul(Add(t[at], Mul(u0, b[0])), mm)
    requires V(t', at, at + w) == V(t, at, at + w) + V(b, 0, bLen) * u0 + Val(n) * u1
    ensures t'[at] == 0
  {
    CongLowLimb(t, at, at + w);
    CongLowLimb(b, 0, bLen);
    CongLowLimb(n, 0, |n|);
    CongRefl(u0, BASE);
    CongRefl(u1, BASE);
    CongMul(V(b, 0, bLen), b[0], u0, u0, BASE);
    CongMul(Val(n), n[0], u1, u1, BASE);
    CongAdd(V(t, at, at + w), t[at], V(b, 0, bLen) * u0, b[0] * u0, BASE);
    CongAdd(V(t, at, at + w) + V(b, 0, bLen) * u0, t[at] + b[0] * u0, Val(n) * u1, n[0] * u1, BASE);
    LowLimbVanishes(t[at], u0, b[0], n[0], mm);
    CongTrans(V(t', at, at + w), t[at] + b[0] * u0 + n[0] * u1, 0, BASE);
    CongLowLimb(t', at, at + w);
    CongSymm(V(t', at, at + w), t'[at], BASE);
    CongTrans(t'[at], V(t', at, at + w), 0, BASE);
    CongUnique(t'[at], 0, BASE);
  }

  /** One round, T := (T + u0 * B + u1 * N) / 2^LIMB_BITS: the sum is formed in place
      and the division is the window on T moving up by one limb. */
  method MontRound(T: array<Limb>, i: nat, u0: Limb, B: array<Limb>, B_limbs: nat, N: array<Limb>, mm: Limb)
    returns (u1: Limb)
    requires 0 < B_limbs <= B.Length && B_limbs <= N.Length && i < N.Length
    requires 2 * N.Length + 1 <= T.Length && T != B && T != N
    requires Cong(N[0] * mm, -1, BASE)
    requires forall k :: i + N.Length + 1 <= k < 2 * N.Length + 1 ==> T[k] == 0
    requires V(T[..], i, i + N.Length + 1) < V(B[..], 0, B_limbs) + Val(N[..])
    modifies T
    ensures V(T[..], i + 1, i + N.Length + 2) * BASE
         == old(V(T[..], i, i + N.Length + 1)) + V(B[..], 0, B_limbs) * u0 + Val(N[..]) * u1
    ensures forall k :: i + N.Length + 2 <= k < 2 * N.Length + 1 ==> T[k] == 0
  {
    var n := N.Length;
    ghost var t, b, m := T[..], V(B[..], 0, B_limbs), Val(N[..]);
    u1 := Mul(Add(T[i], Mul(u0, B[0])), mm);
    var c1 := Mla(T, i, n + 2, B, B_limbs, u0);
    ghost var t1 := T[..];
    var c2 := Mla(T, i, n + 2, N, n, u1);
    RoundSum(t, t1, T[..], i, B[..], B_limbs, N[..], u0, u1, c1, c2);
    LowLimbZero(t, T[..], i, B[..], B_limbs, N[..], u0, u1, mm, n + 2);
    VHead(T[..], i, i + n + 2);
  }

  /** Neither addition of a round carries out of its n + 2 limbs. */
  lemma RoundSum(t: seq<Limb>, t1: seq<Limb>, t2: seq<Limb>, i: nat, B: seq<Limb>, bLen: nat, N: seq<Limb>,
                 u0: Limb, u1: Limb, c1: Limb, c2: Limb)
    requires bLen <= |B| && bLen <= |N| && |t| == |t1| == |t2| && i + |N| + 2 <= |t|
    requires t[i + |N| + 1] == 0
    requires V(t, i, i + |N| + 1) < V(B, 0, bLen) + Val(N)
    requires Accumulated(t1, t, i, |N| + 2, c1, V(B, 0, bLen) * u0)
    requires Accumulated(t2, t1, i, |N| + 2, c2, Val(N) * u1)
    ensures V(t, i, i + |N| + 2) == V(t, i, i + |N| + 1)
    ensures V(t2, i, i + |N| + 2) == V(t, i, i + |N| + 2) + V(B, 0, bLen) * u0 + Val(N) * u1
  {
    var n := |N|;
    VBound(N, 0, n);
    ShorterBound(B, bLen, n);
    StepFits(V(t, i, i + n + 1), V(B, 0, bLen), Val(N), u0, u1, n);
    assert V(t, i, i + n + 2) == V(t, i, i + n + 1) + 0 * BPow(n + 1);
    NoCarry(V(t1, i, i + n + 2), c1, BPow(n + 2), V(t, i, i + n + 2) + V(B, 0, bLen) * u0);
    NoCarry(V(t2, i, i + n + 2), c2, BPow(n + 2), V(t1, i, i + n + 2) + Val(N) * u1);
  }

  lemma ShorterBound(b: seq<Limb>, k: nat, n: nat)
    requires k <= |b| && k <= n
    ensures V(b, 0, k) < BPow(n)
  {
    VBound(b, 0, k);
    BPowAdd(k, n - k);
    MulLe(1, BPow(n - k), BPow(k));
  }

  /** The congruence one round carries on. */
  lemma RoundCong(t: nat, t': nat, a: nat, a0: nat, weight: nat, b: nat, n: nat, u1: nat)
    requires t' * BASE == t + b * a0 + n * u1
    requires Cong(t * weight, a * b, n)
    ensures Cong(t' * (BASE * weight), (a + a0 * weight) * b, n)
  {
    MulAssoc(t', BASE, weight);
    MulDistrib(t + b * a0, n * u1, weight);
    MulDistrib(t, b * a0, weight);
    MulDistrib(a, a0 * weight, b);
    MulRotate(b, a0, weight);
    MulRotate(n, u1, weight);
    CongRefl((a0 * weight) * b, n);
    CongAdd(t * weight, a * b, (a0 * weight) * b, (a0 * weight) * b, n);
    CongMultiple(t * weight + (a0 * weight) * b, u1 * weight, n);
    CongTrans(t' * (BASE * weight), t * weight + (a0 * weight) * b, (a + a0 * weight) * b, n);
  }

  /** T stays below B + N. */
  lemma RoundBound(t: nat, t': nat, a0: Limb, b: nat, n: nat, u1: Limb)
    requires t < b + n && t' * BASE == t + b * a0 + n * u1
    ensures t' < b + n
  {
    MulLe(a0, BASE - 1, b);
    MulLe(u1, BASE - 1, n);
    MulDistrib(BASE, 1, b);
    MulDistrib(BASE, 1, n);
    MulDistrib(b, n, BASE);
    if t' >= b + n { MulLe(b + n, t', BASE); }
  }

  /** The carry out of the n low limbs is a bit. */
  lemma TopLimb(t: seq<Limb>, n: nat, bound: nat)
    requires 2 * n + 1 <= |t| && V(t, n, 2 * n + 1) < bound <= 2 * BPow(n)
    ensures t[2 * n] <= 1 && V(t, n, 2 * n + 1) == V(t, n, 2 * n) + Carry(t[2 * n], n)
  {
    var low, high, w := V(t, n, 2 * n), t[2 * n], BPow(n);
    assert V(t, n, 2 * n + 1) == low + high * w;
    HighDigit(low, high, w, 2);
  }

  /** The three ranges of t in the source's comment: the difference holds the
      result exactly when carry and borrow agree. */
  lemma CarryAndBorrow(low: int, carry: Limb, borrow: Limb, diff: int, limbs: nat, n: int)
    requires 0 <= low < BPow(limbs) && 0 <= diff < BPow(limbs) && 0 < n < BPow(limbs)
    requires carry <= 1 && borrow <= 1
    requires low + Carry(carry, limbs) < 2 * n
    requires diff == low - n + Carry(borrow, limbs)
    ensures var t := low + Carry(carry, limbs);
            (if carry == borrow then diff else low) == (if t >= n then t - n else t)
  {
  }

  /** X := T - N if T >= N, else T, where T is the n + 1 limbs from index n on:
      the subtraction always runs, and carry and borrow say which result holds. */
  method ReduceOnce(X: array<Limb>, T: array<Limb>, N: array<Limb>)
    requires X.Length == N.Length && 2 * N.Length + 1 <= T.Length && T != X && T != N
    requires V(T[..], N.Length, 2 * N.Length + 1) < 2 * Val(N[..])
    modifies X
    ensures var t, n := old(V(T[..], N.Length, 2 * N.Length + 1)), old(Val(N[..]));
            Val(X[..]) == if t >= n then t - n else t
  {
    var n := N.Length;
    ghost var m := Val(N[..]);
    VBound(N[..], 0, n);
    VBound(T[..], n, 2 * n);
    TopLimb(T[..], n, 2 * m);
    var carry := T[2 * n];
    var borrow := SubLimbs(X, T, n, N, n);
    VBound(X[..], 0, n);
    CarryAndBorrow(V(T[..], n, 2 * n), carry, borrow, Val(X[..]), n, m);
    if carry != borrow {
      CopyWindow(X, T, n);
    }
  }

  /** X := the limbs n..2n of T. */
  method CopyWindow(X: array<Limb>, T: array<Limb>, n: nat)
    requires X.Length == n && 2 * n <= T.Length && X != T
    modifies X
    ensures Val(X[..]) == V(T[..], n, 2 * n)
  {
    forall k | 0 <= k < n { X[k] := T[n + k]; }
    VShift(X[..], T[..], 0, n, n);
  }

  /** The state of the loop after i rounds. */
  ghost predicate AfterRounds(t: seq<Limb>, a: seq<Limb>, b: nat, n: nat, limbs: nat, i: nat)
    requires i <= limbs <= |a| && 2 * limbs + 1 <= |t|
  {
    && (forall k :: i + limbs + 1 <= k < 2 * limbs + 1 ==> t[k] == 0)
    && V(t, i, i + limbs + 1) < b + n
    && Cong(V(t, i, i + limbs + 1) * BPow(i), V(a, 0, i) * b, n)
  }

  lemma BeforeRounds(t: seq<Limb>, a: seq<Limb>, b: nat, n: nat, limbs: nat)
    requires limbs <= |a| && 2 * limbs + 1 <= |t| && n > 0
    requires forall k :: 0 <= k < 2 * limbs + 1 ==> t[k] == 0
    ensures AfterRounds(t, a, b, n, limbs, 0)
  {
    VZero(t, 0, limbs + 1);
    CongRefl(0, n);
  }

  /** Every round keeps the invariant. */
  lemma RoundKeeps(t: seq<Limb>, t': seq<Limb>, a: seq<Limb>, b: nat, n: nat, limbs: nat, i: nat, u1: Limb)
    requires i < limbs <= |a| && 2 * limbs + 1 <= |t| && 2 * limbs + 1 <= |t'|
    requires AfterRounds(t, a, b, n, limbs, i)
    requires V(t', i + 1, i + limbs + 2) * BASE == V(t, i, i + limbs + 1) + b * a[i] + n * u1
    requires forall k :: i + limbs + 2 <= k < 2 * limbs + 1 ==> t'[k] == 0
    ensures AfterRounds(t', a, b, n, limbs, i + 1)
  {
    var x, x' := V(t, i, i + limbs + 1), V(t', i + 1, i + limbs + 2);
    RoundBound(x, x', a[i], b, n, u1);
    RoundCong(x, x', V(a, 0, i), a[i], BPow(i), b, n, u1);
  }

  /** The loop of the multiplication: T accumulates A * B / R modulo N. */
  method Accumulate(T: array<Limb>, A: array<Limb>, B: array<Limb>, B_limbs: nat, N: array<Limb>, mm: Limb)
    requires A.Length == N.Length && 0 < B_limbs <= B.Length && B_limbs <= N.Length
    requires 2 * N.Length + 1 <= T.Length && T != A && T != B && T != N
    requires Cong(N[0] * mm, -1, BASE) && Val(N[..]) > 0
    modifies T
    ensures AfterRounds(T[..], A[..], V(B[..], 0, B_limbs), Val(N[..]), N.Length, N.Length)
  {
    var n := N.Length;
    ghost var aLimbs, bs, ns := A[..], B[..], N[..];
    ghost var b, m := V(bs, 0, B_limbs), Val(ns);
    forall k | 0 <= k < 2 * n + 1 { T[k] := 0; }
    BeforeRounds(T[..], aLimbs, b, m, n);
    var i := 0;
    while i < n
      invariant 0 <= i <= n
      invariant A[..] == aLimbs && B[..] == bs && N[..] == ns
      invariant AfterRounds(T[..], aLimbs, b, m, n, i)
    {
      ghost var t := T[..];
      var u1 := MontRound(T, i, A[i], B, B_limbs, N, mm);
      assert B[..] == bs && N[..] == ns && A[..] == aLimbs;
      RoundKeeps(t, T[..], aLimbs, b, m, n, i, u1);
      i := i + 1;
    }
  }

  /** X := A * B / R mod N, where R = 2^(LIMB_BITS * n). X may be any of A, B and N. */
  method MontMul(X: array<Limb>, A: array<Limb>, B: array<Limb>, B_limbs: nat, N: array<Limb>, mm: Limb, T: array<Limb>)
    requires X.Length == A.Length == N.Length > 0 && 0 < B_limbs <= B.Length && B_limbs <= N.Length
    requires 2 * N.Length + 1 <= T.Length && T != X && T != A && T != B && T != N
    requires Cong(N[0] * mm, -1, BASE)
    requires V(B[..], 0, B_limbs) <= Val(N[..]) && Val(N[..]) > 0
    modifies X, T
    ensures Val(X[..]) < old(Val(N[..]))
    ensures Cong(Val(X[..]) * BPow(X.Length), old(Val(A[..])) * old(V(B[..], 0, B_limbs)), old(Val(N[..])))
  {
    var n := N.Length;
    ghost var product, m := Val(A[..]) * V(B[..], 0, B_limbs), Val(N[..]);
    Accumulate(T, A, B, B_limbs, N, mm);
    ghost var t := V(T[..], n, 2 * n + 1);
    ReduceOnce(X, T, N);
    assert Cong(Val(X[..]) * BPow(n), product, m) by {
      CongMultiple(t, if t >= m then -1 else 0, m);
      CongRefl(BPow(n), m);
      CongMul(Val(X[..]), t, BPow(n), BPow(n), m);
      CongTrans(Val(X[..]) * BPow(n), t * BPow(n), product, m);
    }
  }

}
