/** The constant-time gcd and modular inverse on limb arrays. */
module GcdModInv {
  import opened Arith
  import opened Limbs
  import opened LimbOps
  import opened Divisibility
  import Steps = GcdSteps

  /** X := A - B mod N. */
  method SubModN(X: array<Limb>, A: array<Limb>, B: array<Limb>, N: array<Limb>)
    requires X.Length == A.Length == B.Length == N.Length && X != N
    requires Val(A[..]) < Val(N[..]) && Val(B[..]) < Val(N[..])
    modifies X
    ensures Val(X[..]) == Steps.SubMod(old(Val(A[..])), old(Val(B[..])), Val(N[..]))
  {
    ghost var a, b, n := Val(A[..]), Val(B[..]), Val(N[..]);
    VBound(N[..], 0, N.Length);
    var c := SubLimbs(X, A, 0, B, N.Length);
    VBound(X[..], 0, N.Length);
    var c2 := AddIf(X, N, N.Length, c != 0);
    VBound(X[..], 0, N.Length);
  }

  lemma BPowEven(n: nat)
    requires n > 0
    ensures BPow(n) == 2 * (Pow2(LIMB_BITS - 1) * BPow(n - 1))
  {
    MulAssoc(2, Pow2(LIMB_BITS - 1), BPow(n - 1));
  }

  lemma CarryEven(c: Limb, n: nat)
    requires n > 0
    ensures Carry(c, n) % 2 == 0
  {
    BPowEven(n);
  }

  /** The top limb of a number below half the range has its top bit clear. */
  lemma TopLimbBound(x: seq<Limb>)
    requires |x| > 0 && 2 * Val(x) < BPow(|x|)
    ensures x[|x| - 1] < Pow2(LIMB_BITS - 1)
  {
    var n := |x|;
    BPowEven(n);
    HighDigit(V(x, 0, n - 1), x[n - 1], BPow(n - 1), Pow2(LIMB_BITS - 1));
  }

  /** A carry moved to the top bit of a limb. */
  function TopBit(c: Limb): Limb { if c == 0 then 0 else Pow2(LIMB_BITS - 1) }

  /** Putting the carry into the top bit adds half the range. */
  lemma TopBitValue(y: seq<Limb>, y': seq<Limb>, c: Limb)
    requires |y| == |y'| > 0
    requires y'[|y| - 1] == (y[|y| - 1] as int) + TopBit(c)
    requires forall k :: 0 <= k < |y| - 1 ==> y'[k] == y[k]
    ensures 2 * Val(y') == 2 * Val(y) + Carry(c, |y|)
  {
    var n := |y|;
    BPowEven(n);
    VFrame(y, y', 0, n - 1);
    MulDistrib(y[n - 1], TopBit(c), BPow(n - 1));
  }

  /** X := X / 2 mod N for odd N. The top bit that the carry is put into is
      clear, so the source's "or" is a sum. */
  method Div2ModOdd(X: array<Limb>, N: array<Limb>)
    requires X.Length == N.Length > 0 && X != N
    requires Val(X[..]) < Val(N[..]) && Steps.Odd(Val(N[..]))
    modifies X
    ensures Val(X[..]) == Steps.HalfMod(old(Val(X[..])), Val(N[..]))
  {
    var limbs := N.Length;
    Parity(X[..]);
    var odd := X[0] % 2 == 1;
    var c := AddIf(X, N, limbs, odd);
    ghost var sum := Val(X[..]);
    CarryEven(c, limbs);
    VBound(X[..], 0, limbs);
    HalveInPlace(X);
    ghost var y := X[..];
    TopLimbBound(y);
    X[limbs - 1] := X[limbs - 1] + TopBit(c);
    TopBitValue(y, X[..], c);
  }

  /** The shift by one place. */
  method HalveInPlace(X: array<Limb>)
    modifies X
    ensures Val(X[..]) == old(Val(X[..])) / 2
  {
    assert Pow2(1) == 2;
    ShiftR(X, X.Length, 1);
  }

  /** The swap of whole numbers. */
  method SwapIf(X: array<Limb>, Y: array<Limb>, swap: bool)
    requires X.Length == Y.Length && X != Y
    modifies X, Y
    ensures X[..] == if swap then old(Y[..]) else old(X[..])
    ensures Y[..] == if swap then old(X[..]) else old(Y[..])
  {
    CondSwap(X, Y, X.Length, swap);
  }

  /** t1 becomes the value a step keeps. */
  method SelectKept(t1: array<Limb>, first: array<Limb>, diff: array<Limb>, bothOdd: bool)
    requires t1.Length == first.Length == diff.Length && t1 != first && t1 != diff
    modifies t1
    ensures t1[..] == if bothOdd then first[..] else diff[..]
  {
    Load(t1, diff[..]);
    CondAssign(t1, first, t1.Length, bothOdd);
  }

  /** t2 becomes the value a step halves. */
  method SelectHalved(t2: array<Limb>, first: array<Limb>, second: array<Limb>, diff: array<Limb>,
                      bothOdd: bool, firstOddSecondEven: bool)
    requires t2.Length == first.Length == second.Length == diff.Length
    requires t2 != first && t2 != second && t2 != diff
    modifies t2
    ensures t2[..] == if bothOdd then diff[..] else if firstOddSecondEven then second[..] else first[..]
  {
    Load(t2, first[..]);
    CondAssign(t2, second, t2.Length, firstOddSecondEven);
    CondAssign(t2, diff, t2.Length, bothOdd);
  }

  /** The half of an iteration that updates u and v. The two conditions and the
      swap it returns also drive the other half. */
  method StepPair(u: array<Limb>, v: array<Limb>, d: array<Limb>, t1: array<Limb>, t2: array<Limb>)
    returns (bothOdd: bool, uOddVEven: bool, swap: bool)
    requires u.Length == v.Length == d.Length == t1.Length == t2.Length > 0
    requires u != v && u != d && u != t1 && u != t2 && v != d && v != t1 && v != t2
    requires d != t1 && d != t2 && t1 != t2
    requires Val(u[..]) <= Val(v[..])
    modifies u, v, d, t1, t2
    ensures (Val(u[..]), Val(v[..])) == Steps.Next(old(Val(u[..])), old(Val(v[..])))
    ensures bothOdd <==> Steps.Odd(old(Val(u[..]))) && Steps.Odd(old(Val(v[..])))
    ensures uOddVEven <==> Steps.Odd(old(Val(u[..]))) && !Steps.Odd(old(Val(v[..])))
    ensures swap <==> Steps.Swaps(old(Val(u[..])), old(Val(v[..])))
  {
    var limbs := u.Length;
    Parity(u[..]);
    Parity(v[..]);
    var uOdd, vOdd := u[0] % 2 == 1, v[0] % 2 == 1;
    bothOdd := uOdd && vOdd;
    uOddVEven := uOdd && !vOdd;
    var _ := SubLimbs(d, v, 0, u, limbs);
    VBound(d[..], 0, limbs);
    SelectKept(t1, u, d, bothOdd);
    SelectHalved(t2, u, v, d, bothOdd, uOddVEven);
    HalveInPlace(t2);
    assert Val(t1[..]) == Steps.KeptOf(old(Val(u[..])), old(Val(v[..])));
    assert Val(t2[..]) == Steps.HalvedOf(old(Val(u[..])), old(Val(v[..])));
    Load(u, t1[..]);
    Load(v, t2[..]);
    swap := LtCt(v, u, limbs);
    SwapIf(u, v, swap);
  }

  /** The half of an iteration that updates the cofactors q and r. */
  method StepCofactors(q: array<Limb>, r: array<Limb>, N: array<Limb>, d: array<Limb>,
                       t1: array<Limb>, t2: array<Limb>, bothOdd: bool, uOddVEven: bool, swap: bool)
    requires q.Length == r.Length == N.Length == d.Length == t1.Length == t2.Length > 0
    requires q != r && q != N && q != d && q != t1 && q != t2 && r != N && r != d && r != t1 && r != t2
    requires N != d && N != t1 && N != t2 && d != t1 && d != t2 && t1 != t2
    requires Val(q[..]) < Val(N[..]) && Val(r[..]) < Val(N[..]) && Steps.Odd(Val(N[..]))
    modifies q, r, d, t1, t2
    ensures var n, x, y := Val(N[..]), old(Val(q[..])), old(Val(r[..]));
            var diff := Steps.SubMod(x, y, n);
            var kept := if bothOdd then y else diff;
            var halved := Steps.HalfMod(if bothOdd then diff else if uOddVEven then x else y, n);
            Val(q[..]) == (if swap then kept else halved) && Val(r[..]) == (if swap then halved else kept)
  {
    var limbs := N.Length;
    Steps.SubModIsSub(Val(q[..]), Val(r[..]), Val(N[..]));
    SubModN(d, q, r, N);
    SelectKept(t1, r, d, bothOdd);
    SelectHalved(t2, r, q, d, bothOdd, uOddVEven);
    Div2ModOdd(t2, N);
    Load(r, t1[..]);
    Load(q, t2[..]);
    SwapIf(r, q, swap);
  }

  /** One iteration of the loop takes the numbers in the arrays a step further.
      Without q only u and v are kept up to date. */
  method Iteration(u: array<Limb>, v: array<Limb>, q: array?<Limb>, r: array<Limb>, N: array<Limb>,
                   d: array<Limb>, t1: array<Limb>, t2: array<Limb>, ghost s: Steps.State, ghost n: nat)
    requires u.Length == v.Length == r.Length == N.Length == d.Length == t1.Length == t2.Length > 0
    requires u != v && u != d && u != t1 && u != t2 && v != d && v != t1 && v != t2
    requires d != t1 && d != t2 && t1 != t2
    requires s.u <= s.v && s.q < n && s.r < n && s.u == Val(u[..]) && s.v == Val(v[..])
    requires q != null ==> q.Length == N.Length && q != r && q != N && q != d && q != t1 && q != t2 && q != u && q != v
    requires q != null ==> r != u && r != v && r != N && r != d && r != t1 && r != t2
    requires q != null ==> N != u && N != v && N != d && N != t1 && N != t2
    requires q != null ==> s.q == Val(q[..]) && s.r == Val(r[..]) && n == Val(N[..]) && Steps.Odd(n)
    modifies u, v, q, r, d, t1, t2
    ensures var t := Steps.Step(s, n); t.u == Val(u[..]) && t.v == Val(v[..])
    ensures q != null ==> var t := Steps.Step(s, n); t.q == Val(q[..]) && t.r == Val(r[..])
  {
    var bothOdd, uOddVEven, swap := StepPair(u, v, d, t1, t2);
    if q != null {
      StepCofactors(q, r, N, d, t1, t2, bothOdd, uOddVEven, swap);
    }
  }

  /** The loop: as many iterations as are left at most. */
  method Iterations(u: array<Limb>, v: array<Limb>, q: array?<Limb>, r: array<Limb>, N: array<Limb>, d: array<Limb>,
                    t1: array<Limb>, t2: array<Limb>, total: nat, ghost first: Steps.State, ghost a: nat, ghost n: nat)
    returns (ghost s: Steps.State)
    requires u.Length == v.Length == r.Length == N.Length == d.Length == t1.Length == t2.Length > 0
    requires u != v && u != d && u != t1 && u != t2 && v != d && v != t1 && v != t2
    requires d != t1 && d != t2 && t1 != t2
    requires Steps.Inv(first, a, n) && Steps.Odd(n) && Steps.StepsLeft(first.u, first.v) <= total
    requires first.u == Val(u[..]) && first.v == Val(v[..])
    requires q != null ==> q.Length == N.Length && q != r && q != N && q != d && q != t1 && q != t2 && q != u && q != v
    requires q != null ==> r != u && r != v && r != N && r != d && r != t1 && r != t2
    requires q != null ==> N != u && N != v && N != d && N != t1 && N != t2
    requires q != null ==> first.q == Val(q[..]) && first.r == Val(r[..]) && n == Val(N[..])
    modifies u, v, q, r, d, t1, t2
    ensures Steps.Inv(s, a, n) && Steps.StepsLeft(s.u, s.v) == 0 && s.v == Val(v[..])
    ensures q != null ==> s.q == Val(q[..])
  {
    s := first;
    var i := 0;
    while i < total
      invariant 0 <= i <= total
      invariant Steps.Inv(s, a, n) && Steps.StepsLeft(s.u, s.v) <= total - i
      invariant s.u == Val(u[..]) && s.v == Val(v[..])
      invariant q != null ==> s.q == Val(q[..]) && s.r == Val(r[..]) && Val(N[..]) == n
    {
      Steps.Progress(s, a, n, total - i - 1);
      Iteration(u, v, q, r, N, d, t1, t2, s, n);
      s := Steps.Step(s, n);
      i := i + 1;
    }
  }

  /** Computes the gcd of A and N and, when I is given, the inverse of A modulo
      N. The blocks of the workspace T are separate arrays here. G serves as v
      and I as q, as in the source. */
  method GcdModInvOdd(G: array<Limb>, I: array?<Limb>, A: array<Limb>, A_limbs: nat, N: array<Limb>)
    requires G.Length == N.Length > 0 && (I != null ==> I.Length == N.Length)
    requires A_limbs <= A.Length && A_limbs <= N.Length && A != N
    requires I != null ==> G != N && I != N && I != G && Val(N[..]) > 1
    requires Steps.Odd(Val(N[..])) && V(A[..], 0, A_limbs) <= Val(N[..])
    modifies G, I
    ensures IsGcd(Val(G[..]), old(V(A[..], 0, A_limbs)), old(Val(N[..])))
    ensures I != null && Val(G[..]) == 1
        ==> (old(V(A[..], 0, A_limbs)) * Val(I[..])) % Val(N[..]) == 1
  {
    var limbs := N.Length;
    ghost var a, n := V(A[..], 0, A_limbs), Val(N[..]);
    IterationBound(A[..], A_limbs, N[..]);
    var total := (A_limbs + limbs) * LIMB_BITS;
    var u, v := new Limb[limbs], G;
    var d, t1, t2 := new Limb[limbs], new Limb[limbs], new Limb[limbs];
    var q, r := I, new Limb[limbs];
    LoadPadded(u, A, A_limbs);
    if v != N {
      Load(v, N[..]);
    }
    if I != null {
      LoadSmall(q, 0);
      LoadSmall(r, 1);
    }
    Steps.InitInv(a, n);
    ghost var s := Iterations(u, v, q, r, N, d, t1, t2, total, Steps.Start(a, n), a, n);
    Steps.Finished(s, a, n);
  }

  /** u := A, padded with zero limbs. */
  method LoadPadded(u: array<Limb>, A: array<Limb>, k: nat)
    requires k <= A.Length && k <= u.Length && u != A
    modifies u
    ensures Val(u[..]) == V(A[..], 0, k)
  {
    forall i | 0 <= i < u.Length { u[i] := if i < k then A[i] else 0; }
    VSplit(u[..], 0, k, u.Length);
    VZero(u[..], k, u.Length);
    VFrame(A[..], u[..], 0, k);
  }

  lemma {:induction false} BitsBelowPow2(x: nat, k: nat)
    requires x < Pow2(k)
    ensures Steps.Bits(x) <= k
  {
    if k > 0 && x > 0 { BitsBelowPow2(x / 2, k - 1); }
  }

  /** The number of iterations the source runs is enough. */
  lemma {:induction false} IterationBound(A: seq<Limb>, k: nat, N: seq<Limb>)
    requires k <= |A| && V(A, 0, k) <= Val(N) && Steps.Odd(Val(N))
    ensures Steps.StepsLeft(V(A, 0, k), Val(N)) <= (k + |N|) * LIMB_BITS
  {
    VBound(A, 0, k);
    VBound(N, 0, |N|);
    BPowIsPow2(k);
    BPowIsPow2(|N|);
    MulNonneg(k, LIMB_BITS);
    MulNonneg(|N|, LIMB_BITS);
    BitsBelowPow2(V(A, 0, k), k * LIMB_BITS);
    BitsBelowPow2(Val(N), |N| * LIMB_BITS);
    MulDistrib(k, |N|, LIMB_BITS);
    Steps.StepsLeftBound(V(A, 0, k), Val(N), k * LIMB_BITS, |N| * LIMB_BITS);
  }
}
