/** Windowed modular exponentiation in Montgomery form. */
module ExpMod {
  import opened Arith
  import opened Divisibility
  import opened Limbs
  import opened LimbOps
  import opened Montgomery

  // ---- Montgomery form ----

  function Pow(g: int, e: nat): int {
    if e == 0 then 1 else g * Pow(g, e - 1)
  }

  lemma {:induction false} PowAdd(g: int, x: nat, y: nat)
    ensures Pow(g, x + y) == Pow(g, x) * Pow(g, y)
  {
    if x > 0 {
      PowAdd(g, x - 1, y);
      MulAssoc(g, Pow(g, x - 1), Pow(g, y));
    }
  }

  /** x is the Montgomery form of g: the residue of g * R modulo n, where R is
      the weight of the limb above the modulus. */
  ghost predicate IsMont(x: nat, g: int, limbs: nat, n: nat) {
    x < n && Cong(x, g * BPow(limbs), n)
  }

  /** Powers of two can be cancelled modulo an odd number. */
  lemma {:induction false} CancelPow2(a: int, b: int, k: nat, n: int)
    requires n % 2 == 1 && Cong(a * Pow2(k), b * Pow2(k), n)
    ensures Cong(a, b, n)
    decreases k
  {
    if k > 0 {
      var p := Pow2(k - 1);
      Regroup(a, p);
      Regroup(b, p);
      assert Cong((2 * a) * p, (2 * b) * p, n);
      CancelPow2(2 * a, 2 * b, k - 1, n);
      CongHalve(a, b, n);
    }
  }

  lemma Regroup(a: int, p: int)
    ensures a * (2 * p) == (2 * a) * p
  {
  }

  lemma CancelR(a: int, b: int, limbs: nat, n: int)
    requires n % 2 == 1 && Cong(a * BPow(limbs), b * BPow(limbs), n)
    ensures Cong(a, b, n)
  {
    BPowIsPow2(limbs);
    MulNonneg(limbs, LIMB_BITS);
    CancelPow2(a, b, limbs * LIMB_BITS, n);
  }

  /** What the source computes for RR, two to twice the width of the modulus
      reduced modulo n, is the Montgomery form of R. */
  lemma RadixSquared(limbs: nat, n: nat)
    requires n > 0
    ensures limbs * (2 * LIMB_BITS) >= 0 && IsMont(Pow2(limbs * (2 * LIMB_BITS)) % n, BPow(limbs), limbs, n)
  {
    var w := limbs * LIMB_BITS;
    MulNonneg(limbs, LIMB_BITS);
    assert limbs * (2 * LIMB_BITS) == w + w by { Regroup(limbs, LIMB_BITS); MulDistrib(limbs, limbs, LIMB_BITS); }
    BPowIsPow2(limbs);
    Pow2Add(w, w);
    CongMod(Pow2(w) * Pow2(w), n);
  }

  /** The Montgomery product of two Montgomery forms is that of the product. */
  lemma {:induction false} MontProduct(z: nat, x: nat, y: nat, g: int, h: int, limbs: nat, n: nat)
    requires n % 2 == 1 && z < n
    requires Cong(z * BPow(limbs), x * y, n)
    requires IsMont(x, g, limbs, n) && IsMont(y, h, limbs, n)
    ensures IsMont(z, g * h, limbs, n)
  {
    var r := BPow(limbs);
    CongMul(x, g * r, y, h * r, n);
    ProductOfScaled(g, h, r);
    CongTrans(z * r, x * y, ((g * h) * r) * r, n);
    CancelR(z, (g * h) * r, limbs, n);
  }

  lemma ProductOfScaled(g: int, h: int, r: int)
    ensures (g * r) * (h * r) == ((g * h) * r) * r
  {
  }

  /** A number has one Montgomery form. */
  lemma {:induction false} MontUnique(x: nat, y: nat, g: int, limbs: nat, n: nat)
    requires IsMont(x, g, limbs, n) && IsMont(y, g, limbs, n)
    ensures x == y
  {
    CongSymm(y, g * BPow(limbs), n);
    CongTrans(x, g * BPow(limbs), y, n);
    CongUnique(x, y, n);
  }

  /** What the Montgomery routines ask of a modulus and its constant. */
  ghost predicate Modulus(N: seq<Limb>, mm: Limb) {
    |N| > 0 && Val(N) % 2 == 1 && Cong(N[0] * mm, -1, BASE)
  }

  /** X := the Montgomery form of A, where RR is R^2 modulo N. */
  method ToMontRep(X: array<Limb>, A: array<Limb>, N: array<Limb>, mm: Limb, RR: array<Limb>, T: array<Limb>)
    requires X.Length == A.Length == N.Length == RR.Length && 2 * N.Length + 1 <= T.Length
    requires T != X && T != A && T != N && T != RR && X != N
    requires Modulus(N[..], mm) && IsMont(Val(RR[..]), BPow(N.Length), N.Length, Val(N[..]))
    modifies X, T
    ensures IsMont(Val(X[..]), old(Val(A[..])), N.Length, Val(N[..]))
  {
    var n := N.Length;
    ghost var a, rr, m, ns := Val(A[..]), Val(RR[..]), Val(N[..]), N[..];
    MontMul(X, A, RR, n, N, mm, T);
    assert N[..] == ns;
    CongRefl(a, m);
    CongMul(a, a, rr, BPow(n) * BPow(n), m);
    MulAssoc(a, BPow(n), BPow(n));
    CongTrans(Val(X[..]) * BPow(n), a * rr, (a * BPow(n)) * BPow(n), m);
    CancelR(Val(X[..]), a * BPow(n), n, m);
  }

  /** X := the number whose Montgomery form is A. */
  method FromMontRep(X: array<Limb>, A: array<Limb>, N: array<Limb>, mm: Limb, T: array<Limb>, ghost g: int)
    requires X.Length == A.Length == N.Length && 2 * N.Length + 1 <= T.Length
    requires T != X && T != A && T != N && X != N
    requires Modulus(N[..], mm) && IsMont(Val(A[..]), g, N.Length, Val(N[..]))
    modifies X, T
    ensures Val(X[..]) == g % Val(N[..])
  {
    var n := N.Length;
    var one := new Limb[1];
    one[0] := 1;
    ghost var a, m, ns := Val(A[..]), Val(N[..]), N[..];
    assert V(one[..], 0, 1) == 1 by {
      assert V(one[..], 0, 0) == 0 && BPow(0) == 1;
    }
    MontMul(X, A, one, 1, N, mm, T);
    assert N[..] == ns;
    OutOfMont(Val(X[..]), a, 1, g, n, m);
  }

  /** The Montgomery product with one leaves the Montgomery form. */
  lemma OutOfMont(x: nat, a: nat, one: nat, g: int, limbs: nat, n: nat)
    requires n % 2 == 1 && one == 1 && x < n
    requires Cong(x * BPow(limbs), a * one, n) && IsMont(a, g, limbs, n)
    ensures x == g % n
  {
    assert a * one == a;
    CongTrans(x * BPow(limbs), a, g * BPow(limbs), n);
    CancelR(x, g, limbs, n);
    CongMod(g, n);
    CongSymm(g % n, g, n);
    CongTrans(x, g, g % n, n);
    CongUnique(x, g % n, n);
  }

  // ---- the bits of the exponent ----

  /** The position of bit j of limb l. */
  function Pos(l: nat, j: nat): nat {
    MulNonneg(l, LIMB_BITS);
    l * LIMB_BITS + j
  }

  lemma PosWeight(l: nat, j: nat)
    ensures Pow2(Pos(l, j)) == Pow2(j) * BPow(l)
  {
    BPowIsPow2(l);
    Pow2Add(j, Pos(l, 0));
  }

  /** The exponent with the bits below pos cut off. */
  ghost function Prefix(E: seq<Limb>, pos: nat): nat {
    DivMod(Val(E), Pow2(pos));
    Val(E) / Pow2(pos)
  }

  lemma PrefixAtLimb(E: seq<Limb>, l: nat, j: nat)
    requires l <= |E|
    ensures Prefix(E, Pos(l, j)) == V(E, l, |E|) / Pow2(j)
  {
    assert Val(E) / BPow(l) == V(E, l, |E|) by {
      VSplit(E, 0, l, |E|);
      VBound(E, 0, l);
      DivModUnique(Val(E), V(E, l, |E|), V(E, 0, l), BPow(l));
    }
    PosWeight(l, j);
    assert BPow(l) * Pow2(j) == Pow2(j) * BPow(l);
    DivDiv(Val(E), BPow(l), Pow2(j));
  }

  /** Bit j of a number is bit j of its lowest limb. */
  lemma LowLimbBit(x: nat, h: nat, j: nat)
    requires x < BASE && j < LIMB_BITS
    ensures (x + h * BASE) / Pow2(j) % 2 == x / Pow2(j) % 2
  {
    var p, k := Pow2(j), LIMB_BITS - j - 1;
    Pow2Add(k + 1, j);
    var e := h * Pow2(k + 1);
    MulAssoc(h, Pow2(k + 1), p);
    assert h * BASE == e * p;
    DivMod(x, p);
    MulDistrib(x / p, e, p);
    DivModUnique(x + h * BASE, x / p + e, x % p, p);
    EvenMultiple(x / p, h, Pow2(k));
  }

  /** Moving down one bit appends that bit to the prefix. */
  lemma NextBit(E: seq<Limb>, l: nat, j: nat)
    requires l < |E| && j < LIMB_BITS
    ensures Prefix(E, Pos(l, j)) == 2 * Prefix(E, Pos(l, j + 1)) + E[l] / Pow2(j) % 2
  {
    PrefixAtLimb(E, l, j);
    PrefixAtLimb(E, l, j + 1);
    VHead(E, l, |E|);
    LowLimbBit(E[l], V(E, l + 1, |E|), j);
    Pow2Add(j, 1);
    assert Pow2(1) == 2;
    DivDiv(V(E, l, |E|), Pow2(j), 2);
  }

  /** Above the top limb nothing is left. */
  lemma PrefixAbove(E: seq<Limb>, pos: nat)
    requires Val(E) < Pow2(pos)
    ensures Prefix(E, pos) == 0
  {
    DivModUnique(Val(E), 0, Val(E), Pow2(pos));
  }

  /** The number of leading zero bits of a limb. */
  method Clz(a: Limb) returns (j: nat)
    ensures j <= LIMB_BITS && a < Pow2(LIMB_BITS - j)
    ensures j < LIMB_BITS ==> a >= Pow2(LIMB_BITS - j - 1)
  {
    var mask := Pow2(LIMB_BITS - 1);
    j := 0;
    while j < LIMB_BITS
      invariant 0 <= j <= LIMB_BITS
      invariant a < Pow2(LIMB_BITS - j)
      invariant j < LIMB_BITS ==> mask == Pow2(LIMB_BITS - 1 - j)
    {
      DivMod(a, mask);
      HighDigit(a % mask, a / mask, mask, 2);
      if a / mask % 2 == 1 {
        MulLe(1, a / mask, mask);
        break;
      }
      mask := mask / 2;
      j := j + 1;
    }
  }

  /** The number of significant bits of A. */
  method BitLen(A: array<Limb>) returns (bits: nat)
    ensures Val(A[..]) < Pow2(bits) && bits <= Pos(A.Length, 0)
    ensures bits > 0 ==> Val(A[..]) >= Pow2(bits - 1)
  {
    var i := A.Length;
    while i > 0
      invariant 0 <= i <= A.Length
      invariant V(A[..], 0, A.Length) == V(A[..], 0, i)
    {
      if A[i - 1] != 0 {
        var z := Clz(A[i - 1]);
        bits := Pos(i - 1, LIMB_BITS - z);
        TopLimbBits(A[..], i - 1, LIMB_BITS - z);
        return;
      }
      i := i - 1;
    }
    bits := 0;
  }

  /** A number whose top limb l has b bits. */
  lemma TopLimbBits(a: seq<Limb>, l: nat, b: nat)
    requires l < |a| && 0 < b <= LIMB_BITS && Pow2(b - 1) <= a[l] < Pow2(b)
    ensures Pos(l, b) <= Pos(|a|, 0)
    ensures Pow2(Pos(l, b) - 1) <= V(a, 0, l + 1) < Pow2(Pos(l, b))
  {
    PosInside(l, |a|, b);
    VBound(a, 0, l);
    var w, lo, hi := BPow(l), Pow2(b - 1), Pow2(b);
    assert V(a, 0, l + 1) == V(a, 0, l) + a[l] * w;
    ScaledDigit(V(a, 0, l), a[l], w, lo, hi);
    assert Pow2(Pos(l, b)) == hi * w by { PosWeight(l, b); }
    assert Pow2(Pos(l, b - 1)) == lo * w by { PosWeight(l, b - 1); }
    assert Pos(l, b) - 1 == Pos(l, b - 1);
  }

  lemma PosInside(l: nat, n: nat, b: nat)
    requires l < n && b <= LIMB_BITS
    ensures Pos(l, b) <= Pos(n, 0)
  {
    MulLe(l + 1, n, LIMB_BITS);
    MulDistrib(l, 1, LIMB_BITS);
  }

  /** A digit between two bounds, with a lower part, at its weight. */
  lemma ScaledDigit(low: int, digit: int, w: int, lo: int, hi: int)
    requires 0 <= low < w && lo <= digit < hi
    ensures lo * w <= low + digit * w < hi * w
  {
    MulLe(lo, digit, w);
    MulLe(digit + 1, hi, w);
    MulDistrib(digit, 1, w);
  }

  /** Where to start reading the exponent: at its top bit when it is public, and
      at the top of its storage when it is secret. */
  method FirstBit(E: array<Limb>, ePublic: bool) returns (limb: nat, bit: nat)
    requires E.Length > 0
    ensures bit < LIMB_BITS && 0 < Pos(limb, bit) <= Pos(E.Length, 0)
    ensures Prefix(E[..], Pos(limb, bit)) == 0
  {
    if ePublic {
      var bits := BitLen(E);
      if bits == 0 {
        bits := 1;
        PosInside(0, E.Length, 1);
      }
      DivMod(bits, LIMB_BITS);
      limb, bit := bits / LIMB_BITS, bits % LIMB_BITS;
      PrefixAbove(E[..], bits);
    } else {
      limb, bit := E.Length, 0;
      MulLe(1, E.Length, LIMB_BITS);
      VBound(E[..], 0, E.Length);
      BPowIsPow2(E.Length);
      PrefixAbove(E[..], Pos(limb, 0));
    }
  }

  /** The configured window size, MBEDTLS_MPI_WINDOW_SIZE. It has no fixed value
      here. */
  const MAX_WINDOW: nat

  function WindowSize(eBits: nat): (w: nat)
    ensures 1 <= w <= 6 && (w <= MAX_WINDOW || w == 1)
    ensures w > 1 ==> eBits > 79
  {
    if MAX_WINDOW >= 6 then
      (if eBits > 671 then 6 else if eBits > 239 then 5 else if eBits > 79 then 4 else 1)
    else if MAX_WINDOW == 5 then
      (if eBits > 239 then 5 else if eBits > 79 then 4 else 1)
    else if MAX_WINDOW > 1 then
      (if eBits > 79 then MAX_WINDOW else 1)
    else 1
  }

  /** What a sliding window of w bits costs for an exponent of n bits, in products:
      half a table, and one for every w + 1 bits. */
  function Cost(w: nat, n: nat): real
    requires 3 <= w <= 6
  {
    (if w == 3 then 4.0 else if w == 4 then 8.0 else if w == 5 then 16.0 else 32.0) + n as real / (w + 1) as real
  }

  /** Where the bounds in the source come from: a window is used from where four bits
      are as cheap as three, and of the sizes from four up that are configured it
      is the cheapest, the largest of those that are equally cheap. */
  lemma WindowIsOptimal(n: nat, w: nat)
    requires MAX_WINDOW >= 2
    ensures WindowSize(n) > 1 <==> Cost(4, n) <= Cost(3, n)
    ensures WindowSize(n) > 1 && MAX_WINDOW < 4 ==> WindowSize(n) == MAX_WINDOW
    ensures WindowSize(n) > 1 && MAX_WINDOW >= 4 && 4 <= w <= 6 && w <= MAX_WINDOW ==>
              WindowSize(n) >= 4 && Cost(WindowSize(n), n) <= Cost(w, n)
              && (w > WindowSize(n) ==> Cost(WindowSize(n), n) < Cost(w, n))
  {
  }

  /** A table whose entry i is the Montgomery form of g^i. */
  ghost predicate PowerTable(W: seq<seq<Limb>>, g: int, limbs: nat, n: nat) {
    forall i :: 0 <= i < |W| ==> |W[i]| == limbs && IsMont(Val(W[i]), Pow(g, i), limbs, n)
  }

  /** The table of the first welem powers of A, in Montgomery form. */
  method PrecomputeWindow(A: array<Limb>, N: array<Limb>, mm: Limb, RR: array<Limb>, welem: nat,
                          temp: array<Limb>, ghost g: int) returns (W: seq<seq<Limb>>)
    requires A.Length == N.Length == RR.Length && 2 * N.Length + 1 <= temp.Length && welem >= 2
    requires temp != A && temp != N && temp != RR
    requires Modulus(N[..], mm) && IsMont(Val(RR[..]), BPow(N.Length), N.Length, Val(N[..]))
    requires IsMont(Val(A[..]), g, N.Length, Val(N[..]))
    modifies temp
    ensures |W| == welem && PowerTable(W, g, N.Length, Val(N[..]))
  {
    var n := N.Length;
    ghost var aLimbs, ns, m := A[..], N[..], Val(N[..]);
    var cur := new Limb[n];
    LoadSmall(cur, 1);
    ToMontRep(cur, cur, N, mm, RR, temp);
    assert A[..] == aLimbs && N[..] == ns;
    W := [cur[..]];
    Load(cur, A[..]);
    assert Pow(g, 0) == 1 && Pow(g, 1) == g * Pow(g, 0) == g;
    W := W + [cur[..]];
    var i := 2;
    while i < welem
      invariant 2 <= i <= welem && |W| == i
      invariant A[..] == aLimbs && N[..] == ns
      invariant PowerTable(W, g, n, m)
      invariant cur[..] == W[i - 1]
    {
      ghost var prev := Val(cur[..]);
      MontMul(cur, cur, A, n, N, mm, temp);
      assert A[..] == aLimbs && N[..] == ns;
      MontProduct(Val(cur[..]), prev, Val(aLimbs), Pow(g, i - 1), g, n, m);
      assert Pow(g, i) == Pow(g, i - 1) * g;
      W := W + [cur[..]];
      i := i + 1;
    }
  }

  /** dest := table[window], by index when the window is public and by passing
      over the whole table when it is secret. */
  method TableLookup(dest: array<Limb>, table: seq<seq<Limb>>, window: nat, isPublic: bool)
    requires window < |table|
    requires forall i :: 0 <= i < |table| ==> |table[i]| == dest.Length
    modifies dest
    ensures dest[..] == table[window]
  {
    if isPublic {
      Load(dest, table[window]);
    } else {
      var i := 0;
      while i < |table|
        invariant 0 <= i <= |table|
        invariant window < i ==> dest[..] == table[window]
      {
        var assign := i == window;
        forall k | 0 <= k < dest.Length { dest[k] := if assign then table[i][k] else dest[k]; }
        i := i + 1;
      }
    }
  }

  /** The state of the exponentiation at bit position pos: X is the power of g
      for the exponent read so far, less the bits still in the window. */
  ghost predicate Reading(x: nat, g: int, limbs: nat, n: nat, prefix: nat, window: nat) {
    window <= prefix && IsMont(x, Pow(g, prefix - window), limbs, n)
  }

  /** X := X * X, making room for the next exponent bit. */
  method Square(X: array<Limb>, N: array<Limb>, mm: Limb, temp: array<Limb>,
                ghost g: int, ghost prefix: nat, ghost window: nat, ghost bit: nat)
    requires X.Length == N.Length && 2 * N.Length + 1 <= temp.Length
    requires temp != X && temp != N && X != N && Modulus(N[..], mm)
    requires Reading(Val(X[..]), g, N.Length, Val(N[..]), prefix, window)
    modifies X, temp
    ensures Reading(Val(X[..]), g, N.Length, Val(N[..]), 2 * prefix + bit, 2 * window + bit)
  {
    ghost var x, ns := Val(X[..]), N[..];
    MontMul(X, X, X, N.Length, N, mm, temp);
    assert N[..] == ns;
    assert Reading(Val(X[..]), g, N.Length, Val(ns), 2 * prefix + bit, 2 * window + bit) by {
      var e := prefix - window;
      MontProduct(Val(X[..]), x, x, Pow(g, e), Pow(g, e), N.Length, Val(ns));
      PowAdd(g, e, e);
    }
  }

  /** X := X times the table entry for the window. */
  method ClearWindow(X: array<Limb>, Wselect: array<Limb>, W: seq<seq<Limb>>, window: nat, ePublic: bool,
                     N: array<Limb>, mm: Limb, temp: array<Limb>, ghost g: int, ghost prefix: nat)
    requires X.Length == N.Length == Wselect.Length && 2 * N.Length + 1 <= temp.Length
    requires temp != X && temp != N && temp != Wselect && X != N && X != Wselect && Wselect != N
    requires Modulus(N[..], mm) && PowerTable(W, g, N.Length, Val(N[..])) && window < |W|
    requires Reading(Val(X[..]), g, N.Length, Val(N[..]), prefix, window)
    modifies X, Wselect, temp
    ensures Reading(Val(X[..]), g, N.Length, Val(N[..]), prefix, 0)
  {
    ghost var xs, ns := X[..], N[..];
    TableLookup(Wselect, W, window, ePublic);
    assert X[..] == xs && N[..] == ns;
    MontMul(X, X, Wselect, N.Length, N, mm, temp);
    assert N[..] == ns;
    assert Reading(Val(X[..]), g, N.Length, Val(ns), prefix, 0) by {
      var e := prefix - window;
      MontProduct(Val(X[..]), Val(xs), Val(W[window]), Pow(g, e), Pow(g, window), N.Length, Val(ns));
      PowAdd(g, e, window);
    }
  }

  /** The next lower bit of the exponent and where it stands. */
  method NextExponentBit(E: array<Limb>, limb: nat, bit: nat) returns (l: nat, j: nat, b: nat)
    requires bit < LIMB_BITS && 0 < Pos(limb, bit) <= Pos(E.Length, 0)
    ensures j < LIMB_BITS && Pos(l, j) == Pos(limb, bit) - 1 && b <= 1
    ensures Prefix(E[..], Pos(l, j)) == 2 * Prefix(E[..], Pos(limb, bit)) + b
  {
    if bit == 0 {
      l, j := limb - 1, LIMB_BITS - 1;
    } else {
      l, j := limb, bit - 1;
    }
    assert Pos(limb, bit) == Pos(l, j) + 1 && l < E.Length by {
      MulDistrib(l, 1, LIMB_BITS);
      if l >= E.Length { MulLe(E.Length, l, LIMB_BITS); }
    }
    NextBit(E[..], l, j);
    b := E[l] / Pow2(j) % 2;
  }

  /** One bit of the exponent: square, shift the bit into the window, and empty
      the window when it is full or the exponent is used up. */
  method ReadBit(X: array<Limb>, Wselect: array<Limb>, W: seq<seq<Limb>>, wsize: nat, N: array<Limb>, mm: Limb,
                 E: array<Limb>, limb: nat, bit: nat, windowBits: nat, window: nat, ePublic: bool,
                 temp: array<Limb>, ghost g: int)
    returns (l: nat, j: nat, windowBits': nat, window': nat)
    requires X.Length == N.Length == Wselect.Length && 2 * N.Length + 1 <= temp.Length
    requires temp != X && temp != N && temp != E && temp != Wselect && X != N && X != E
    requires X != Wselect && Wselect != N && Wselect != E
    requires Modulus(N[..], mm) && |W| == Pow2(wsize) && PowerTable(W, g, N.Length, Val(N[..]))
    requires bit < LIMB_BITS && 0 < Pos(limb, bit) <= Pos(E.Length, 0)
    requires windowBits < wsize && window < Pow2(windowBits)
    requires Reading(Val(X[..]), g, N.Length, Val(N[..]), Prefix(E[..], Pos(limb, bit)), window)
    modifies X, Wselect, temp
    ensures j < LIMB_BITS && Pos(l, j) == Pos(limb, bit) - 1
    ensures windowBits' < wsize && window' < Pow2(windowBits') && (j == 0 && l == 0 ==> window' == 0)
    ensures Reading(Val(X[..]), g, N.Length, Val(N[..]), Prefix(E[..], Pos(l, j)), window')
  {
    ghost var ns, es, prefix := N[..], E[..], Prefix(E[..], Pos(limb, bit));
    var b: nat;
    l, j, b := NextExponentBit(E, limb, bit);
    Square(X, N, mm, temp, g, prefix, window, b);
    assert N[..] == ns && E[..] == es;
    windowBits' := windowBits + 1;
    window' := 2 * window + b;
    if windowBits' == wsize || (j == 0 && l == 0) {
      Pow2Monotone(windowBits', wsize);
      ClearWindow(X, Wselect, W, window', ePublic, N, mm, temp, g, Prefix(es, Pos(l, j)));
      assert N[..] == ns && E[..] == es;
      window' := 0;
      windowBits' := 0;
    }
  }

  lemma PosPositive(limb: nat, bit: nat)
    requires limb > 0 || bit > 0
    ensures Pos(limb, bit) > 0
  {
    if limb > 0 { MulLe(1, limb, LIMB_BITS); }
  }

  /** The loop of the exponentiation. The start position is never zero, so the
      source's loop, which tests at its end, is this one. */
  method ReadExponent(X: array<Limb>, W: seq<seq<Limb>>, wsize: nat, N: array<Limb>, mm: Limb, E: array<Limb>,
                      limb0: nat, bit0: nat, ePublic: bool, temp: array<Limb>, ghost g: int)
    requires X.Length == N.Length > 0 && 2 * N.Length + 1 <= temp.Length
    requires temp != X && temp != N && temp != E && X != N && X != E
    requires Modulus(N[..], mm) && wsize >= 1 && |W| == Pow2(wsize) && PowerTable(W, g, N.Length, Val(N[..]))
    requires bit0 < LIMB_BITS && Pos(limb0, bit0) <= Pos(E.Length, 0)
    requires Reading(Val(X[..]), g, N.Length, Val(N[..]), Prefix(E[..], Pos(limb0, bit0)), 0)
    modifies X, temp
    ensures Reading(Val(X[..]), g, N.Length, Val(N[..]), Prefix(E[..], 0), 0)
  {
    var limb: nat, bit: nat := limb0, bit0;
    var Wselect := new Limb[N.Length];
    ghost var ns, es, m := N[..], E[..], Val(N[..]);
    var windowBits: nat, window: nat := 0, 0;
    while !(bit == 0 && limb == 0)
      invariant bit < LIMB_BITS && Pos(limb, bit) <= Pos(|es|, 0)
      invariant N[..] == ns && E[..] == es
      invariant windowBits < wsize && window < Pow2(windowBits)
      invariant bit == 0 && limb == 0 ==> window == 0
      invariant Reading(Val(X[..]), g, N.Length, m, Prefix(es, Pos(limb, bit)), window)
      decreases Pos(limb, bit)
    {
      PosPositive(limb, bit);
      limb, bit, windowBits, window :=
        ReadBit(X, Wselect, W, wsize, N, mm, E, limb, bit, windowBits, window, ePublic, temp, g);
      assert N[..] == ns && E[..] == es;
    }
    assert Pos(0, 0) == 0;
  }

  /** X := A^E mod N for A in Montgomery form: if A stands for g, X stands for
      g^E, whether the exponent is treated as public or as secret. */
  method ExpModMont(X: array<Limb>, A: array<Limb>, N: array<Limb>, E: array<Limb>, ePublic: bool,
                    RR: array<Limb>, temp: array<Limb>, ghost g: int)
    requires X.Length == A.Length == N.Length == RR.Length > 0 && E.Length > 0
    requires 2 * N.Length + 1 <= temp.Length
    requires temp != X && temp != A && temp != N && temp != RR && temp != E
    requires X != N && X != RR && X != E
    requires Val(N[..]) % 2 == 1 && IsMont(Val(RR[..]), BPow(N.Length), N.Length, Val(N[..]))
    requires IsMont(Val(A[..]), g, N.Length, Val(N[..]))
    modifies X, temp
    ensures IsMont(Val(X[..]), Pow(g, Val(E[..])), N.Length, Val(N[..]))
  {
    ghost var ns, es := N[..], E[..];
    var limb: nat, bit: nat := FirstBit(E, ePublic);
    var wsize := WindowSize(Pos(limb, 0));
    Parity(N[..]);
    var mm := MontMulInit(N);
    var W := PrecomputeWindow(A, N, mm, RR, Pow2(wsize), temp, g);
    assert N[..] == ns && E[..] == es;
    Load(X, W[0]);
    assert N[..] == ns && E[..] == es;
    ReadExponent(X, W, wsize, N, mm, E, limb, bit, ePublic, temp, g);
    assert N[..] == ns && E[..] == es;
    assert Pow2(0) == 1;
  }

  /** X := A^E mod N on ordinary residues: into Montgomery form, raise, and back,
      as the layer above does for a base already reduced. */
  method ExpModResidue(X: array<Limb>, A: array<Limb>, N: array<Limb>, E: array<Limb>, ePublic: bool,
                       RR: array<Limb>, temp: array<Limb>)
    requires X.Length == A.Length == N.Length == RR.Length > 0 && E.Length > 0
    requires 2 * N.Length + 1 <= temp.Length
    requires temp != X && temp != A && temp != N && temp != RR && temp != E
    requires X != N && X != RR && X != E
    requires Val(N[..]) % 2 == 1
    requires IsMont(Val(RR[..]), BPow(N.Length), N.Length, Val(N[..]))
    modifies X, temp
    ensures Val(X[..]) == Pow(old(Val(A[..])), Val(E[..])) % Val(N[..])
  {
    ghost var a, e, ns, es, rs := Val(A[..]), Val(E[..]), N[..], E[..], RR[..];
    Parity(N[..]);
    var mm := MontMulInit(N);
    ToMontRep(X, A, N, mm, RR, temp);
    assert N[..] == ns && E[..] == es && RR[..] == rs;
    ExpModMont(X, X, N, E, ePublic, RR, temp, a);
    assert N[..] == ns && E[..] == es;
    FromMontRep(X, X, N, mm, temp, Pow(a, e));
    assert N[..] == ns && E[..] == es;
  }
}
