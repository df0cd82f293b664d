/** The in-place operations on limb arrays that everything else is built from.
    A pointer into an array is the array and an index. */
module LimbOps {
  import opened Arith
  import opened Limbs
  import MulAdd

  /** Whether the compiler has a double-width integer. It has no fixed value
      here: both forms of the multiplier are covered. */
  const HAVE_DOUBLE: bool

  /** A carry or borrow out of limb n. */
  ghost function Carry(c: Limb, n: nat): nat { if c == 0 then 0 else BPow(n) }

  lemma SubStep(x: seq<Limb>, x': seq<Limb>, a: seq<Limb>, at: nat, b: seq<Limb>, i: nat, c: Limb, c': Limb)
    requires |x| == |x'| && i < |x| && at + i < |a| && i < |b| && 0 <= c <= 1 && 0 <= c' <= 1
    requires forall k :: 0 <= k < i ==> x[k] == x'[k]
    requires x'[i] + b[i] + c == a[at + i] + c' * BASE
    requires V(x, 0, i) == V(a, at, at + i) - V(b, 0, i) + Carry(c, i)
    ensures V(x', 0, i + 1) == V(a, at, at + i + 1) - V(b, 0, i + 1) + Carry(c', i + 1)
  {
    VFrame(x, x', 0, i);
    var p := BPow(i);
    ScaleCarry(a[at + i], c', BASE, x'[i] + b[i] + c, p);
    MulDistrib((x'[i] as int) + b[i], c, p);
    MulDistrib(x'[i], b[i], p);
    assert c * p == Carry(c, i);
    assert c' * (BASE * p) == Carry(c', i + 1);
  }

  /** X := A - B, returning the borrow. X may be A or B itself. */
  method SubLimbs(X: array<Limb>, A: array<Limb>, at: nat, B: array<Limb>, limbs: nat)
    returns (c: Limb)
    requires limbs <= X.Length && at + limbs <= A.Length && limbs <= B.Length
    requires A == X ==> at == 0
    modifies X
    ensures c == 0 || c == 1
    ensures V(X[..], 0, limbs) == old(V(A[..], at, at + limbs)) - old(V(B[..], 0, limbs)) + Carry(c, limbs)
    ensures forall k :: limbs <= k < X.Length ==> X[k] == old(X[k])
  {
    ghost var a, b := A[..], B[..];
    c := 0;
    var i := 0;
    while i < limbs
      invariant 0 <= i <= limbs
      invariant c == 0 || c == 1
      invariant V(X[..], 0, i) == V(a, at, at + i) - V(b, 0, i) + Carry(c, i)
      invariant forall k :: i <= k < X.Length ==> X[k] == old(X[k])
    {
      ghost var x, borrow := X[..], c;
      assert A[at + i] == a[at + i] && B[i] == b[i];
      var z := Bit(A[at + i] < c);
      var t := Sub(A[at + i], c);
      c := Bit(t < B[i]) + z;
      X[i] := Sub(t, B[i]);
      SubStep(x, X[..], a, at, b, i, borrow, c);
      i := i + 1;
    }
  }

  lemma AddStep(x: seq<Limb>, x': seq<Limb>, x0: seq<Limb>, a: seq<Limb>, i: nat, c: Limb, c': Limb, cond: bool)
    requires |x| == |x'| == |x0| && i < |x| && i < |a| && 0 <= c <= 1 && 0 <= c' <= 1
    requires forall k :: 0 <= k < i ==> x[k] == x'[k]
    requires x'[i] + c' * BASE == c + x0[i] + (if cond then a[i] else 0)
    requires V(x, 0, i) + Carry(c, i) == V(x0, 0, i) + (if cond then V(a, 0, i) else 0)
    ensures V(x', 0, i + 1) + Carry(c', i + 1) == V(x0, 0, i + 1) + (if cond then V(a, 0, i + 1) else 0)
  {
    VFrame(x, x', 0, i);
    var p, add := BPow(i), if cond then a[i] else 0;
    ScaleCarry(x'[i], c', BASE, c + x0[i] + add, p);
    MulDistrib(c + x0[i], add, p);
    MulDistrib(c, x0[i], p);
    assert c * p == Carry(c, i);
    assert c' * (BASE * p) == Carry(c', i + 1);
  }

  /** X := X + A when cond holds, returning the carry. X may be A. */
  method AddIf(X: array<Limb>, A: array<Limb>, limbs: nat, cond: bool) returns (c: Limb)
    requires limbs <= X.Length && limbs <= A.Length
    modifies X
    ensures c == 0 || c == 1
    ensures V(X[..], 0, limbs) + Carry(c, limbs)
         == old(V(X[..], 0, limbs)) + (if cond then old(V(A[..], 0, limbs)) else 0)
    ensures forall k :: limbs <= k < X.Length ==> X[k] == old(X[k])
  {
    ghost var x0, a0 := X[..], A[..];
    c := 0;
    var i := 0;
    while i < limbs
      invariant 0 <= i <= limbs
      invariant c == 0 || c == 1
      invariant V(X[..], 0, i) + Carry(c, i) == V(x0, 0, i) + (if cond then V(a0, 0, i) else 0)
      invariant forall k :: i <= k < X.Length ==> X[k] == x0[k]
      invariant forall k :: i <= k < A.Length ==> A[k] == a0[k]
    {
      ghost var x, carry := X[..], c;
      var add: Limb := if cond then A[i] else 0;
      var t := Add(c, X[i]);
      c := Bit(t < X[i]);
      t := Add(t, add);
      c := c + Bit(t < add);
      X[i] := t;
      AddStep(x, X[..], x0, a0, i, carry, c, cond);
      i := i + 1;
    }
  }

  /** What has been added to d after i limbs. */
  ghost predicate Accumulated(d: seq<Limb>, d0: seq<Limb>, at: nat, i: nat, c: nat, added: int)
    requires at + i <= |d| && at + i <= |d0|
  {
    V(d, at, at + i) + c * BPow(i) == V(d0, at, at + i) + added
  }

  /** Storing one limb of a sum and carrying the rest. */
  lemma AccumulateStep(d: seq<Limb>, d': seq<Limb>, d0: seq<Limb>, at: nat, i: nat, c: nat, c': nat, e: nat, added: int)
    requires |d| == |d'| == |d0| && at + i < |d|
    requires forall k :: at <= k < at + i ==> d[k] == d'[k]
    requires Accumulated(d, d0, at, i, c, added)
    requires d'[at + i] + c' * BASE == d0[at + i] + e + c
    ensures Accumulated(d', d0, at, i + 1, c', added + e * BPow(i))
  {
    VFrame(d, d', at, at + i);
    AccumulateValues(V(d, at, at + i), V(d0, at, at + i), c, added, d'[at + i], d0[at + i], c', e, BASE, BPow(i));
  }

  lemma AccumulateValues(v: int, v0: int, c: int, added: int, x: int, x0: int, c': int, e: int, base: int, p: int)
    requires v + c * p == v0 + added && x + c' * base == x0 + e + c
    ensures (v + x * p) + c' * (base * p) == (v0 + x0 * p) + (added + e * p)
  {
    ScaleCarry(x, c', base, x0 + e + c, p);
    MulDistrib(x0 + e, c, p);
    MulDistrib(x0, e, p);
  }

  /** The product with one more limb of s. */
  lemma ProductStep(s: seq<Limb>, i: nat, b: Limb)
    requires i < |s|
    ensures V(s, 0, i + 1) * b == V(s, 0, i) * b + (s[i] * b) * BPow(i)
  {
    MulDistrib(V(s, 0, i), s[i] * BPow(i), b);
    assert (s[i] * BPow(i)) * b == (s[i] * b) * BPow(i);
  }

  /** The multiply-accumulate step the compiler supports. */
  method MulAddStep(s: Limb, b: Limb, c: Limb, d: Limb) returns (c': Limb, d': Limb)
    ensures d' + c' * BASE == d + s * b + c
  {
    if HAVE_DOUBLE {
      c', d' := MulAdd.MulAddDouble(s, b, c, d);
    } else {
      c', d' := MulAdd.MulAddHalves(s, b, c, d);
    }
  }

  /** d := d + s * b over dLen limbs, returning the carry. A source longer than
      the destination is cut to its length. */
  method Mla(d: array<Limb>, at: nat, dLen: nat, s: array<Limb>, sLen: nat, b: Limb) returns (c: Limb)
    requires at + dLen <= d.Length && sLen <= s.Length && d != s
    modifies d
    ensures var n := if dLen < sLen then dLen else sLen;
            Accumulated(d[..], old(d[..]), at, dLen, c, V(s[..], 0, n) * b)
    ensures forall k :: 0 <= k < d.Length && !(at <= k < at + dLen) ==> d[k] == old(d[k])
  {
    ghost var d0 := d[..];
    var n := if dLen < sLen then dLen else sLen;
    c := 0;
    var i := 0;
    while i < n
      invariant 0 <= i <= n
      invariant Accumulated(d[..], d0, at, i, c, V(s[..], 0, i) * b)
      invariant forall k :: 0 <= k < d.Length && !(at <= k < at + i) ==> d[k] == d0[k]
    {
      ghost var x, carry := d[..], c;
      var low: Limb;
      c, low := MulAddStep(s[i], b, c, d[at + i]);
      d[at + i] := low;
      MulNonneg(s[i], b);
      AccumulateStep(x, d[..], d0, at, i, carry, c, s[i] * b, V(s[..], 0, i) * b);
      ProductStep(s[..], i, b);
      i := i + 1;
    }
    c := PropagateCarry(d, d0, at, n, dLen, c, V(s[..], 0, n) * b);
  }

  /** The last loop of Mla: the carry runs through the limbs from..dLen. */
  method PropagateCarry(d: array<Limb>, ghost d0: seq<Limb>, at: nat, from: nat, dLen: nat, c0: Limb, ghost added: int)
    returns (c: Limb)
    requires from <= dLen && at + dLen <= d.Length == |d0|
    requires Accumulated(d[..], d0, at, from, c0, added)
    requires forall k :: 0 <= k < d.Length && !(at <= k < at + from) ==> d[k] == d0[k]
    modifies d
    ensures Accumulated(d[..], d0, at, dLen, c, added)
    ensures forall k :: 0 <= k < d.Length && !(at <= k < at + dLen) ==> d[k] == d0[k]
  {
    c := c0;
    var i := from;
    while i < dLen
      invariant from <= i <= dLen
      invariant Accumulated(d[..], d0, at, i, c, added)
      invariant forall k :: 0 <= k < d.Length && !(at <= k < at + i) ==> d[k] == d0[k]
    {
      ghost var x, carry := d[..], c;
      d[at + i] := Add(d[at + i], c);
      c := Bit(d[at + i] < c);
      AccumulateStep(x, d[..], d0, at, i, carry, c, 0, added);
      i := i + 1;
    }
  }

  /** Whether A < B, looking at every limb whatever the outcome. */
  method LtCt(A: array<Limb>, B: array<Limb>, limbs: nat) returns (ret: bool)
    requires limbs <= A.Length && limbs <= B.Length
    ensures ret <==> V(A[..], 0, limbs) < V(B[..], 0, limbs)
  {
    ret := false;
    var cond, done := false, false;
    var i := limbs;
    while i > 0
      invariant 0 <= i <= limbs
      invariant ret <==> V(A[..], i, limbs) < V(B[..], i, limbs)
      invariant done <==> V(A[..], i, limbs) != V(B[..], i, limbs)
    {
      var x, y := A[i - 1], B[i - 1];
      VHead(A[..], i - 1, limbs);
      VHead(B[..], i - 1, limbs);
      ghost var hx, hy := V(A[..], i, limbs), V(B[..], i, limbs);
      if hx < hy { HighDecides(x, y, hx, hy, BASE); }
      if hy < hx { HighDecides(y, x, hy, hx, BASE); }
      cond := y < x;
      done := done || cond;
      cond := x < y;
      ret := ret || (cond && !done);
      done := done || cond;
      i := i - 1;
    }
  }

  /** X := A when assign holds. */
  method CondAssign(X: array<Limb>, A: array<Limb>, limbs: nat, assign: bool)
    requires limbs <= X.Length && limbs <= A.Length
    modifies X
    ensures forall k :: 0 <= k < limbs ==> X[k] == if assign then old(A[k]) else old(X[k])
    ensures forall k :: limbs <= k < X.Length ==> X[k] == old(X[k])
  {
    if X == A { return; }
    var i := 0;
    while i < limbs
      invariant 0 <= i <= limbs
      invariant forall k :: 0 <= k < i ==> X[k] == if assign then A[k] else old(X[k])
      invariant forall k :: i <= k < X.Length ==> X[k] == old(X[k])
    {
      X[i] := if assign then A[i] else X[i];
      i := i + 1;
    }
  }

  /** Exchanges X and Y when swap holds. */
  method CondSwap(X: array<Limb>, Y: array<Limb>, limbs: nat, swap: bool)
    requires limbs <= X.Length && limbs <= Y.Length
    modifies X, Y
    ensures forall k :: 0 <= k < limbs ==> X[k] == (if swap then old(Y[k]) else old(X[k]))
    ensures forall k :: 0 <= k < limbs ==> Y[k] == (if swap then old(X[k]) else old(Y[k]))
    ensures forall k :: limbs <= k < X.Length ==> X[k] == old(X[k])
    ensures forall k :: limbs <= k < Y.Length ==> Y[k] == old(Y[k])
  {
    if X == Y { return; }
    var i := 0;
    while i < limbs
      invariant 0 <= i <= limbs
      invariant forall k :: 0 <= k < i ==> X[k] == (if swap then old(Y[k]) else old(X[k]))
      invariant forall k :: 0 <= k < i ==> Y[k] == (if swap then old(X[k]) else old(Y[k]))
      invariant forall k :: i <= k < X.Length ==> X[k] == old(X[k])
      invariant forall k :: i <= k < Y.Length ==> Y[k] == old(Y[k])
    {
      var tmp := X[i];
      X[i] := if swap then Y[i] else X[i];
      Y[i] := if swap then tmp else Y[i];
      i := i + 1;
    }
  }

  /** X := X / 2^count, in place. The two halves of a shifted limb share no
      bits, so the source's "or" of them is their sum. */
  method ShiftR(X: array<Limb>, limbs: nat, count: nat)
    requires limbs <= X.Length
    modifies X
    ensures V(X[..], 0, limbs) == old(V(X[..], 0, limbs)) / Pow2(count)
    ensures forall k :: limbs <= k < X.Length ==> X[k] == old(X[k])
  {
    ghost var x0 := X[..];
    var v0, v1 := count / LIMB_BITS, count % LIMB_BITS;
    if v0 > limbs || (v0 == limbs && v1 > 0) {
      forall i | 0 <= i < limbs { X[i] := 0; }
      VZero(X[..], 0, limbs);
      ShiftedOut(x0, limbs, count);
      return;
    }
    DivMod(count, LIMB_BITS);
    if v0 > 0 {
      ShiftLimbs(X, limbs, v0);
    } else {
      assert V(x0, 0, limbs) / BPow(0) == V(x0, 0, limbs);
    }
    ghost var x1 := X[..];
    if v1 > 0 {
      ShiftBits(X, limbs, v1);
    } else {
      assert V(x1, 0, limbs) / Pow2(0) == V(x1, 0, limbs);
    }
    BPowIsPow2(v0);
    Pow2Add(v0 * LIMB_BITS, v1);
    DivDiv(V(x0, 0, limbs), BPow(v0), Pow2(v1));
  }

  /** A shift by at least the whole width leaves nothing. */
  lemma ShiftedOut(x: seq<Limb>, limbs: nat, count: nat)
    requires limbs <= |x| && limbs <= count / LIMB_BITS
    ensures V(x, 0, limbs) / Pow2(count) == 0
  {
    VBound(x, 0, limbs);
    BPowIsPow2(limbs);
    DivMod(count, LIMB_BITS);
    MulLe(limbs, count / LIMB_BITS, LIMB_BITS);
    Pow2Monotone(limbs * LIMB_BITS, count);
    DivModUnique(V(x, 0, limbs), 0, V(x, 0, limbs), Pow2(count));
  }

  /** The shift by whole limbs. */
  method ShiftLimbs(X: array<Limb>, limbs: nat, v0: nat)
    requires 0 < v0 <= limbs <= X.Length
    modifies X
    ensures V(X[..], 0, limbs) == old(V(X[..], 0, limbs)) / BPow(v0)
    ensures forall k :: limbs <= k < X.Length ==> X[k] == old(X[k])
  {
    ghost var x0 := X[..];
    var i := 0;
    while i < limbs - v0
      invariant 0 <= i <= limbs - v0
      invariant forall k :: 0 <= k < i ==> X[k] == x0[k + v0]
      invariant forall k :: i <= k < X.Length ==> X[k] == x0[k]
    {
      X[i] := X[i + v0];
      i := i + 1;
    }
    while i < limbs
      invariant limbs - v0 <= i <= limbs
      invariant forall k :: 0 <= k < limbs - v0 ==> X[k] == x0[k + v0]
      invariant forall k :: limbs - v0 <= k < i ==> X[k] == 0
      invariant forall k :: limbs <= k < X.Length ==> X[k] == x0[k]
    {
      X[i] := 0;
      i := i + 1;
    }
    DroppedLimbs(x0, X[..], limbs, v0);
  }

  lemma ZeroTop(y: seq<Limb>, m: nat, limbs: nat)
    requires m <= limbs <= |y| && forall k :: m <= k < limbs ==> y[k] == 0
    ensures V(y, 0, limbs) == V(y, 0, m)
  {
    VSplit(y, 0, m, limbs);
    VZero(y, m, limbs);
  }

  /** Moving limbs down by v0 divides by the weight of limb v0. */
  lemma DroppedLimbs(x: seq<Limb>, y: seq<Limb>, limbs: nat, v0: nat)
    requires v0 <= limbs <= |x| && limbs <= |y|
    requires forall k :: 0 <= k < limbs - v0 ==> y[k] == x[k + v0]
    requires forall k :: limbs - v0 <= k < limbs ==> y[k] == 0
    ensures V(y, 0, limbs) == V(x, 0, limbs) / BPow(v0)
  {
    var m := limbs - v0;
    ZeroTop(y, m, limbs);
    VShift(y, x, 0, m, v0);
    VSplit(x, 0, v0, limbs);
    VBound(x, 0, v0);
    DivModUnique(V(x, 0, limbs), V(x, v0, limbs), V(x, 0, v0), BPow(v0));
  }

  /** One limb of a shift by v1 bits: its high part joins the bits that came
      down from the limb above. */
  lemma ShiftBitsStep(x: int, above: int, shifted: int, m: int, p: int, q: int)
    requires p > 0 && q > 0 && 0 <= x < p * q
    requires above == shifted * p + m
    ensures x + above * (p * q) == ((x / p + m * q) + shifted * (p * q)) * p + x % p
  {
    DivMod(x, p);
    MulDistrib(x / p + m * q, shifted * (p * q), p);
    MulDistrib(x / p, m * q, p);
    MulDistrib(shifted * p, m, p * q);
    assert (m * q) * p == m * (p * q);
    assert (shifted * p) * (p * q) == (shifted * (p * q)) * p;
  }

  /** The shift by fewer bits than a limb has. */
  method ShiftBits(X: array<Limb>, limbs: nat, v1: nat)
    requires limbs <= X.Length && 0 < v1 < LIMB_BITS
    modifies X
    ensures V(X[..], 0, limbs) == old(V(X[..], 0, limbs)) / Pow2(v1)
    ensures forall k :: limbs <= k < X.Length ==> X[k] == old(X[k])
  {
    ghost var x0 := X[..];
    var p, q := Pow2(v1), Pow2(LIMB_BITS - v1);
    Pow2Add(v1, LIMB_BITS - v1);
    var r0: Limb := 0;
    ghost var m := 0;
    var i := limbs;
    while i > 0
      invariant 0 <= i <= limbs
      invariant 0 <= m < p && r0 == m * q
      invariant V(x0, i, limbs) == V(X[..], i, limbs) * p + m
      invariant forall k :: 0 <= k < i || limbs <= k < X.Length ==> X[k] == x0[k]
    {
      ghost var y, x := X[..], X[i - 1];
      ShiftParts(x, p, q);
      ShiftBitsStep(x, V(x0, i, limbs), V(X[..], i, limbs), m, p, q);
      MulLe(m, p - 1, q);
      MulDistrib(p, 1, q);
      var r1: Limb := (X[i - 1] * q) % BASE;
      X[i - 1] := X[i - 1] / p + r0;
      VHead(x0, i - 1, limbs);
      VHead(X[..], i - 1, limbs);
      VFrame(y, X[..], i, limbs);
      r0 := r1;
      m := x % p;
      i := i - 1;
    }
    DivModUnique(V(x0, 0, limbs), V(X[..], 0, limbs), m, p);
  }

  /** dst := the limbs of src. */
  method Load(dst: array<Limb>, src: seq<Limb>)
    requires dst.Length == |src|
    modifies dst
    ensures dst[..] == src
  {
    forall k | 0 <= k < dst.Length { dst[k] := src[k]; }
  }

  /** X := x, a number of one limb. */
  method LoadSmall(X: array<Limb>, x: Limb)
    requires X.Length > 0
    modifies X
    ensures Val(X[..]) == x
  {
    forall i | 0 <= i < X.Length { X[i] := if i == 0 then x else 0; }
    VHead(X[..], 0, X.Length);
    VZero(X[..], 1, X.Length);
  }
}
