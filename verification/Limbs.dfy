/** Multi-precision numbers: little-endian sequences of limbs in base 2^LIMB_BITS. */
module Limbs {
  import opened Arith

  type LogWidth = k: nat | k >= 3 witness 5

  /** The base-2 logarithm of the limb width. It has no fixed value here, so
      what is proved holds for the 32-bit and the 64-bit build alike. */
  const LOG_WIDTH: LogWidth

  /** The limb width in bits. */
  const LIMB_BITS: nat := Pow2(LOG_WIDTH)

  predicate IsBase(b: nat) { b == Pow2(LIMB_BITS) && b >= 16 }

  type Base = b: nat | IsBase(b)
    witness (assert Pow2(3) == 8; Pow2Monotone(3, LOG_WIDTH); assert Pow2(4) == 16; Pow2Monotone(4, LIMB_BITS);
             Pow2(LIMB_BITS))

  const BASE: Base

  type Limb = x: int | 0 <= x < BASE witness 0

  function BPow(n: nat): (p: nat)
    ensures p > 0
  {
    MulNonneg(BASE - 1, if n == 0 then 1 else BPow(n - 1));
    if n == 0 then 1 else BASE * BPow(n - 1)
  }

  /** The number held in limbs lo..hi of a. */
  ghost function V(a: seq<Limb>, lo: nat, hi: nat): (v: nat)
    requires lo <= hi <= |a|
  {
    if lo == hi then 0
    else
      MulNonneg(a[hi - 1], BPow(hi - 1 - lo));
      V(a, lo, hi - 1) + a[hi - 1] * BPow(hi - 1 - lo)
  }

  /** The number held in a whole limb sequence. */
  ghost function Val(a: seq<Limb>): (v: nat) { V(a, 0, |a|) }

  // ---- machine arithmetic on single limbs ----

  function Add(x: Limb, y: Limb): Limb { if x + y < BASE then x + y else x + y - BASE }

  function Sub(x: Limb, y: Limb): Limb { if x >= y then x - y else x - y + BASE }

  function Mul(x: Limb, y: Limb): Limb { (x * y) % BASE }

  /** The value of a C comparison. */
  function Bit(b: bool): Limb { if b then 1 else 0 }

  /** The C idiom for a carry: the sum is smaller than either operand exactly
      when the addition wrapped. */
  lemma CarryOut(x: Limb, y: Limb)
    ensures Add(x, y) + Bit(Add(x, y) < y) * BASE == x + y
    ensures Add(x, y) < y <==> Add(x, y) < x
  {
  }

  // ---- powers ----

  lemma {:induction false} BPowIsPow2(n: nat)
    ensures BPow(n) == Pow2(n * LIMB_BITS)
  {
    if n > 0 {
      BPowIsPow2(n - 1);
      MulDistrib(n, 1, LIMB_BITS);
      MulNonneg(n - 1, LIMB_BITS);
      Pow2Add(LIMB_BITS, (n - 1) * LIMB_BITS);
    }
  }

  lemma {:induction false} BPowAdd(m: nat, n: nat)
    ensures BPow(m + n) == BPow(m) * BPow(n)
  {
    if m > 0 {
      BPowAdd(m - 1, n);
      MulAssoc(BASE, BPow(m - 1), BPow(n));
    }
  }

  // ---- the value of limbs ----

  /** The value depends only on the limbs in range. */
  lemma {:induction false} VFrame(a: seq<Limb>, b: seq<Limb>, lo: nat, hi: nat)
    requires lo <= hi <= |a| && hi <= |b|
    requires forall k :: lo <= k < hi ==> a[k] == b[k]
    ensures V(a, lo, hi) == V(b, lo, hi)
  {
    if lo < hi { VFrame(a, b, lo, hi - 1); }
  }

  lemma {:induction false} VBound(a: seq<Limb>, lo: nat, hi: nat)
    requires lo <= hi <= |a|
    ensures V(a, lo, hi) < BPow(hi - lo)
  {
    if lo < hi {
      VBound(a, lo, hi - 1);
      var p := BPow(hi - 1 - lo);
      MulLe(a[hi - 1], BASE - 1, p);
      MulDistrib(BASE, 1, p);
    }
  }

  lemma {:induction false} VSplit(a: seq<Limb>, lo: nat, mid: nat, hi: nat)
    requires lo <= mid <= hi <= |a|
    ensures V(a, lo, hi) == V(a, lo, mid) + V(a, mid, hi) * BPow(mid - lo)
  {
    if mid < hi {
      VSplit(a, lo, mid, hi - 1);
      BPowAdd(hi - 1 - mid, mid - lo);
      var p, q := BPow(mid - lo), BPow(hi - 1 - mid);
      MulDistrib(V(a, mid, hi - 1), a[hi - 1] * q, p);
      MulAssoc(a[hi - 1], q, p);
    }
  }

  /** The lowest limb split off. */
  lemma VHead(a: seq<Limb>, lo: nat, hi: nat)
    requires lo < hi <= |a|
    ensures V(a, lo, hi) == a[lo] + V(a, lo + 1, hi) * BASE
  {
    VSplit(a, lo, lo + 1, hi);
    assert BPow(0) == 1 && BPow(1) == BASE;
    assert V(a, lo, lo + 1) == a[lo];
  }

  /** Zero limbs hold zero. */
  lemma {:induction false} VZero(a: seq<Limb>, lo: nat, hi: nat)
    requires lo <= hi <= |a|
    requires forall k :: lo <= k < hi ==> a[k] == 0
    ensures V(a, lo, hi) == 0
  {
    if lo < hi { VZero(a, lo, hi - 1); }
  }

  /** The limbs of one number at another position. */
  lemma {:induction false} VShift(a: seq<Limb>, b: seq<Limb>, lo: nat, hi: nat, off: nat)
    requires lo <= hi <= |a| && hi + off <= |b|
    requires forall k :: lo <= k < hi ==> a[k] == b[k + off]
    ensures V(a, lo, hi) == V(b, lo + off, hi + off)
  {
    if lo < hi { VShift(a, b, lo, hi - 1, off); }
  }

  /** The lowest bit of a number is the lowest bit of its lowest limb. */
  lemma Parity(x: seq<Limb>)
    requires |x| > 0
    ensures Val(x) % 2 == x[0] % 2
  {
    VHead(x, 0, |x|);
    EvenMultiple(x[0], V(x, 1, |x|), Pow2(LIMB_BITS - 1));
  }
}
