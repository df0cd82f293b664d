/** The multiply-accumulate step on limbs, in both portable forms. */
module MulAdd {
  import opened Arith
  import opened Limbs

  /** Half a limb: HALF_BITS bits. */
  const HALF_BITS: nat := LIMB_BITS / 2
  const HALF: nat := Pow2(HALF_BITS)

  lemma HalfSquared()
    ensures HALF * HALF == BASE
  {
    assert LIMB_BITS == 2 * Pow2(LOG_WIDTH - 1);
    Pow2Add(HALF_BITS, HALF_BITS);
  }

  /** Adding y into the two-limb number (r0, r1), which has room for it. */
  method AddInto(r0: Limb, r1: Limb, y: Limb) returns (s0: Limb, s1: Limb)
    requires r0 + r1 * BASE + y < BASE * BASE
    ensures s0 + s1 * BASE == r0 + r1 * BASE + y
  {
    s0 := Add(r0, y);
    CarryOut(r0, y);
    var carry := Bit(s0 < y);
    MulDistrib(r1, carry, BASE);
    HighDigit(s0, r1 + carry, BASE, BASE);
    s1 := Add(r1, carry);
  }

  /** The form that multiplies into a double-width integer. */
  method MulAddDouble(s: Limb, b: Limb, c: Limb, d: Limb) returns (c': Limb, d': Limb)
    ensures d' + c' * BASE == d + s * b + c
  {
    TwoDigits(s, b, c, d, BASE);
    var r := s * b;
    DivMod(r, BASE);
    HighDigit(r % BASE, r / BASE, BASE, BASE);
    var r0: Limb, r1: Limb := r % BASE, r / BASE;
    r0, r1 := AddInto(r0, r1, c);
    r0, r1 := AddInto(r0, r1, d);
    c', d' := r1, r0;
  }

  /** Splitting both factors into halves splits the product into four. */
  lemma Schoolbook(s0: int, s1: int, b0: int, b1: int, h: int)
    ensures (s0 + s1 * h) * (b0 + b1 * h)
         == s0 * b0 + (s0 * b1) * h + (s1 * b0) * h + (s1 * b1) * (h * h)
  {
    MulDistrib(s0, s1 * h, b0 + b1 * h);
    MulDistrib(b0, b1 * h, s0);
    MulDistrib(b0, b1 * h, s1 * h);
    MulAssoc(s0, b1, h);
    assert b0 * (s1 * h) == (s1 * b0) * h;
    assert (b1 * h) * (s1 * h) == (s1 * b1) * (h * h);
  }

  /** A product of two half limbs is a limb. */
  lemma HalfProduct(x: int, y: int, h: int)
    requires 0 <= x < h && 0 <= y < h
    ensures 0 <= x * y < h * h
  {
    TwoDigits(x, y, 0, 0, h);
  }

  /** Shifting x left by half a limb leaves its low half on top and pushes its
      high half into the next limb. */
  lemma ShiftHalf(x: Limb)
    ensures (x * HALF) % BASE == x % HALF * HALF
    ensures x * HALF == x % HALF * HALF + x / HALF * BASE
    ensures 0 <= x / HALF < HALF
    ensures (x * HALF) % BASE / HALF == x % HALF
    ensures x == x % HALF + x / HALF * HALF
  {
    HalfSquared();
    ShiftParts(x, HALF, HALF);
    DivModUnique(x % HALF * HALF, x % HALF, 0, HALF);
  }

  /** The four half-limb products of two limbs make up their product. */
  lemma FourProducts(s: Limb, b: Limb, s0: int, s1: int, b0: int, b1: int)
    requires s0 == s % HALF && s1 == s / HALF && b0 == b % HALF && b1 == b / HALF
    ensures 0 <= s0 * b0 < BASE && 0 <= s0 * b1 < BASE && 0 <= s1 * b0 < BASE && 0 <= s1 * b1 < BASE
    ensures s * b == s0 * b0 + (s0 * b1) * HALF + (s1 * b0) * HALF + (s1 * b1) * BASE
  {
    HalfSquared();
    ShiftHalf(b);
    ShiftHalf(s);
    DivMod(s, HALF);
    DivMod(b, HALF);
    HalfProduct(s0, b1, HALF);
    HalfProduct(s0, b0, HALF);
    HalfProduct(s1, b0, HALF);
    HalfProduct(s1, b1, HALF);
    Schoolbook(s0, s1, b0, b1, HALF);
  }

  /** The additions of the half-limb form, once the four products are known. */
  method SumHalves(ghost p: int, x: Limb, y: Limb, z0: Limb, z1: Limb, c: Limb, d: Limb)
    returns (r0: Limb, r1: Limb)
    requires p == z0 + x * HALF + y * HALF + z1 * BASE
    requires p + c + d < BASE * BASE
    ensures r0 + r1 * BASE == p + c + d
  {
    ShiftHalf(x);
    ShiftHalf(y);
    var rx: Limb, ry: Limb := (x * HALF) % BASE, (y * HALF) % BASE;
    MulDistrib(z1, x / HALF, BASE);
    MulDistrib(z1 + x / HALF, y / HALF, BASE);
    HighDigit(z0 + rx + ry, z1 + x / HALF + y / HALF, BASE, BASE);
    r0 := z0;
    r1 := Add(z1, x / HALF);
    r1 := Add(r1, y / HALF);
    r0, r1 := AddInto(r0, r1, rx);
    r0, r1 := AddInto(r0, r1, ry);
    r0, r1 := AddInto(r0, r1, c);
    r0, r1 := AddInto(r0, r1, d);
  }

  /** The form for compilers without a double-width integer: four half-limb
      products. */
  method MulAddHalves(s: Limb, b: Limb, c: Limb, d: Limb) returns (c': Limb, d': Limb)
    ensures d' + c' * BASE == d + s * b + c
  {
    ShiftHalf(b);
    ShiftHalf(s);
    var b0, b1 := (b * HALF) % BASE / HALF, b / HALF;
    var s0, s1 := (s * HALF) % BASE / HALF, s / HALF;
    FourProducts(s, b, s0, s1, b0, b1);
    TwoDigits(s, b, c, d, BASE);
    var rx: Limb, ry: Limb, r0: Limb, r1: Limb := s0 * b1, s1 * b0, s0 * b0, s1 * b1;
    d', c' := SumHalves(s * b, rx, ry, r0, r1, c, d);
  }
}
