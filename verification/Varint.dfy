/** The variable-length integer of section 16 of RFC 9000, as the frame codec
    reads and writes it. */
module Varint {
  import opened Arith
  import opened Bytes

  const MAX1: nat := 0x40
  const MAX2: nat := 0x4000
  const MAX4: nat := 0x4000_0000
  const MAX8: nat := 0x4000_0000_0000_0000

  /** How many bytes the encoder will use for v. */
  function Size(v: nat): nat {
    if v < MAX1 then 1 else if v < MAX2 then 2 else if v < MAX4 then 4 else 8
  }

  /** The bytes of v, nothing when v has more than 62 bits. A two-bit prefix and
      a value below it share no bits, so the source's "or" of them is a sum. */
  function Encode(v: nat): seq<byte> {
    if v < MAX1 then [v]
    else if v < MAX2 then [0x40 + v / 0x100, v % 0x100]
    else if v < MAX4 then [0x80 + v / 0x100_0000, v / 0x1_0000 % 0x100, v / 0x100 % 0x100, v % 0x100]
    else if v < MAX8 then
      [0xc0 + v / 0x100_0000_0000_0000, v / 0x1_0000_0000_0000 % 0x100, v / 0x100_0000_0000 % 0x100,
       v / 0x1_0000_0000 % 0x100, v / 0x100_0000 % 0x100, v / 0x1_0000 % 0x100, v / 0x100 % 0x100, v % 0x100]
    else []
  }

  datatype Decoded = Truncated | Value(len: nat, value: nat)

  /** Byte i of s, as a number of any size. */
  function At(s: seq<byte>, i: nat): int
    requires i < |s|
  {
    s[i]
  }

  /** Reads a varint from the front of s. */
  function Decode(s: seq<byte>): Decoded
    requires |s| >= 1
  {
    var prefix := s[0] / 64;
    if prefix == 0 then Value(1, s[0])
    else if prefix == 1 then
      if |s| < 2 then Truncated
      else Value(2, At(s, 0) % 64 * 0x100 + At(s, 1))
    else if prefix == 2 then
      if |s| < 4 then Truncated
      else Value(4, At(s, 0) % 64 * 0x100_0000 + At(s, 1) * 0x1_0000 + At(s, 2) * 0x100 + At(s, 3))
    else
      if |s| < 8 then Truncated
      else Value(8, At(s, 0) % 64 * 0x100_0000_0000_0000 + At(s, 1) * 0x1_0000_0000_0000
                    + At(s, 2) * 0x100_0000_0000 + At(s, 3) * 0x1_0000_0000 + At(s, 4) * 0x100_0000
                    + At(s, 5) * 0x1_0000 + At(s, 6) * 0x100 + At(s, 7))
  }

  /** The definition in RFC 9000: the two top bits of the first byte give the
      base-2 logarithm of the length, the other bits are the value, in network
      byte order. */
  ghost predicate IsVarint(s: seq<byte>, v: nat) {
    || (|s| == 1 && v < 0x40 && BigEndian(s) == v)
    || (|s| == 2 && v < 0x4000 && BigEndian(s) == 0x4000 + v)
    || (|s| == 4 && v < 0x4000_0000 && BigEndian(s) == 2 * 0x4000_0000 + v)
    || (|s| == 8 && v < 0x4000_0000_0000_0000 && BigEndian(s) == 3 * 0x4000_0000_0000_0000 + v)
  }

  /** The length the standard gives to a first byte. */
  function FormLength(first: byte): nat {
    if first < 0x40 then 1 else if first < 0x80 then 2 else if first < 0xc0 then 4 else 8
  }

  lemma BigEndian1(s: seq<byte>)
    requires |s| == 1
    ensures BigEndian(s) == s[0]
  {
    assert BigEndian(s[..0]) == 0;
  }

  lemma BigEndian2(s: seq<byte>)
    requires |s| == 2
    ensures BigEndian(s) == 0x100 * At(s, 0) + At(s, 1)
  {
    BigEndian1(s[..1]);
  }

  lemma BigEndian4(s: seq<byte>)
    requires |s| == 4
    ensures BigEndian(s) == 0x100_0000 * At(s, 0) + 0x1_0000 * At(s, 1) + 0x100 * At(s, 2) + At(s, 3)
  {
    BigEndian2(s[..3][..2]);
  }

  lemma BigEndian8(s: seq<byte>)
    requires |s| == 8
    ensures BigEndian(s) == 0x1_0000_0000 * BigEndian(s[..4])
                          + 0x100_0000 * At(s, 4) + 0x1_0000 * At(s, 5) + 0x100 * At(s, 6) + At(s, 7)
  {
    assert s[..7][..6] == s[..6] && s[..6][..5] == s[..5] && s[..5][..4] == s[..4];
    assert BigEndian(s[..7]) == 256 * BigEndian(s[..6]) + s[6];
    assert BigEndian(s[..6]) == 256 * BigEndian(s[..5]) + s[5];
    assert BigEndian(s[..5]) == 256 * BigEndian(s[..4]) + s[4];
  }

  /** The decoder implements the standard: it reads a value exactly when the
      bytes its first byte announces are there, and that value is the one the
      standard assigns to them. */
  lemma DecodeMeetsStandard(s: seq<byte>)
    requires |s| >= 1
    ensures Decode(s).Truncated? <==> |s| < FormLength(s[0])
    ensures Decode(s).Value? ==>
              Decode(s).len == FormLength(s[0]) && IsVarint(s[..Decode(s).len], Decode(s).value)
  {
    if Decode(s).Value? {
      var t := s[..Decode(s).len];
      if |t| == 1 { BigEndian1(t); }
      else if |t| == 2 { BigEndian2(t); }
      else if |t| == 4 { BigEndian4(t); }
      else { DecodeLong(s); }
    }
  }

  lemma DecodeLong(s: seq<byte>)
    requires |s| >= 8 && s[0] >= 0xc0
    ensures BigEndian(s[..8]) == 3 * MAX8 + Decode(s).value && Decode(s).value < MAX8
  {
    var t := s[..8];
    BigEndian8(t);
    BigEndian4(t[..4]);
  }

  /** A byte sequence is a varint for one value only, and is decoded to it
      whatever follows. */
  lemma VarintDecodes(s: seq<byte>, v: nat, rest: seq<byte>)
    requires IsVarint(s, v)
    ensures Decode(s + rest) == Value(|s|, v)
  {
    if |s| == 1 { BigEndian1(s); }
    else if |s| == 2 { BigEndian2(s); }
    else if |s| == 4 { BigEndian4(s); }
    else { BigEndian8(s); BigEndian4(s[..4]); }
  }

  /** Of all ways to go on, zeros give the least number. */
  lemma {:induction false} ZerosAreLeast(a: seq<byte>, b: seq<byte>)
    ensures BigEndian(a + Zeros(|b|)) <= BigEndian(a + b)
    decreases |b|
  {
    if |b| > 0 {
      var m := |b| - 1;
      ZerosAreLeast(a, b[..m]);
      assert (a + b)[..|a| + m] == a + b[..m];
      assert (a + Zeros(|b|))[..|a| + m] == a + Zeros(m);
    }
  }

  /** The value of a varint that is cut off, if zeros follow. */
  function LeastValue(s: seq<byte>): nat
    requires |s| >= 1
  {
    DecodeMeetsStandard(s + Zeros(8));
    Decode(s + Zeros(8)).value
  }

  /** The zeros make it a varint, of the form its first byte says. */
  lemma LeastVarint(s: seq<byte>)
    requires |s| >= 1
    ensures IsVarint((s + Zeros(8))[..FormLength(s[0])], LeastValue(s))
  {
    DecodeMeetsStandard(s + Zeros(8));
  }

  lemma VarintForm(w: seq<byte>, v: nat)
    requires IsVarint(w, v)
    ensures |w| == FormLength(w[0])
  {
    VarintDecodes(w, v, []);
    assert w + [] == w;
    DecodeMeetsStandard(w);
  }

  /** It is the least value that the bytes can be the front of. */
  lemma LeastValueIsLeast(s: seq<byte>, t: seq<byte>, k: nat, v: nat)
    requires |s| >= 1 && k <= |s + t| && IsVarint((s + t)[..k], v)
    ensures k == FormLength(s[0]) && LeastValue(s) <= v
  {
    var w, z := (s + t)[..k], (s + Zeros(8))[..FormLength(s[0])];
    VarintForm(w, v);
    LeastVarint(s);
    if k <= |s| {
      assert w == s[..k] == z;
    } else {
      var b := w[|s|..];
      assert w == s + b && z == s + Zeros(|b|);
      ZerosAreLeast(s, b);
    }
    assert LeastValue(s) <= v;
  }

  /** The bytes of a number make it up again. */
  lemma Octets(v: nat)
    ensures v == 0x100_0000_0000_0000 * (v / 0x100_0000_0000_0000)
               + 0x1_0000_0000_0000 * (v / 0x1_0000_0000_0000 % 0x100)
               + 0x100_0000_0000 * (v / 0x100_0000_0000 % 0x100)
               + 0x1_0000_0000 * (v / 0x1_0000_0000 % 0x100)
               + 0x100_0000 * (v / 0x100_0000 % 0x100)
               + 0x1_0000 * (v / 0x1_0000 % 0x100)
               + 0x100 * (v / 0x100 % 0x100) + v % 0x100
  {
    DivDiv(v, 0x100, 0x100);
    DivDiv(v, 0x1_0000, 0x100);
    DivDiv(v, 0x100_0000, 0x100);
    DivDiv(v, 0x1_0000_0000, 0x100);
    DivDiv(v, 0x100_0000_0000, 0x100);
    DivDiv(v, 0x1_0000_0000_0000, 0x100);
    var a, b, c := v / 0x100, v / 0x1_0000, v / 0x100_0000;
    var d, e, f := v / 0x1_0000_0000, v / 0x100_0000_0000, v / 0x1_0000_0000_0000;
    DivMod(v, 0x100);
    DivMod(a, 0x100);
    DivMod(b, 0x100);
    DivMod(c, 0x100);
    DivMod(d, 0x100);
    DivMod(e, 0x100);
    DivMod(f, 0x100);
  }

  lemma LongForm(v: nat)
    requires MAX4 <= v < MAX8
    ensures BigEndian(Encode(v)) == 3 * MAX8 + v
  {
    var e := Encode(v);
    BigEndian8(e);
    BigEndian4(e[..4]);
    Octets(v);
  }

  lemma FourOctets(v: nat)
    ensures v == 0x100_0000 * (v / 0x100_0000) + 0x1_0000 * (v / 0x1_0000 % 0x100)
               + 0x100 * (v / 0x100 % 0x100) + v % 0x100
  {
    DivDiv(v, 0x100, 0x100);
    DivDiv(v, 0x1_0000, 0x100);
  }

  lemma MediumForm(v: nat)
    requires MAX2 <= v < MAX4
    ensures BigEndian(Encode(v)) == 2 * MAX4 + v
  {
    BigEndian4(Encode(v));
    FourOctets(v);
  }

  lemma ShortForm(v: nat)
    requires v < MAX2
    ensures IsVarint(Encode(v), v)
  {
    var e := Encode(v);
    if v < MAX1 { BigEndian1(e); } else { BigEndian2(e); }
  }

  /** The encoder writes a varint of the standard, in the size announced. */
  lemma EncodeMeetsStandard(v: nat)
    requires v < MAX8
    ensures IsVarint(Encode(v), v) && |Encode(v)| == Size(v)
  {
    if v < MAX2 { ShortForm(v); } else if v < MAX4 { MediumForm(v); } else { LongForm(v); }
  }

  /** Decoding undoes encoding, whatever follows. */
  lemma {:induction false} RoundTrip(v: nat, rest: seq<byte>)
    requires v < MAX8
    ensures Decode(Encode(v) + rest) == Value(|Encode(v)|, v)
  {
    EncodeMeetsStandard(v);
    VarintDecodes(Encode(v), v, rest);
  }

  /** No varint for v is shorter than the encoder's. */
  lemma Shortest(s: seq<byte>, v: nat)
    requires IsVarint(s, v)
    ensures v < MAX8 && |Encode(v)| <= |s|
  {
  }

  /** Every readable varint re-encodes to one with the same value that is no
      longer. */
  lemma {:induction false} Reencode(s: seq<byte>)
    requires |s| >= 1 && Decode(s).Value?
    ensures var d := Decode(s);
            d.len <= |s| && d.value < MAX8 && |Encode(d.value)| <= d.len
            && Decode(Encode(d.value)) == Value(|Encode(d.value)|, d.value)
  {
    DecodeMeetsStandard(s);
    Shortest(s[..Decode(s).len], Decode(s).value);
    RoundTrip(Decode(s).value, []);
    assert Encode(Decode(s).value) + [] == Encode(Decode(s).value);
  }

  /** The eight-byte form. */
  method WriteLong(v: nat, out: array<byte>, at: nat)
    requires MAX4 <= v < MAX8 && at + 8 <= out.Length
    modifies out
    ensures out[at..at + 8] == Encode(v)
    ensures forall k :: 0 <= k < out.Length && !(at <= k < at + 8) ==> out[k] == old(out[k])
  {
    out[at] := 0xc0 + v / 0x100_0000_0000_0000;
    out[at + 1] := v / 0x1_0000_0000_0000 % 0x100;
    out[at + 2] := v / 0x100_0000_0000 % 0x100;
    out[at + 3] := v / 0x1_0000_0000 % 0x100;
    out[at + 4] := v / 0x100_0000 % 0x100;
    out[at + 5] := v / 0x1_0000 % 0x100;
    out[at + 6] := v / 0x100 % 0x100;
    out[at + 7] := v % 0x100;
  }

  /** Writes the varint of v into out at index at; the caller leaves room. */
  method EncodeVarint(v: nat, out: array<byte>, at: nat) returns (n: nat)
    requires at + |Encode(v)| <= out.Length
    modifies out
    ensures n == |Encode(v)|
    ensures out[at..at + n] == Encode(v)
    ensures forall k :: 0 <= k < out.Length && !(at <= k < at + n) ==> out[k] == old(out[k])
  {
    if v < MAX1 {
      out[at] := v;
      return 1;
    }
    if v < MAX2 {
      out[at], out[at + 1] := 0x40 + v / 0x100, v % 0x100;
      return 2;
    }
    if v < MAX4 {
      out[at] := 0x80 + v / 0x100_0000;
      out[at + 1] := v / 0x1_0000 % 0x100;
      out[at + 2] := v / 0x100 % 0x100;
      out[at + 3] := v % 0x100;
      return 4;
    }
    if v < MAX8 {
      WriteLong(v, out, at);
      return 8;
    }
    return 0;
  }
}
