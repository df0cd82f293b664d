/** The two Base64 routines as they work on the caller's buffers. */
module Base64Buffers {
  import opened Bytes
  import opened Base64
  import Arith

  datatype Status = Success | BufferTooSmall | InvalidCharacter | CorruptionDetected

  type SizeLimit = n: nat | n >= 0xFFFF witness 0xFFFF

  /** The largest size the platform can express. */
  const SIZE_MAX: SizeLimit

  const WORD := 0x1_0000_0000

  // ---- encoding ----

  /** Whole groups are encoded on their own. */
  lemma {:induction false} EncodedAppend(a: seq<byte>, b: seq<byte>, g: nat)
    requires |a| == 3 * g
    ensures Encoded(a + b) == Encoded(a) + Encoded(b)
    decreases |a|
  {
    if |a| == 0 {
      assert a + b == b;
    } else if |b| == 0 {
      assert a + b == a;
    } else if |a| == 3 {
      DropPrefix(a, b);
    } else {
      assert (a + b)[..3] == a[..3] && (a + b)[3..] == a[3..] + b;
      EncodedAppend(a[3..], b, g - 1);
      ConcatAssoc(Group(a[..3]), Encoded(a[3..]), Encoded(b));
    }
  }

  lemma EncodedGroup(src: seq<byte>, i: nat, j: nat, g: nat)
    requires i < j <= |src| && j <= i + 3 && i == 3 * g
    ensures Encoded(src[..j]) == Encoded(src[..i]) + Group(src[i..j])
  {
    assert src[..j] == src[..i] + src[i..j];
    EncodedAppend(src[..i], src[i..j], g);
  }

  function Contents(dst: array?<byte>): seq<byte>
    reads dst
  {
    if dst == null then [] else dst[..]
  }

  /** The buffer starts with the output and is as it was behind it. */
  ghost predicate Written(dst: array?<byte>, output: seq<byte>, was: seq<byte>)
    reads dst
  {
    (output != [] ==> dst != null)
    && (dst != null ==> |output| <= |was| == dst.Length && dst[..] == output + was[|output|..])
  }

  method PutGroup(dst: array<byte>, g: seq<byte>, ghost output: seq<byte>, p: nat, ghost was: seq<byte>)
    requires |g| == 4 && p == |output| && p + 4 <= dst.Length && Written(dst, output, was)
    modifies dst
    ensures Written(dst, output + g, was)
  {
    dst[p], dst[p + 1], dst[p + 2], dst[p + 3] := g[0], g[1], g[2], g[3];
  }

  method EncodeThree(dst: array<byte>, s: seq<byte>, ghost output: seq<byte>, p: nat, ghost was: seq<byte>)
    requires |s| == 3 && p == |output| && p + 4 <= dst.Length && Written(dst, output, was)
    modifies dst
    ensures Written(dst, output + Group(s), was)
  {
    var v := GroupValues(s);
    assert (var v := GroupValues(s); Group(s) == [EncChar(v[0]), EncChar(v[1]), EncChar(v[2]), EncChar(v[3])]);
    PutGroup(dst, [EncChar(v[0]), EncChar(v[1]), EncChar(v[2]), EncChar(v[3])], output, p, was);
  }

  /** The first g groups are written. */
  ghost predicate GroupsWritten(dst: array<byte>, src: seq<byte>, g: nat, was: seq<byte>)
    reads dst
  {
    && 3 * g <= |src| && |Encoded(src[..3 * g])| == 4 * g
    && Written(dst, Encoded(src[..3 * g]), was)
  }

  method EncodeNext(dst: array<byte>, src: seq<byte>, i: nat, p: nat, ghost g: nat, ghost was: seq<byte>)
    requires i == 3 * g && p == 4 * g && i + 3 <= |src| && p + 4 <= dst.Length && GroupsWritten(dst, src, g, was)
    modifies dst
    ensures GroupsWritten(dst, src, g + 1, was)
  {
    EncodedGroup(src, i, i + 3, g);
    EncodeThree(dst, src[i..i + 3], Encoded(src[..i]), p, was);
    assert 3 * (g + 1) == i + 3;
  }

  /** The whole groups of the input. */
  method EncodeFull(dst: array<byte>, src: seq<byte>, groups: nat, ghost was: seq<byte>)
    requires 3 * groups <= |src| && 4 * groups <= dst.Length && was == dst[..]
    modifies dst
    ensures Written(dst, Encoded(src[..3 * groups]), was) && |Encoded(src[..3 * groups])| == 4 * groups
  {
    var i, p := 0, 0;
    ghost var g: nat := 0;
    while i < 3 * groups
      invariant g <= groups && i == 3 * g && p == 4 * g && GroupsWritten(dst, src, g, was)
    {
      assert g + 1 <= groups && i + 3 <= |src| && p + 4 <= dst.Length;
      EncodeNext(dst, src, i, p, g, was);
      i, p, g := i + 3, p + 4, g + 1;
    }
  }

  /** The characters written for one or two bytes. */
  lemma PartialGroup(s: seq<byte>)
    requires 1 <= |s| <= 2
    ensures var v := GroupValues(s);
            Group(s) == [EncChar(v[0]), EncChar(v[1]), if |s| > 1 then EncChar(v[2]) else PAD, PAD]
  {
  }

  lemma PartialValues(s: seq<byte>, c2: int)
    requires 1 <= |s| <= 2 && c2 == if |s| > 1 then s[1] else 0
    ensures var v := GroupValues(s);
            v[0] == s[0] / 4 && v[1] == s[0] % 4 * 16 + c2 / 16 && (|s| > 1 ==> v[2] == c2 % 16 * 4)
  {
  }

  /** The group of one or two bytes at the end. */
  method EncodeRest(dst: array<byte>, s: seq<byte>, ghost output: seq<byte>, p: nat, ghost was: seq<byte>)
    requires 1 <= |s| <= 2 && p == |output| && p + 4 <= dst.Length && Written(dst, output, was)
    modifies dst
    ensures Written(dst, output + Group(s), was)
  {
    var c1: int := s[0];
    var c2: int := if |s| > 1 then s[1] else 0;
    var third := if |s| > 1 then EncChar(c2 % 16 * 4) else PAD;
    PartialGroup(s);
    PartialValues(s, c2);
    PutGroup(dst, [EncChar(c1 / 4), EncChar(c1 % 4 * 16 + c2 / 16), third, PAD], output, p, was);
  }

  /** What the routine needs room for: the encoding and a zero byte. */
  function Needed(src: seq<byte>): nat { |Encoded(src)| + 1 }

  /** Encodes into the buffer, or says how large it has to be. */
  method Encode(dst: array?<byte>, dlen: nat, src: seq<byte>) returns (ret: Status, olen: nat)
    requires dst != null ==> dlen <= dst.Length
    requires dlen <= SIZE_MAX && |src| <= SIZE_MAX
    modifies dst
    ensures ret == Success <==> src == [] || (dst != null && Needed(src) <= dlen)
    ensures ret == Success ==> olen == |Encoded(src)|
    ensures ret == Success && src != [] ==>
      olen < dlen && dst[..olen] == Encoded(src) && dst[olen] == 0 && dst[olen + 1..] == old(dst[olen + 1..])
    ensures ret != Success ==> ret == BufferTooSmall
    ensures ret != Success ==> olen == if Needed(src) <= SIZE_MAX then Needed(src) else SIZE_MAX
    ensures dst != null && (ret != Success || src == []) ==> dst[..] == old(dst[..])
  {
    if |src| == 0 {
      return Success, 0;
    }
    var n: nat := |src| / 3 + if |src| % 3 != 0 then 1 else 0;
    EncodedLength(src);
    GroupCount(|src|);
    if n > (SIZE_MAX - 1) / 4 {
      return BufferTooSmall, SIZE_MAX;
    }
    n := 4 * n;
    if dlen < n + 1 || dst == null {
      return BufferTooSmall, n + 1;
    }
    olen := EncodeAll(dst, src);
    assert src[..|src|] == src;
    ret := Success;
  }

  lemma GroupCount(n: nat)
    ensures (n + 2) / 3 == n / 3 + (if n % 3 != 0 then 1 else 0) && 3 * (n / 3) + n % 3 == n
  {
  }

  lemma FullLength(s: seq<byte>, groups: nat)
    requires |s| == 3 * groups
    ensures |Encoded(s)| == 4 * groups
  {
    EncodedLength(s);
    assert (3 * groups + 2) / 3 == groups;
  }

  /** The bytes behind the whole groups, if there are any. */
  method EncodeTail(dst: array<byte>, s: seq<byte>, ghost output: seq<byte>, p: nat, ghost was: seq<byte>)
    returns (end: nat)
    requires |s| <= 2 && p == |output| && Written(dst, output, was) && |output + Encoded(s)| <= dst.Length
    modifies dst
    ensures end == |output + Encoded(s)| && Written(dst, output + Encoded(s), was)
  {
    assert Encoded(s) == (if s == [] then [] else Group(s)) && |Encoded(s)| == (if s == [] then 0 else 4);
    end := p;
    if |s| > 0 {
      EncodeRest(dst, s, output, p, was);
      end := p + 4;
    } else {
      ConcatEmpty(output);
    }
  }

  /** Ends the output by a zero byte. */
  method PutZero(dst: array<byte>, p: nat, ghost output: seq<byte>, ghost was: seq<byte>)
    requires p == |output| < dst.Length && Written(dst, output, was)
    modifies dst
    ensures dst[..p] == output && dst[p] == 0 && dst[p + 1..] == was[p + 1..]
  {
    dst[p] := 0;
  }

  method EncodeAll(dst: array<byte>, src: seq<byte>) returns (p: nat)
    requires Needed(src) <= dst.Length
    modifies dst
    ensures p == |Encoded(src)|
    ensures dst[..p] == Encoded(src) && dst[p] == 0 && dst[p + 1..] == old(dst[p + 1..])
  {
    ghost var was, output := dst[..], Encoded(src);
    var groups := |src| / 3;
    GroupCount(|src|);
    assert Encoded(src) == Encoded(src[..3 * groups]) + Encoded(src[3 * groups..]) by {
      Rejoin(src, 3 * groups);
      EncodedAppend(src[..3 * groups], src[3 * groups..], groups);
    }
    FullLength(src[..3 * groups], groups);
    EncodeFull(dst, src, groups, was);
    p := EncodeTail(dst, src[3 * groups..], Encoded(src[..3 * groups]), 4 * groups, was);
    PutZero(dst, p, output, was);
  }

  // ---- the first pass ----

  /** The first pass as the routine runs it. */
  method CheckPass(src: seq<byte>) returns (c: Checked)
    ensures c == Check(src, false, 0)
  {
    var i, n, equals := 0, 0, 0;
    assert src[0..] == src;
    while i < |src|
      invariant 0 <= i <= |src| && n >= 0 && equals >= 0
      invariant Check(src, false, 0) == CountMore(Check(src[i..], false, equals), n)
    {
      var spaces;
      i, spaces := SkipSpaces(src, i, equals);
      if i == |src| {
        break;
      }
      if |src| - i >= 2 && src[i] == CR && src[i + 1] == LF {
        i := i + 1;
        continue;
      }
      if src[i] == LF {
        i := i + 1;
        continue;
      }
      if spaces || src[i] > 127 {
        return Bad;
      }
      if src[i] == PAD {
        equals := equals + 1;
        if equals > 2 {
          return Bad;
        }
      } else if equals != 0 || DecValue(src[i]) < 0 {
        return Bad;
      }
      n := n + 1;
      i := i + 1;
    }
    c := Good(n, equals);
  }

  method SkipSpaces(src: seq<byte>, start: nat, ghost equals: nat) returns (i: nat, spaces: bool)
    requires start <= |src|
    ensures start <= i <= |src| && (i < |src| ==> src[i] != SPACE)
    ensures Check(src[start..], false, equals) == Check(src[i..], spaces, equals)
  {
    i, spaces := start, false;
    while i < |src| && src[i] == SPACE
      invariant start <= i <= |src|
      invariant Check(src[start..], false, equals) == Check(src[i..], spaces, equals)
    {
      i, spaces := i + 1, true;
    }
  }

  // ---- the second pass ----

  lemma {:induction false} BytesAppend(a: seq<int>, b: seq<int>, g: nat)
    requires |a| == 4 * g
    ensures BytesOf(a + b) == BytesOf(a) + BytesOf(b) && |BytesOf(a)| == 3 * g
    decreases g
  {
    if g == 0 {
      assert a + b == b;
    } else if |b| == 0 {
      assert a + b == a;
      if g > 1 { BytesAppend(a[4..], [], g - 1); ConcatEmpty(a[4..]); }
    } else if g == 1 {
      DropPrefix(a, b);
    } else {
      assert (a + b)[..4] == a[..4] && (a + b)[4..] == a[4..] + b;
      BytesAppend(a[4..], b, g - 1);
      ConcatAssoc(GroupBytes(a[..4]), BytesOf(a[4..]), BytesOf(b));
    }
  }

  /** Two to the power of six for each digit. */
  function Scale(digits: nat): (m: int)
    requires digits <= 4
    ensures m > 0
  {
    if digits == 0 then 1 else if digits == 1 then 64 else if digits == 2 then 4096
    else if digits == 3 then 262144 else 16777216
  }

  /** The low bits of the accumulator are the digits read since the last group.
      What is above them is left over from earlier groups. */
  ghost predicate Holds(x: int, part: seq<int>) {
    |part| <= 4 && Sextets(part) && x % Scale(|part|) == Number(part)
  }

  /** Shifting within a word that is a multiple of the scale. */
  lemma LowShift(x: int, d: int, m: int, f: int, c: int)
    requires m > 0 && f > 0 && WORD == c * (m * f) && 0 <= d < f
    ensures m * f > 0 && (x * f + d) % WORD % (m * f) == x % m * f + d
  {
    var y, q, r := x * f + d, x / m, x % m;
    var k, mf := y / WORD, m * f;
    assert mf > 0;
    Arith.DivMod(x, m);
    Arith.DivMod(y, WORD);
    Arith.MulDistrib(r, q * m, f);
    Arith.MulAssoc(q, m, f);
    Arith.MulAssoc(k, c, mf);
    Arith.MulDistrib(q, k * c, mf);
    assert y % WORD == r * f + d + (q - k * c) * mf;
    Arith.MulLe(r + 1, m, f);
    Arith.MulDistrib(r, 1, f);
    Arith.MulNonneg(r, f);
    Arith.DivModUnique(y % WORD, q - k * c, r * f + d, mf);
  }

  lemma HoldsMore(x: int, part: seq<int>, d: int)
    requires Holds(x, part) && |part| < 4 && 0 <= d < 64
    ensures Holds((x * 64 + d) % WORD, part + [d])
  {
    assert Number(part + [d]) == Number(part) * 64 + d;
    if |part| == 0 { LowShift(x, d, 1, 64, 0x400_0000); }
    else if |part| == 1 { LowShift(x, d, 64, 64, 0x10_0000); }
    else if |part| == 2 { LowShift(x, d, 4096, 64, 0x4000); }
    else { LowShift(x, d, 262144, 64, 0x100); }
  }

  lemma HoldsNone(x: int)
    ensures Holds(x, [])
  {
  }

  /** The three low bytes depend on the low twenty-four bits only. */
  lemma LowBytes(x: int, n: int)
    requires x % 16777216 == n
    ensures Byte2(x) == Byte2(n) && Byte1(x) == Byte1(n) && Byte0(x) == Byte0(n)
  {
    var q := x / 16777216;
    Arith.DivMod(x, 16777216);
    LowByte(x, n, q, 0x1_0000, 256);
    LowByte(x, n, q, 0x100, 65536);
    LowByte(x, n, q, 1, 16777216);
  }

  /** The byte at some place of a number, when what is added is above it. */
  lemma LowByte(x: int, n: int, q: int, unit: int, above: int)
    requires unit > 0 && unit * above == 16777216 && x == n + q * 16777216 && above % 256 == 0
    ensures x / unit % 256 == n / unit % 256
  {
    Arith.DivMod(n, unit);
    Arith.MulAssoc(q, above, unit);
    Arith.MulDistrib(n / unit, q * above, unit);
    Arith.DivModUnique(x, n / unit + q * above, n % unit, unit);
    var k := above / 256;
    Arith.MulAssoc(q, k, 256);
    Arith.ModShift(n / unit, q * k, 256);
  }

  lemma HoldsThree(x: int, part: seq<int>)
    requires Holds(x, part) && |part| == 3
    ensures var y := x * 64 % WORD; GroupBytes(part) == [Byte2(y), Byte1(y)]
  {
    LowShift(x, 0, 262144, 64, 0x100);
    LowBytes(x * 64 % WORD, Number(part) * 64);
  }

  lemma HoldsTwo(x: int, part: seq<int>)
    requires Holds(x, part) && |part| == 2
    ensures GroupBytes(part) == [Byte2(x * 4096 % WORD)]
  {
    LowShift(x, 0, 4096, 4096, 0x100);
    LowBytes(x * 4096 % WORD, Number(part) * 4096);
  }

  method PutBytes(dst: array?<byte>, p: nat, s: seq<byte>, ghost output: seq<byte>, ghost was: seq<byte>)
    requires 1 <= |s| <= 3 && p == |output| && Written(dst, output, was)
    requires dst != null && p + |s| <= dst.Length
    modifies dst
    ensures Written(dst, output + s, was)
  {
    dst[p] := s[0];
    if |s| > 1 { dst[p + 1] := s[1]; }
    if |s| > 2 { dst[p + 2] := s[2]; }
  }

  /** Room for n bytes, unless there are none. */
  predicate Room(dst: array?<byte>, n: nat) {
    (n > 0 ==> dst != null) && (dst != null ==> n <= dst.Length)
  }

  /** The values of a text: whole groups, the group at hand, and what is still to
      be read from position i on. */
  ghost predicate Split(src: seq<byte>, i: nat, whole: seq<int>, part: seq<int>) {
    i <= |src| && Sextets(Values(src)) && Values(src) == whole + part + Values(src[i..])
  }

  lemma SplitStart(src: seq<byte>)
    requires Sextets(Values(src))
    ensures Split(src, 0, [], [])
  {
    assert src[0..] == src;
  }

  lemma BlankStep(src: seq<byte>, i: nat, whole: seq<int>, part: seq<int>)
    requires i < |src| && Split(src, i, whole, part) && Blank(src[i])
    ensures Split(src, i + 1, whole, part)
  {
    assert Values(src[i..]) == Values(src[i + 1..]) by {
      assert src[i..][1..] == src[i + 1..];
    }
  }

  lemma SplitDone(src: seq<byte>, i: nat, whole: seq<int>, part: seq<int>)
    requires Split(src, i, whole, part) && (i < |src| ==> src[i] == PAD)
    ensures Values(src) == whole + part
  {
    ConcatEmpty(whole + part);
  }

  lemma DigitStep(src: seq<byte>, i: nat, whole: seq<int>, part: seq<int>)
    requires i < |src| && Split(src, i, whole, part) && !Blank(src[i]) && src[i] != PAD
    ensures 0 <= DecValue(src[i]) < 64 && Split(src, i + 1, whole, part + [DecValue(src[i])])
  {
    var d, rest := DecValue(src[i]), Values(src[i + 1..]);
    assert Values(src[i..]) == [DecValue(src[i])] + Values(src[i + 1..]) by {
      assert src[i..][1..] == src[i + 1..];
    }
    ConcatAssoc(whole + part, [d], rest);
    ConcatAssoc(whole, part, [d]);
    assert d == Values(src)[|whole| + |part|];
  }

  /** A full group moves over to the whole ones. */
  lemma GroupStep(src: seq<byte>, i: nat, whole: seq<int>, part: seq<int>, g: nat)
    requires Split(src, i, whole, part) && |whole| == 4 * g && |part| == 4
    ensures Split(src, i, whole + part, [])
    ensures BytesOf(whole + part) == BytesOf(whole) + GroupBytes(part)
    ensures |BytesOf(whole)| + 3 <= |BytesOf(Values(src))|
  {
    assert BytesOf(whole + part) == BytesOf(whole) + GroupBytes(part)
        && 3 * g + 3 <= |BytesOf(whole + part + Values(src[i..]))| by {
      BytesAppend(whole, part, g);
      BytesAppend(whole + part, Values(src[i..]), g + 1);
    }
    BytesAppend(whole, [], g);
    ConcatEmpty(whole + part);
  }

  method Accumulate(x: nat, d: int, ghost part: seq<int>) returns (y: nat)
    requires Holds(x, part) && |part| < 4 && 0 <= d < 64
    ensures Holds(y, part + [d])
  {
    HoldsMore(x, part, d);
    y := (x * 64 + d) % WORD;
  }

  /** Where the second pass stands before position i of the text. */
  ghost predicate Decoding(src: seq<byte>, i: nat, x: int, digits: int, whole: seq<int>, part: seq<int>, g: nat) {
    Split(src, i, whole, part) && Holds(x, part) && |whole| == 4 * g && |part| == digits < 4
  }

  /** One digit, and the bytes of its group if it is the last of it. */
  method TakeDigit(dst: array?<byte>, src: seq<byte>, i: nat, p: nat, x: nat, digits: nat,
                   ghost whole: seq<int>, ghost part: seq<int>, ghost g: nat, ghost was: seq<byte>)
    returns (p': nat, x': nat, digits': nat, ghost whole': seq<int>, ghost part': seq<int>, ghost g': nat)
    requires i < |src| && !Blank(src[i]) && src[i] != PAD && Decoding(src, i, x, digits, whole, part, g)
    requires |was| == |Contents(dst)| && Room(dst, |BytesOf(Values(src))|)
    requires p == |BytesOf(whole)| && Written(dst, BytesOf(whole), was)
    modifies dst
    ensures Decoding(src, i + 1, x', digits', whole', part', g')
    ensures p' == |BytesOf(whole')| && Written(dst, BytesOf(whole'), was)
  {
    DigitStep(src, i, whole, part);
    x' := Accumulate(x, DecValue(src[i]), part);
    p', digits' := p, digits + 1;
    whole', part', g' := whole, part + [DecValue(src[i])], g;
    if digits' == 4 {
      GroupStep(src, i + 1, whole, part', g);
      assert GroupBytes(part') == [Byte2(x'), Byte1(x'), Byte0(x')] by {
        LowBytes(x', Number(part'));
      }
      PutBytes(dst, p, [Byte2(x'), Byte1(x'), Byte0(x')], BytesOf(whole), was);
      HoldsNone(x');
      whole', part', g' := whole + part', [], g + 1;
      p', digits' := p + 3, 0;
    }
  }

  /** The second pass over a checked text, as far as whole groups go. */
  method DecodeGroups(dst: array?<byte>, src: seq<byte>, ghost was: seq<byte>)
    returns (p: nat, x: nat, digits: nat, ghost whole: seq<int>, ghost part: seq<int>, ghost g: nat)
    requires Sextets(Values(src)) && Room(dst, |BytesOf(Values(src))|) && was == Contents(dst)
    modifies dst
    ensures Values(src) == whole + part && |whole| == 4 * g && |part| == digits < 4 && Holds(x, part)
    ensures p == |BytesOf(whole)| && Written(dst, BytesOf(whole), was)
  {
    var i := 0;
    p, x, digits, whole, part, g := 0, 0, 0, [], [], 0;
    HoldsNone(x);
    SplitStart(src);
    while i < |src|
      invariant Decoding(src, i, x, digits, whole, part, g)
      invariant p == |BytesOf(whole)| && Written(dst, BytesOf(whole), was)
    {
      if Blank(src[i]) {
        BlankStep(src, i, whole, part);
        i := i + 1;
        continue;
      }
      if src[i] == PAD {
        break;
      }
      p, x, digits, whole, part, g := TakeDigit(dst, src, i, p, x, digits, whole, part, g, was);
      i := i + 1;
    }
    SplitDone(src, i, whole, part);
  }

  /** The second pass. */
  method DecodePass(dst: array?<byte>, src: seq<byte>) returns (p: nat)
    requires Sextets(Values(src)) && Room(dst, |BytesOf(Values(src))|)
    modifies dst
    ensures p == |BytesOf(Values(src))|
    ensures dst != null ==> dst[..p] == BytesOf(Values(src)) && dst[p..] == old(dst[p..])
  {
    var x, digits;
    ghost var was, whole, part, g := Contents(dst), [], [], 0;
    p, x, digits, whole, part, g := DecodeGroups(dst, src, was);
    BytesAppend(whole, part, g);
    if digits == 3 {
      HoldsThree(x, part);
      var y := x * 64 % WORD;
      PutBytes(dst, p, [Byte2(y), Byte1(y)], BytesOf(whole), was);
      p := p + 2;
    } else if digits == 2 {
      HoldsTwo(x, part);
      PutBytes(dst, p, [Byte2(x * 4096 % WORD)], BytesOf(whole), was);
      p := p + 1;
    } else {
      ConcatEmpty(BytesOf(whole));
    }
    assert Written(dst, BytesOf(Values(src)), was);
  }

  /** Decodes into the buffer. The status is "invalid" exactly for the texts that
      have no decoding, and the check for corruption at the end never fires. */
  method Decode(dst: array?<byte>, dlen: nat, src: seq<byte>) returns (ret: Status, olen: nat)
    requires dst != null ==> dlen <= dst.Length
    modifies dst
    ensures ret == InvalidCharacter <==> Decoded(src) == Invalid
    ensures ret != InvalidCharacter ==> olen == |Decoded(src).bytes|
    ensures ret != InvalidCharacter ==> (ret == Success <==> olen <= dlen && (olen == 0 || dst != null))
    ensures ret == Success && dst != null ==> dst[..olen] == Decoded(src).bytes && dst[olen..] == old(dst[olen..])
    ensures ret != Success && dst != null ==> dst[..] == old(dst[..])
    ensures ret != CorruptionDetected
  {
    olen := 0;
    var c := CheckPass(src);
    if c.Bad? {
      return InvalidCharacter, olen;
    }
    if (c.n - c.equals) % 4 == 1 || c.n % 4 != 0 {
      return InvalidCharacter, olen;
    }
    ValuesCounted(src, false);
    LengthAgrees(src);
    olen := c.n / 4 * 3 - c.equals;
    if (olen != 0 && dst == null) || dlen < olen {
      return BufferTooSmall, olen;
    }
    var p := DecodePass(dst, src);
    ret := if olen != p then CorruptionDetected else Success;
  }
}
