/** Base64 as section 4 of RFC 4648 defines it, with the library's treatment of
    line ends and spaces. */
module Base64 {
  import opened Bytes

  const PAD: byte := 61
  const CR: byte := 13
  const LF: byte := 10
  const SPACE: byte := 32

  /** t if c lies in the range, and zero otherwise. */
  function InRangeIf(lo: int, hi: int, c: int, t: int): int {
    if lo <= c <= hi then t else 0
  }

  /** The digit for a six-bit value. At most one term is not zero, so the
      source's "or" of the terms is their sum. */
  function EncChar(value: byte): (c: byte)
    ensures value < 64 ==> DecValue(c) == value
  {
    InRangeIf(0, 25, value, 65 + value as int) + InRangeIf(26, 51, value, 97 + value as int - 26)
    + InRangeIf(52, 61, value, 48 + value as int - 52) + InRangeIf(62, 62, value, 43) + InRangeIf(63, 63, value, 47)
  }

  /** The value of a digit, -1 for any other character. */
  function DecValue(c: byte): (v: int)
    ensures -1 <= v < 64
    ensures v >= 0 ==> c < 128 && c != PAD && c != CR && c != LF && c != SPACE
  {
    var d: int := c;
    InRangeIf(65, 90, d, d - 65 + 1) + InRangeIf(97, 122, d, d - 97 + 26 + 1) + InRangeIf(48, 57, d, d - 48 + 52 + 1)
    + InRangeIf(43, 43, d, 63) + InRangeIf(47, 47, d, 64) - 1
  }

  /** The digit maps are inverse to each other. */
  lemma DigitsBijective(c: byte)
    requires DecValue(c) >= 0
    ensures EncChar(DecValue(c)) == c
  {
  }

  /** The Base64 alphabet, in the order of the values. */
  const UPPER := "ABCDEFGHIJKLMNOPQRSTUVWXYZ"
  const LOWER := "abcdefghijklmnopqrstuvwxyz"
  const ALPHABET := UPPER + LOWER + "0123456789+/"

  lemma Alphabet()
    ensures |UPPER| == 26 && |LOWER| == 26 && |ALPHABET| == 64
  {
  }

  lemma UpperCase(v: int)
    requires 0 <= v < 26
    ensures |UPPER| == 26 && UPPER[v] as int == 65 + v
  {
  }

  lemma LowerCase(v: int)
    requires 0 <= v < 26
    ensures |LOWER| == 26 && LOWER[v] as int == 97 + v
  {
  }

  lemma Letters(v: int)
    requires 0 <= v < 52
    ensures |UPPER| == |LOWER| == 26 && |ALPHABET| == 64
    ensures ALPHABET[v] == if v < 26 then UPPER[v] else LOWER[v - 26]
  {
    Alphabet();
  }

  lemma DigitsAndSigns(v: int)
    requires 52 <= v < 64
    ensures |ALPHABET| == 64 && ALPHABET[v] == "0123456789+/"[v - 52]
  {
    Alphabet();
  }

  /** The digit of a value is the character of the alphabet in that place. */
  lemma EncCharInAlphabet(v: byte)
    requires v < 64
    ensures |ALPHABET| == 64 && EncChar(v) == ALPHABET[v] as int
  {
    if v < 52 { Letters(v); } else { DigitsAndSigns(v); }
    if v < 26 { UpperCase(v); } else if v < 52 { LowerCase(v as int - 26); }
  }

  /** The value of a character is its place in the alphabet, if it has one. */
  lemma DecValueInAlphabet(c: byte)
    ensures |ALPHABET| == 64
    ensures DecValue(c) >= 0 <==> exists v :: 0 <= v < 64 && ALPHABET[v] as int == c
    ensures forall v :: 0 <= v < 64 && ALPHABET[v] as int == c ==> DecValue(c) == v
  {
    Alphabet();
    forall v | 0 <= v < 64 && ALPHABET[v] as int == c
      ensures DecValue(c) == v
    {
      EncCharInAlphabet(v);
      assert EncChar(v) == c;
    }
    if DecValue(c) >= 0 {
      DigitsBijective(c);
      EncCharInAlphabet(DecValue(c));
    }
  }

  // ---- the encoding ----

  /** The six-bit values of a group of one, two or three bytes. */
  function GroupValues(s: seq<byte>): (vs: seq<byte>)
    requires 1 <= |s| <= 3
    ensures |vs| == |s| + 1 && forall i :: 0 <= i < |vs| ==> vs[i] < 64
  {
    var b0: int := s[0];
    if |s| == 1 then [b0 / 4, b0 % 4 * 16]
    else
      var b1: int := s[1];
      if |s| == 2 then [b0 / 4, b0 % 4 * 16 + b1 / 16, b1 % 16 * 4]
      else
        var b2: int := s[2];
        [b0 / 4, b0 % 4 * 16 + b1 / 16, b1 % 16 * 4 + b2 / 64, b2 % 64]
  }

  function Digits(vs: seq<byte>): seq<byte> {
    seq(|vs|, i requires 0 <= i < |vs| => EncChar(vs[i]))
  }

  function Padding(n: nat): seq<byte> { seq(n, _ => PAD) }

  /** The four characters for a group. */
  function Group(s: seq<byte>): (g: seq<byte>)
    requires 1 <= |s| <= 3
    ensures |g| == 4
  {
    Digits(GroupValues(s)) + Padding(3 - |s|)
  }

  function Encoded(s: seq<byte>): seq<byte> {
    if |s| == 0 then []
    else if |s| <= 3 then Group(s)
    else Group(s[..3]) + Encoded(s[3..])
  }

  /** A digit of a number of four base-64 digits, the most significant first. */
  function Sextet(n: nat, i: nat): (d: int)
    requires i < 4
    ensures 0 <= d < 64
  {
    if i == 0 then n / 262144 % 64 else if i == 1 then n / 4096 % 64 else if i == 2 then n / 64 % 64 else n % 64
  }

  /** What the standard puts in place i for a group of one to three bytes: with zero
      bits appended to 24, the group is a number of four base-64 digits; the digits
      that have a bit of the group, in the alphabet, and then padding. */
  function StandardChar(s: seq<byte>, i: nat): int
    requires 1 <= |s| <= 3 && i < 4
  {
    Alphabet();
    if i <= |s| then ALPHABET[Sextet(BigEndian(s + Zeros(3 - |s|)), i)] as int else '=' as int
  }

  /** The digits of a number that is given by its digits. */
  lemma SextetsOf(d0: int, d1: int, d2: int, d3: int, n: int)
    requires 0 <= d0 < 64 && 0 <= d1 < 64 && 0 <= d2 < 64 && 0 <= d3 < 64
    requires n == 262144 * d0 + 4096 * d1 + 64 * d2 + d3
    ensures n >= 0 && Sextet(n, 0) == d0 && Sextet(n, 1) == d1 && Sextet(n, 2) == d2 && Sextet(n, 3) == d3
  {
    assert n / 262144 == d0;
    assert n / 4096 == 64 * d0 + d1;
    assert n / 64 == 4096 * d0 + 64 * d1 + d2;
  }

  lemma ThreeByteDigits(b0: byte, b1: byte, b2: byte, n: int)
    requires n == 0x1_0000 * (b0 as int) + 0x100 * (b1 as int) + b2 as int
    ensures n >= 0 && Sextet(n, 0) == b0 / 4 && Sextet(n, 1) == b0 % 4 * 16 + b1 / 16
    ensures Sextet(n, 2) == b1 % 16 * 4 + b2 / 64 && Sextet(n, 3) == b2 % 64
  {
    Regrouped(b0, b1, b2);
    var c0: int, c1: int, c2: int := b0, b1, b2;
    SextetsOf(c0 / 4, c0 % 4 * 16 + c1 / 16, c1 % 16 * 4 + c2 / 64, c2 % 64, n);
  }

  lemma BigEndianThree(s: seq<byte>)
    requires |s| == 3
    ensures BigEndian(s) == 0x1_0000 * (s[0] as int) + 0x100 * (s[1] as int) + s[2] as int
  {
    assert s[..2][..1] == s[..1] && s[..1][..0] == [];
    assert BigEndian(s[..1]) == s[0] as int;
    assert BigEndian(s[..2]) == 256 * BigEndian(s[..1]) + s[1] as int;
  }

  lemma GroupDigits(s: seq<byte>, i: nat)
    requires 1 <= |s| <= 3 && i <= |s|
    ensures GroupValues(s)[i] == Sextet(BigEndian(s + Zeros(3 - |s|)), i)
  {
    var t := s + Zeros(3 - |s|);
    BigEndianThree(t);
    ThreeByteDigits(t[0], t[1], t[2], BigEndian(t));
    GroupPadded(s, t, i);
  }

  lemma GroupPadded(s: seq<byte>, t: seq<byte>, i: nat)
    requires 1 <= |s| <= 3 && i <= |s| && t == s + Zeros(3 - |s|)
    ensures GroupValues(s)[i] == GroupValues(t)[i]
  {
  }

  /** Every group is what the standard says. */
  lemma GroupMeetsStandard(s: seq<byte>, i: nat)
    requires 1 <= |s| <= 3 && i < 4
    ensures Group(s)[i] == StandardChar(s, i)
  {
    if i <= |s| {
      GroupDigits(s, i);
      EncCharInAlphabet(GroupValues(s)[i]);
    }
  }

  function Least(a: nat, b: nat): nat { if a <= b then a else b }

  /** Group k of a sequence that is cut into groups of size. */
  function Piece<T>(s: seq<T>, size: nat, k: nat): seq<T>
    requires size * k <= |s|
  {
    s[size * k..Least(size * k + size, |s|)]
  }

  lemma FirstPiece<T>(s: seq<T>, size: nat)
    ensures Piece(s, size, 0) == s[..Least(size, |s|)]
  {
  }

  lemma LaterPiece<T>(s: seq<T>, size: nat, k: nat)
    requires 0 < k && size * k <= |s|
    ensures size <= |s| && size * (k - 1) <= |s| - size && Piece(s[size..], size, k - 1) == Piece(s, size, k)
  {
    assert size * (k - 1) + size == size * k;
    assert size * (k - 1) >= 0;
  }

  predicate IsPart(all: seq<byte>, at: nat, part: seq<byte>) {
    at + |part| <= |all| && all[at..at + |part|] == part
  }

  lemma PartAt(all: seq<byte>, at: nat, part: seq<byte>, i: nat)
    requires IsPart(all, at, part) && i < |part|
    ensures all[at + i] == part[i]
  {
    assert all[at + i] == all[at..at + |part|][i];
  }

  lemma PartInFront(a: seq<byte>, b: seq<byte>)
    ensures IsPart(a + b, 0, a)
  {
  }

  lemma PartBehind(a: seq<byte>, b: seq<byte>, at: nat, part: seq<byte>)
    requires IsPart(b, at, part)
    ensures IsPart(a + b, |a| + at, part)
  {
    assert (a + b)[|a| + at..|a| + at + |part|] == b[at..at + |part|];
  }

  lemma EncodedFirst(s: seq<byte>)
    requires s != []
    ensures Encoded(s) == Group(s[..Least(3, |s|)]) + Encoded(s[Least(3, |s|)..])
  {
    if |s| <= 3 {
      assert s[..|s|] == s && s[|s|..] == [];
      ConcatEmpty(Group(s));
    }
  }

  lemma EncodedStarts(s: seq<byte>)
    requires s != []
    ensures IsPart(Encoded(s), 0, Group(Piece(s, 3, 0)))
  {
    EncodedFirst(s);
    FirstPiece(s, 3);
    PartInFront(Group(s[..Least(3, |s|)]), Encoded(s[Least(3, |s|)..]));
  }

  lemma EncodedGoesOn(s: seq<byte>, at: nat, part: seq<byte>)
    requires |s| >= 3 && IsPart(Encoded(s[3..]), at, part)
    ensures IsPart(Encoded(s), 4 + at, part)
  {
    EncodedFirst(s);
    PartBehind(Group(s[..3]), Encoded(s[3..]), at, part);
  }

  /** The groups follow each other in order. */
  lemma {:induction false} EncodedPieces(s: seq<byte>, k: nat)
    requires 3 * k < |s|
    ensures IsPart(Encoded(s), 4 * k, Group(Piece(s, 3, k)))
    decreases k
  {
    if k == 0 {
      EncodedStarts(s);
    } else {
      LaterPiece(s, 3, k);
      EncodedPieces(s[3..], k - 1);
      EncodedGoesOn(s, 4 * (k - 1), Group(Piece(s, 3, k)));
    }
  }

  /** And so is every character of the encoding. */
  lemma EncodedMeetsStandard(s: seq<byte>, k: nat, i: nat)
    requires 3 * k < |s| && i < 4
    ensures 4 * k + i < |Encoded(s)| && Encoded(s)[4 * k + i] == StandardChar(Piece(s, 3, k), i)
  {
    EncodedPieces(s, k);
    GroupMeetsStandard(Piece(s, 3, k), i);
    PartAt(Encoded(s), 4 * k, Group(Piece(s, 3, k)), i);
  }

  /** The length is four for every three bytes or part of them. */
  lemma {:induction false} EncodedLength(s: seq<byte>)
    ensures |Encoded(s)| == 4 * ((|s| + 2) / 3)
  {
    if |s| > 3 {
      EncodedLength(s[3..]);
      assert (|s| + 2) / 3 == 1 + (|s| - 3 + 2) / 3;
    }
  }

  // ---- the decoding ----

  datatype Checked = Bad | Good(n: nat, equals: nat)

  function Count(c: Checked): Checked {
    if c.Good? then Good(c.n + 1, c.equals) else Bad
  }

  /** The first pass: how many digits and padding characters there are. Spaces
      may only stand before a line end or at the end; padding only at the end,
      at most two of it. */
  function Check(s: seq<byte>, spaces: bool, equals: nat): Checked {
    if |s| == 0 then Good(0, equals)
    else if s[0] == SPACE then Check(s[1..], true, equals)
    else if |s| >= 2 && s[0] == CR && s[1] == LF then Check(s[1..], false, equals)
    else if s[0] == LF then Check(s[1..], false, equals)
    else if spaces || s[0] > 127 then Bad
    else if s[0] == PAD then
      if equals + 1 > 2 then Bad else Count(Check(s[1..], false, equals + 1))
    else if equals != 0 || DecValue(s[0]) < 0 then Bad
    else Count(Check(s[1..], false, equals))
  }

  predicate Blank(c: byte) { c == CR || c == LF || c == SPACE }

  /** The second pass: the values of the digits up to the padding. */
  function Values(s: seq<byte>): seq<int> {
    if |s| == 0 || s[0] == PAD then []
    else if Blank(s[0]) then Values(s[1..])
    else [DecValue(s[0])] + Values(s[1..])
  }

  /** The number that at most four digits make up. */
  function Number(vs: seq<int>): int
    requires |vs| <= 4
  {
    if |vs| == 0 then 0
    else if |vs| == 1 then vs[0]
    else if |vs| == 2 then vs[0] * 64 + vs[1]
    else if |vs| == 3 then vs[0] * 4096 + vs[1] * 64 + vs[2]
    else vs[0] * 262144 + vs[1] * 4096 + vs[2] * 64 + vs[3]
  }

  function Byte2(x: int): byte { x / 0x1_0000 % 0x100 }
  function Byte1(x: int): byte { x / 0x100 % 0x100 }
  function Byte0(x: int): byte { x % 0x100 }

  /** The bytes for a group of at most four digits. */
  function GroupBytes(vs: seq<int>): seq<byte>
    requires |vs| <= 4
  {
    var x := Number(vs);
    if |vs| == 4 then [Byte2(x), Byte1(x), Byte0(x)]
    else if |vs| == 3 then [Byte2(x * 64), Byte1(x * 64)]
    else if |vs| == 2 then [Byte2(x * 4096)]
    else []
  }

  function BytesOf(vs: seq<int>): seq<byte> {
    if |vs| <= 4 then GroupBytes(vs) else GroupBytes(vs[..4]) + BytesOf(vs[4..])
  }

  datatype Outcome = Invalid | Payload(bytes: seq<byte>)

  /** A count of characters and padding that complete groups can have. */
  predicate WholeGroups(n: nat, equals: nat) {
    (n - equals) % 4 != 1 && n % 4 == 0
  }

  /** What decoding a text gives. */
  function Decoded(s: seq<byte>): Outcome {
    match Check(s, false, 0)
    case Bad => Invalid
    case Good(n, equals) =>
      if WholeGroups(n, equals) then Payload(BytesOf(Values(s))) else Invalid
  }

  // ---- which texts the first pass accepts ----

  /** The character is the one in place v of the alphabet. */
  predicate InPlace(v: int, c: byte) {
    Alphabet();
    0 <= v < 64 && ALPHABET[v] as int == c
  }

  /** A character of the alphabet. */
  ghost predicate IsDigit(c: byte) { exists v :: InPlace(v, c) }

  /** The character in place i may stand there: a digit, padding or a line feed
      anywhere, a carriage return before a line feed, a space before another one,
      before a line end or at the end. */
  ghost predicate CharAllowed(s: seq<byte>, i: nat)
    requires i < |s|
  {
    var c := s[i] as char;
    if c == ' ' then i + 1 == |s| || s[i + 1] as char in {' ', '\n', '\r'}
    else if c == '\r' then i + 1 < |s| && s[i + 1] as char == '\n'
    else c == '\n' || c == '=' || IsDigit(s[i])
  }

  /** The number of padding characters. */
  function Pads(s: seq<byte>): nat {
    if |s| == 0 then 0 else (if s[0] as char == '=' then 1 else 0) + Pads(s[1..])
  }

  /** No digit behind padding. */
  ghost predicate PaddingLast(s: seq<byte>) {
    forall i, j :: 0 <= i < j < |s| && s[i] as char == '=' ==> !IsDigit(s[j])
  }

  ghost predicate NoDigits(s: seq<byte>) { forall i :: 0 <= i < |s| ==> !IsDigit(s[i]) }

  ghost predicate AllAllowed(s: seq<byte>) { forall i :: 0 <= i < |s| ==> CharAllowed(s, i) }

  /** What the pass accepts when it has just seen a space or not, and some padding. */
  ghost predicate Accepts(s: seq<byte>, spaces: bool, equals: nat) {
    && AllAllowed(s) && PaddingLast(s) && equals + Pads(s) <= 2 && (equals > 0 ==> NoDigits(s))
    && (spaces && s != [] ==> s[0] as char in {' ', '\n', '\r'})
  }

  lemma AllowedCons(s: seq<byte>)
    requires s != []
    ensures AllAllowed(s) <==> CharAllowed(s, 0) && AllAllowed(s[1..])
  {
    forall i | 1 <= i < |s|
      ensures CharAllowed(s, i) <==> CharAllowed(s[1..], i - 1)
    {
      assert s[i] == s[1..][i - 1];
    }
    if CharAllowed(s, 0) && AllAllowed(s[1..]) {
      forall i | 0 <= i < |s|
        ensures CharAllowed(s, i)
      {
        if i > 0 { assert CharAllowed(s[1..], i - 1); }
      }
    }
    if AllAllowed(s) {
      forall i | 0 <= i < |s| - 1
        ensures CharAllowed(s[1..], i)
      {
        assert CharAllowed(s, i + 1);
      }
    }
  }

  lemma PaddingCons(s: seq<byte>)
    requires s != []
    ensures PaddingLast(s) <==> PaddingLast(s[1..]) && (s[0] as char == '=' ==> NoDigits(s[1..]))
    ensures NoDigits(s) <==> !IsDigit(s[0]) && NoDigits(s[1..])
  {
    assert forall i :: 1 <= i < |s| ==> s[i] == s[1..][i - 1];
    if PaddingLast(s) {
      forall i, j | 0 <= i < j < |s[1..]| && s[1..][i] as char == '='
        ensures !IsDigit(s[1..][j])
      {
        assert s[i + 1] == s[1..][i] && s[j + 1] == s[1..][j];
      }
      if s[0] as char == '=' {
        forall j | 0 <= j < |s[1..]|
          ensures !IsDigit(s[1..][j])
        {
          assert s[j + 1] == s[1..][j];
        }
      }
    }
  }

  lemma DigitIff(c: byte)
    ensures IsDigit(c) <==> DecValue(c) >= 0
  {
    DecValueInAlphabet(c);
    if DecValue(c) >= 0 { assert InPlace(DecValue(c), c); }
    if IsDigit(c) {
      var v :| InPlace(v, c);
    }
  }

  /** The first step of the pass. */
  lemma CheckFirst(s: seq<byte>, spaces: bool, equals: nat)
    requires s != [] && equals <= 2
    ensures var c, lineEnd := s[0], s[0] == LF || (|s| >= 2 && s[0] == CR && s[1] == LF);
            Check(s, spaces, equals).Good? <==>
              if c == SPACE then Check(s[1..], true, equals).Good?
              else if lineEnd then Check(s[1..], false, equals).Good?
              else if spaces then false
              else if c == PAD then equals < 2 && Check(s[1..], false, equals + 1).Good?
              else equals == 0 && DecValue(c) >= 0 && Check(s[1..], false, equals).Good?
  {
  }

  /** The same of what it accepts. */
  lemma AcceptsFirst(s: seq<byte>, spaces: bool, equals: nat)
    requires s != [] && equals <= 2
    ensures var c, lineEnd := s[0], s[0] == LF || (|s| >= 2 && s[0] == CR && s[1] == LF);
            Accepts(s, spaces, equals) <==>
              if c == SPACE then Accepts(s[1..], true, equals)
              else if lineEnd then Accepts(s[1..], false, equals)
              else if spaces then false
              else if c == PAD then equals < 2 && Accepts(s[1..], false, equals + 1)
              else equals == 0 && DecValue(c) >= 0 && Accepts(s[1..], false, equals)
  {
    AllowedCons(s);
    PaddingCons(s);
    DigitIff(s[0]);
  }

  /** The first pass accepts a text exactly if every character may stand where it
      stands, no digit comes behind padding, and there are at most two padding
      characters. */
  lemma {:induction false} CheckIff(s: seq<byte>, spaces: bool, equals: nat)
    requires equals <= 2
    ensures Check(s, spaces, equals).Good? <==> Accepts(s, spaces, equals)
    decreases |s|
  {
    if |s| == 0 {
      assert Accepts([], spaces, equals) <==> equals <= 2;
    } else {
      CheckFirst(s, spaces, equals);
      AcceptsFirst(s, spaces, equals);
      if s[0] == PAD && equals < 2 {
        CheckIff(s[1..], false, equals + 1);
      } else {
        CheckIff(s[1..], s[0] == SPACE, equals);
      }
    }
  }

  /** The digits of a text, in order. */
  ghost function DigitsIn(s: seq<byte>): seq<byte> {
    if |s| == 0 then [] else (if IsDigit(s[0]) then [s[0]] else []) + DigitsIn(s[1..])
  }

  /** These values are the places of these digits in the alphabet. */
  ghost predicate AreValues(vs: seq<int>, ds: seq<byte>) {
    |vs| == |ds| && forall i :: 0 <= i < |vs| ==> InPlace(vs[i], ds[i])
  }

  lemma ValueInPlace(d: byte)
    requires IsDigit(d)
    ensures InPlace(DecValue(d), d)
  {
    DecValueInAlphabet(d);
  }

  lemma AreValuesCons(v: int, d: byte, vs: seq<int>, ds: seq<byte>)
    requires InPlace(v, d) && AreValues(vs, ds)
    ensures AreValues([v] + vs, [d] + ds)
  {
  }

  lemma {:induction false} NoDigitsIn(s: seq<byte>)
    requires NoDigits(s)
    ensures DigitsIn(s) == []
  {
    if |s| > 0 {
      PaddingCons(s);
      NoDigitsIn(s[1..]);
    }
  }

  /** The second pass takes the digits of an accepted text, all of them and in order,
      and the first pass has counted them and the padding. */
  lemma {:induction false} ValuesAreDigits(s: seq<byte>, spaces: bool)
    requires Check(s, spaces, 0).Good?
    ensures AreValues(Values(s), DigitsIn(s))
    ensures Check(s, spaces, 0) == Good(|DigitsIn(s)| + Pads(s), Pads(s))
    decreases |s|
  {
    if |s| > 0 {
      var c := s[0];
      DigitIff(c);
      if c == PAD {
        CheckIff(s, spaces, 0);
        PaddingCons(s);
        NoDigitsIn(s[1..]);
        PaddingCounted(s[1..], false, 1);
      } else if c == SPACE || c == LF || c == CR {
        ValuesAreDigits(s[1..], c == SPACE);
      } else {
        ValuesAreDigits(s[1..], false);
        ValueInPlace(c);
        AreValuesCons(DecValue(c), c, Values(s[1..]), DigitsIn(s[1..]));
      }
    }
  }

  lemma {:induction false} PaddingCounted(s: seq<byte>, spaces: bool, equals: nat)
    requires equals > 0 && Check(s, spaces, equals).Good?
    ensures Check(s, spaces, equals) == Good(Pads(s), equals + Pads(s))
    decreases |s|
  {
    if |s| > 0 {
      DigitIff(s[0]);
      PaddingCounted(s[1..], s[0] == SPACE, if s[0] == PAD then equals + 1 else equals);
    }
  }

  lemma InFours(digits: nat, pads: nat)
    requires pads <= 2
    ensures WholeGroups(digits + pads, pads) <==> (digits + pads) % 4 == 0
  {
  }

  /** Which texts decode: those with digits, padding, line ends and spaces where they
      may stand, and digits and padding in fours. */
  lemma DecodesIff(s: seq<byte>)
    ensures Decoded(s).Payload? <==>
              AllAllowed(s) && PaddingLast(s) && Pads(s) <= 2 && (|DigitsIn(s)| + Pads(s)) % 4 == 0
  {
    CheckIff(s, false, 0);
    if Check(s, false, 0).Good? {
      ValuesAreDigits(s, false);
      InFours(|DigitsIn(s)|, Pads(s));
    }
  }

  /** The number that some base-64 digits make up, the most significant first. */
  function FromDigits(vs: seq<int>): int {
    if |vs| == 0 then 0 else 64 * FromDigits(vs[..|vs| - 1]) + vs[|vs| - 1]
  }

  lemma FourDigits(vs: seq<int>)
    requires |vs| == 4
    ensures FromDigits(vs) == 262144 * vs[0] + 4096 * vs[1] + 64 * vs[2] + vs[3]
  {
    assert vs[..3][..2] == vs[..2] && vs[..2][..1] == vs[..1] && vs[..1][..0] == [];
    assert FromDigits(vs[..1]) == vs[0] && FromDigits(vs[..2]) == 64 * vs[0] + vs[1];
    assert FromDigits(vs[..3]) == 64 * FromDigits(vs[..2]) + vs[2];
  }

  predicate Sextets(vs: seq<int>) {
    forall i :: 0 <= i < |vs| ==> 0 <= vs[i] < 64
  }

  lemma ThreeBytesOf(x: nat)
    requires x < 0x100_0000
    ensures BigEndian([Byte2(x), Byte1(x), Byte0(x)]) == x
  {
    BigEndianThree([Byte2(x), Byte1(x), Byte0(x)]);
  }

  /** The bytes of a group by the standard: with zero digits appended to four, the
      digits are a number of 24 bits, and the bytes are those of it that have only
      bits of the group. */
  lemma GroupBytesMeetStandard(vs: seq<int>)
    requires 2 <= |vs| <= 4 && Sextets(vs)
    ensures |GroupBytes(vs)| == |vs| - 1
    ensures exists rest: seq<byte> ::
              |rest| == 4 - |vs| && BigEndian(GroupBytes(vs) + rest) == FromDigits(vs + Zeros(4 - |vs|))
  {
    var all: seq<int> := vs + Zeros(4 - |vs|);
    FourDigits(all);
    var x := FromDigits(all);
    ThreeBytesOf(x);
    var bytes: seq<byte> := [Byte2(x), Byte1(x), Byte0(x)];
    var rest := bytes[|vs| - 1..];
    assert GroupBytes(vs) + rest == bytes;
  }

  lemma BytesOfFirst(vs: seq<int>)
    requires vs != []
    ensures BytesOf(vs) == GroupBytes(vs[..Least(4, |vs|)]) + BytesOf(vs[Least(4, |vs|)..])
    ensures |vs| >= 4 ==> |GroupBytes(vs[..4])| == 3
  {
    if |vs| <= 4 {
      assert vs[..|vs|] == vs && vs[|vs|..] == [];
      ConcatEmpty(GroupBytes(vs));
    }
  }

  lemma BytesGoOn(vs: seq<int>, at: nat, part: seq<byte>)
    requires |vs| >= 4 && IsPart(BytesOf(vs[4..]), at, part)
    ensures IsPart(BytesOf(vs), 3 + at, part)
  {
    BytesOfFirst(vs);
    PartBehind(GroupBytes(vs[..4]), BytesOf(vs[4..]), at, part);
  }

  /** The groups of digits follow each other in order. */
  lemma {:induction false} BytesOfPieces(vs: seq<int>, k: nat)
    requires 4 * k < |vs|
    ensures IsPart(BytesOf(vs), 3 * k, GroupBytes(Piece(vs, 4, k)))
    decreases k
  {
    if k == 0 {
      assert IsPart(BytesOf(vs), 0, GroupBytes(Piece(vs, 4, 0))) by {
        BytesOfFirst(vs);
        FirstPiece(vs, 4);
        PartInFront(GroupBytes(vs[..Least(4, |vs|)]), BytesOf(vs[Least(4, |vs|)..]));
      }
    } else {
      LaterPiece(vs, 4, k);
      BytesOfPieces(vs[4..], k - 1);
      BytesGoOn(vs, 3 * (k - 1), GroupBytes(Piece(vs, 4, k)));
    }
  }

  // ---- the lengths agree ----

  lemma {:induction false} OnlyPadding(s: seq<byte>, spaces: bool, equals: nat)
    requires equals > 0 && Check(s, spaces, equals).Good?
    ensures var c := Check(s, spaces, equals); c.n + equals == c.equals <= 2 || (c.n == 0 && c.equals == equals)
    decreases |s|
  {
    if |s| > 0 {
      if s[0] == SPACE { OnlyPadding(s[1..], true, equals); }
      else if s[0] == CR || s[0] == LF { OnlyPadding(s[1..], false, equals); }
      else { OnlyPadding(s[1..], false, equals + 1); }
    }
  }

  /** The second pass sees the digits the first pass counted. */
  lemma {:induction false} ValuesCounted(s: seq<byte>, spaces: bool)
    requires Check(s, spaces, 0).Good?
    ensures var c := Check(s, spaces, 0);
            c.equals <= 2 && c.n == |Values(s)| + c.equals
            && forall i :: 0 <= i < |Values(s)| ==> 0 <= Values(s)[i] < 64
    decreases |s|
  {
    if |s| > 0 {
      if s[0] == SPACE { ValuesCounted(s[1..], true); }
      else if s[0] == CR || s[0] == LF { ValuesCounted(s[1..], false); }
      else if s[0] == PAD { OnlyPadding(s[1..], false, 1); }
      else { ValuesCounted(s[1..], false); }
    }
  }

  lemma {:induction false} BytesLength(vs: seq<int>)
    ensures |BytesOf(vs)| == |vs| / 4 * 3 + (if |vs| % 4 == 3 then 2 else if |vs| % 4 == 2 then 1 else 0)
  {
    if |vs| > 4 { BytesLength(vs[4..]); }
  }

  /** The length announced after the first pass is the length written by the
      second: the check at the end of the decoder never fires. */
  lemma LengthAgrees(s: seq<byte>)
    requires Decoded(s).Payload?
    ensures var c := Check(s, false, 0); |Decoded(s).bytes| == c.n / 4 * 3 - c.equals
  {
    ValuesCounted(s, false);
    BytesLength(Values(s));
  }

  // ---- the round trip ----

  function CountMore(c: Checked, n: nat): Checked {
    if c.Good? then Good(c.n + n, c.equals) else Bad
  }

  /** What both passes make of a text: these values, then those of the rest. */
  predicate Passes(text: seq<byte>, vs: seq<int>, rest: seq<byte>) {
    Check(text, false, 0) == CountMore(Check(rest, false, 0), |vs|) && Values(text) == vs + Values(rest)
  }

  lemma PassesOne(c: byte, text: seq<byte>, vs: seq<int>, rest: seq<byte>)
    requires DecValue(c) >= 0 && Passes(text, vs, rest)
    ensures Passes([c] + text, [DecValue(c)] + vs, rest)
  {
    assert ([c] + text)[1..] == text;
    assert Check([c] + text, false, 0) == Count(Check(text, false, 0));
    assert Values([c] + text) == [DecValue(c)] + Values(text);
    ConcatAssoc([DecValue(c)], vs, Values(rest));
  }

  lemma PassesCons(vs: seq<byte>, rest: seq<byte>)
    requires |vs| > 0 && vs[0] < 64 && Passes(Digits(vs[1..]) + rest, vs[1..], rest)
    ensures Passes(Digits(vs) + rest, vs, rest)
  {
    assert DecValue(EncChar(vs[0])) == vs[0];
    assert Digits(vs) + rest == [EncChar(vs[0])] + (Digits(vs[1..]) + rest);
    PassesOne(EncChar(vs[0]), Digits(vs[1..]) + rest, vs[1..], rest);
    assert vs == [vs[0]] + vs[1..];
  }

  /** Both passes over the digits of some values. */
  lemma {:induction false} CheckDigits(vs: seq<byte>, rest: seq<byte>)
    requires forall i :: 0 <= i < |vs| ==> vs[i] < 64
    ensures Passes(Digits(vs) + rest, vs, rest)
    decreases |vs|
  {
    if |vs| == 0 {
      assert Digits(vs) + rest == rest;
      assert Passes(rest, [], rest) by {
        assert [] + Values(rest) == Values(rest);
      }
    } else {
      CheckDigits(vs[1..], rest);
      PassesCons(vs, rest);
    }
  }

  lemma CheckPadding(n: nat)
    requires n <= 2
    ensures Check(Padding(n), false, 0) == Good(n, n) && Values(Padding(n)) == []
  {
    if n == 1 {
      assert Padding(1)[1..] == [];
      assert Check([], false, 1) == Good(0, 1);
    } else if n == 2 {
      assert Padding(2)[1..] == Padding(1) && Padding(1)[1..] == [];
      assert Check([], false, 2) == Good(0, 2);
      assert Check(Padding(1), false, 1) == Good(1, 2);
    }
  }

  /** Six bits at a time and eight bits at a time are the same number. */
  lemma Regrouped(b0: byte, b1: byte, b2: byte)
    ensures b0 / 4 * 262144 + (b0 % 4 * 16 + b1 / 16) * 4096 + (b1 % 16 * 4 + b2 / 64) * 64 + b2 % 64
         == b0 * 0x1_0000 + b1 * 0x100 + b2
  {
    var c0: int, c1: int, c2: int := b0, b1, b2;
    assert c0 == c0 / 4 * 4 + c0 % 4 && c1 == c1 / 16 * 16 + c1 % 16 && c2 == c2 / 64 * 64 + c2 % 64;
  }

  lemma ThreeBytes(b0: byte, b1: byte, b2: byte)
    ensures var x := b0 * 0x1_0000 + b1 * 0x100 + b2; Byte2(x) == b0 && Byte1(x) == b1 && Byte0(x) == b2
  {
  }

  /** The bytes of a group come back from its values. */
  lemma GroupRoundTrip(s: seq<byte>)
    requires 1 <= |s| <= 3
    ensures GroupBytes(GroupValues(s)) == s
  {
    var b1: byte, b2: byte := if |s| > 1 then s[1] else 0, if |s| > 2 then s[2] else 0;
    Regrouped(s[0], b1, b2);
    ThreeBytes(s[0], b1, b2);
  }

  /** All the values of an encoding. */
  function AllValues(s: seq<byte>): seq<int> {
    if |s| == 0 then []
    else if |s| <= 3 then GroupValues(s)
    else GroupValues(s[..3]) + AllValues(s[3..])
  }

  /** How many padding characters n bytes need. */
  function Pad(n: nat): (p: nat)
    ensures p <= 2
  {
    if n == 0 then 0 else if n <= 3 then 3 - n else Pad(n - 3)
  }

  lemma EncodedFront(s: seq<byte>)
    requires |s| > 0
    ensures |s| <= 3 ==> Encoded(s) == Digits(GroupValues(s)) + Padding(3 - |s|)
    ensures |s| > 3 ==> Encoded(s) == Digits(GroupValues(s[..3])) + Encoded(s[3..])
  {
    if |s| > 3 {
      var d := Digits(GroupValues(s[..3]));
      assert d + Padding(0) == d;
    }
  }

  /** Both passes over an encoding. */
  lemma {:induction false} PassesOverEncoded(s: seq<byte>)
    ensures Check(Encoded(s), false, 0) == Good(|Encoded(s)|, Pad(|s|))
    ensures Values(Encoded(s)) == AllValues(s)
  {
    if |s| > 0 {
      EncodedFront(s);
      if |s| <= 3 {
        CheckPadding(3 - |s|);
        CheckDigits(GroupValues(s), Padding(3 - |s|));
        assert GroupValues(s) + [] == GroupValues(s);
      } else {
        PassesOverEncoded(s[3..]);
        CheckDigits(GroupValues(s[..3]), Encoded(s[3..]));
      }
    }
  }

  lemma PadLegal(q: nat, pad: nat)
    requires pad <= 2
    ensures WholeGroups(4 * q, pad)
  {
    if pad == 1 {
      assert 4 * q - pad == 4 * (q - 1) + 3;
    } else if pad == 2 {
      assert 4 * q - pad == 4 * (q - 1) + 2;
    }
  }

  lemma {:induction false} BytesOfAllValues(s: seq<byte>)
    ensures BytesOf(AllValues(s)) == s
  {
    if 0 < |s| <= 3 {
      GroupRoundTrip(s);
    } else if |s| > 3 {
      BytesOfAllValues(s[3..]);
      GroupRoundTrip(s[..3]);
      var g, rest := GroupValues(s[..3]), AllValues(s[3..]);
      assert (g + rest)[..4] == g && (g + rest)[4..] == rest;
      assert s == s[..3] + s[3..];
    }
  }

  /** Decoding undoes encoding. */
  lemma {:induction false} RoundTrip(s: seq<byte>)
    ensures Decoded(Encoded(s)) == Payload(s)
  {
    PassesOverEncoded(s);
    BytesOfAllValues(s);
    assert WholeGroups(|Encoded(s)|, Pad(|s|)) by {
      EncodedLength(s);
      PadLegal((|s| + 2) / 3, Pad(|s|));
    }
  }

  // ---- line ends ----

  function Insert(s: seq<byte>, k: nat, eol: seq<byte>): seq<byte>
    requires k <= |s|
  {
    s[..k] + eol + s[k..]
  }

  /** Position k is between a carriage return and its line feed. */
  predicate SplitsLineEnd(s: seq<byte>, k: nat) {
    0 < k < |s| && s[k - 1] == CR && s[k] == LF
  }

  lemma LineEndSkipped(eol: seq<byte>, s: seq<byte>, spaces: bool, equals: nat)
    requires eol == [LF] || eol == [CR, LF]
    ensures Check(eol + s, spaces, equals) == Check(s, false, equals) && Values(eol + s) == Values(s)
  {
    assert (eol + s)[1..] == if eol == [LF] then s else [LF] + s;
    assert ([LF] + s)[1..] == s;
  }

  /** The second pass does not see line ends at all. */
  lemma {:induction false} ValuesInsert(s: seq<byte>, k: nat, eol: seq<byte>)
    requires k <= |s| && (eol == [LF] || eol == [CR, LF])
    ensures Values(Insert(s, k, eol)) == Values(s)
    decreases |s|
  {
    var t := Insert(s, k, eol);
    if k == 0 {
      assert t == eol + s;
      LineEndSkipped(eol, s, false, 0);
    } else {
      assert t[1..] == Insert(s[1..], k - 1, eol) && t[0] == s[0];
      ValuesInsert(s[1..], k - 1, eol);
    }
  }

  /** The state of the first pass behind its first character. */
  function AfterFirst(c: byte, equals: nat): (bool, nat) {
    (c == SPACE, if c == PAD then equals + 1 else equals)
  }

  /** The first pass over two texts that start alike and go on alike. */
  lemma CheckAlike(s: seq<byte>, t: seq<byte>, spaces: bool, equals: nat)
    requires |s| > 0 && |t| > 0 && s[0] == t[0] && Check(s, spaces, equals).Good?
    requires s[0] == CR ==> |t| >= 2 && t[1] == LF
    requires var (sp, eq) := AfterFirst(s[0], equals); Check(t[1..], sp, eq) == Check(s[1..], sp, eq)
    ensures Check(t, spaces, equals) == Check(s, spaces, equals)
  {
  }

  lemma GoodBehindFirst(s: seq<byte>, spaces: bool, equals: nat)
    requires |s| > 0 && Check(s, spaces, equals).Good?
    ensures var (sp, eq) := AfterFirst(s[0], equals); Check(s[1..], sp, eq).Good?
    ensures s[0] == CR ==> |s| >= 2 && s[1] == LF
  {
  }

  lemma InsertBehind(s: seq<byte>, k: nat, eol: seq<byte>)
    requires 0 < k <= |s| && !SplitsLineEnd(s, k) && |eol| > 0
    ensures var t := Insert(s, k, eol); t[1..] == Insert(s[1..], k - 1, eol) && t[0] == s[0]
    ensures !SplitsLineEnd(s[1..], k - 1)
    ensures |s| >= 2 && s[0] == CR && s[1] == LF ==> Insert(s, k, eol)[1] == LF
  {
  }

  /** A line end put into a text that decodes, but not into the middle of a
      carriage return and line feed, does not change the first pass. */
  lemma {:induction false} CheckInsert(s: seq<byte>, k: nat, eol: seq<byte>, spaces: bool, equals: nat)
    requires k <= |s| && (eol == [LF] || eol == [CR, LF]) && !SplitsLineEnd(s, k)
    requires Check(s, spaces, equals).Good?
    ensures Check(Insert(s, k, eol), spaces, equals) == Check(s, spaces, equals)
    decreases |s|
  {
    var t := Insert(s, k, eol);
    if k == 0 {
      assert t == eol + s;
      LineEndSkipped(eol, s, spaces, equals);
      if spaces { assert Check(s, false, equals) == Check(s, true, equals); }
    } else {
      GoodBehindFirst(s, spaces, equals);
      InsertBehind(s, k, eol);
      var (sp, eq) := AfterFirst(s[0], equals);
      CheckInsert(s[1..], k - 1, eol, sp, eq);
      CheckAlike(s, t, spaces, equals);
    }
  }

  /** A carriage return and line feed put between another such pair leaves a
      carriage return alone, and that is not a digit. */
  lemma {:induction false} CheckSplit(s: seq<byte>, k: nat, spaces: bool, equals: nat)
    requires SplitsLineEnd(s, k) && Check(s, spaces, equals).Good?
    ensures Check(Insert(s, k, [CR, LF]), spaces, equals) == Bad
    decreases k
  {
    var t := Insert(s, k, [CR, LF]);
    if k == 1 {
      assert t[0] == CR && t[1] == CR;
    } else {
      GoodBehindFirst(s, spaces, equals);
      var (sp, eq) := AfterFirst(s[0], equals);
      assert t[1..] == Insert(s[1..], k - 1, [CR, LF]) && t[0] == s[0] && t[1] == s[1];
      CheckSplit(s[1..], k - 1, sp, eq);
      assert Check(t[1..], sp, eq) == Bad;
    }
  }

  /** A line end put anywhere into a text that decodes leaves what it decodes to
      alone, except for one place: a carriage return and line feed may not be
      put between a carriage return and its line feed. */
  lemma LineEndsIgnoredIff(s: seq<byte>, k: nat, eol: seq<byte>)
    requires k <= |s| && (eol == [LF] || eol == [CR, LF]) && Decoded(s).Payload?
    ensures Decoded(Insert(s, k, eol)) == Decoded(s) <==> !(SplitsLineEnd(s, k) && eol == [CR, LF])
  {
    if SplitsLineEnd(s, k) && eol == [CR, LF] {
      CheckSplit(s, k, false, 0);
    } else {
      var j := if SplitsLineEnd(s, k) then k + 1 else k;
      assert Insert(s, k, eol) == Insert(s, j, eol);
      CheckInsert(s, j, eol, false, 0);
      ValuesInsert(s, j, eol);
    }
  }

  /** A space before a line end is passed over. */
  lemma SpaceThenLine(d: seq<byte>)
    ensures var t := [SPACE] + ([LF] + d); Check(t, false, 0) == Check(d, false, 0) && Values(t) == Values(d)
  {
    var t := [SPACE] + ([LF] + d);
    assert t[1..] == [LF] + d && t[1..][1..] == d;
    assert Check(t, false, 0) == Check([LF] + d, true, 0);
  }

  /** That it decodes is needed: a line end can make a space legal. */
  lemma LineEndCanRepair(s: seq<byte>)
    requires s != []
    ensures Decoded([SPACE] + Encoded(s)) == Invalid
    ensures Decoded(Insert([SPACE] + Encoded(s), 1, [LF])) == Payload(s)
  {
    var d := Encoded(s);
    var u, t := [SPACE] + d, [SPACE] + ([LF] + d);
    assert u[1..] == d && Insert(u, 1, [LF]) == t;
    RoundTrip(s);
    assert |Encoded(s)| > 0 && DecValue(Encoded(s)[0]) >= 0 by {
      var g := Group(if |s| <= 3 then s else s[..3]);
      assert g[0] == EncChar(GroupValues(if |s| <= 3 then s else s[..3])[0]);
    }
    assert Check([SPACE] + d, false, 0) == Bad by {
      assert ([SPACE] + d)[1..] == d;
      assert Check(d, true, 0) == Bad;
    }
    SpaceThenLine(d);
  }

}
