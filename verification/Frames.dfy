/** The length-prefixed frame codec used on the child's stdin and stdout. */
module Frames {
  import opened Bytes
  import Varint

  const FLAG_RELIABLE: byte := 0
  const FLAG_UNRELIABLE: byte := 1
  const MAX_PAYLOAD: nat := 0x100_0000

  datatype Frame = Frame(flag: byte, payload: seq<byte>)

  /** A frame the wire format can carry: no reserved flag bit, at most 16 MiB. */
  predicate Legal(f: Frame) {
    f.flag <= 1 && |f.payload| <= MAX_PAYLOAD
  }

  /** The encoding of a frame. */
  function Encoding(f: Frame): seq<byte> {
    [f.flag] + Varint.Encode(|f.payload|) + f.payload
  }

  datatype Status = OK | INCOMPLETE | ERR_RESERVED | ERR_TOO_BIG | ERR_BUF_TOO_SMALL

  datatype Decoded = Ok(consumed: nat, frame: Frame) | Incomplete | Reserved | TooBig

  /** Tries to read one frame from the front of s. */
  function Decode(s: seq<byte>): Decoded {
    if |s| < 1 then Incomplete
    else if s[0] > 1 then Reserved
    else if |s| < 2 then Incomplete
    else
      match Varint.Decode(s[1..])
      case Truncated => Incomplete
      case Value(vlen, plen) =>
        if plen > MAX_PAYLOAD then TooBig
        else
          var total := 1 + vlen + plen;
          if |s| < total then Incomplete
          else Ok(total, Frame(s[0], s[1 + vlen..total]))
  }

  /** The wire format: a flag byte, a varint of the payload length in any of its
      forms, and the payload. */
  ghost predicate IsFrame(w: seq<byte>, f: Frame) {
    && Legal(f)
    && |w| >= 1 + |f.payload|
    && var k := |w| - |f.payload|;
       w[0] == f.flag && Varint.IsVarint(w[1..k], |f.payload|) && w[k..] == f.payload
  }

  lemma DecodedIsFrame(s: seq<byte>, n: nat, f: Frame)
    requires Decode(s) == Ok(n, f)
    ensures n <= |s| && IsFrame(s[..n], f)
  {
    Varint.DecodeMeetsStandard(s[1..]);
    var k := n - |f.payload|;
    assert s[..n][1..k] == s[1..][..k - 1];
    assert s[..n][k..] == f.payload;
  }

  lemma InnerJoin(s: seq<byte>, n: nat, k: nat)
    requires 1 <= k <= n <= |s|
    ensures s[..n][1..k] + s[k..] == s[1..] && s[..n][k..] == s[k..n]
  {
    assert s[..n][1..k] == s[1..k];
    assert s[1..k] + s[k..] == s[1..];
  }

  lemma FrameIsDecoded(s: seq<byte>, n: nat, f: Frame)
    requires n <= |s| && IsFrame(s[..n], f)
    ensures Decode(s) == Ok(n, f)
  {
    var k := n - |f.payload|;
    Varint.VarintDecodes(s[..n][1..k], |f.payload|, s[k..]);
    InnerJoin(s, n, k);
  }

  /** The decoder reads a frame exactly when the input starts with one of the
      wire format, and reads that one. */
  lemma DecodeMeetsFormat(s: seq<byte>, n: nat, f: Frame)
    ensures Decode(s) == Ok(n, f) <==> n <= |s| && IsFrame(s[..n], f)
  {
    if Decode(s) == Ok(n, f) { DecodedIsFrame(s, n, f); }
    if n <= |s| && IsFrame(s[..n], f) { FrameIsDecoded(s, n, f); }
  }

  /** Some front of s is a frame. */
  ghost predicate StartsWithFrame(s: seq<byte>) {
    exists n: nat, f :: n <= |s| && IsFrame(s[..n], f)
  }

  /** The flag byte has a bit above the lowest. */
  ghost predicate ReservedFlag(s: seq<byte>) {
    |s| >= 1 && s[0] / 2 > 0
  }

  /** A complete length above 16 MiB follows a legal flag byte. */
  ghost predicate LengthTooBig(s: seq<byte>) {
    && |s| >= 1 && s[0] / 2 == 0
    && exists k: nat, v: nat :: 1 <= k <= |s| && v > 0x100_0000 && Varint.IsVarint(s[1..k], v)
  }

  lemma LengthIsTooBig(s: seq<byte>, k: nat, v: nat)
    requires 1 <= k <= |s| && s[0] <= 1 && v > 0x100_0000 && Varint.IsVarint(s[1..k], v)
    ensures Decode(s) == TooBig
  {
    Varint.VarintDecodes(s[1..k], v, s[k..]);
    assert s[1..k] + s[k..] == s[1..];
  }

  /** Every verdict of the decoder, by the wire format alone: a frame if one starts
      the input, the two errors for exactly these inputs, and otherwise it asks for
      more. */
  lemma VerdictMeetsFormat(s: seq<byte>)
    ensures Decode(s).Ok? <==> StartsWithFrame(s)
    ensures Decode(s) == Reserved <==> ReservedFlag(s)
    ensures Decode(s) == TooBig <==> LengthTooBig(s)
    ensures Decode(s) == Incomplete <==> !StartsWithFrame(s) && !ReservedFlag(s) && !LengthTooBig(s)
  {
    if Decode(s) == TooBig {
      assert LengthTooBig(s) by {
        Varint.DecodeMeetsStandard(s[1..]);
        var Value(k, v) := Varint.Decode(s[1..]);
        assert s[1..][..k] == s[1..k + 1];
      }
    } else if LengthTooBig(s) {
      var k: nat, v: nat :| 1 <= k <= |s| && v > 0x100_0000 && Varint.IsVarint(s[1..k], v);
      LengthIsTooBig(s, k, v);
    }
    if Decode(s).Ok? {
      DecodedIsFrame(s, Decode(s).consumed, Decode(s).frame);
    } else if StartsWithFrame(s) {
      var n: nat, f :| n <= |s| && IsFrame(s[..n], f);
      FrameIsDecoded(s, n, f);
    }
  }

  /** Some continuation of s is a frame. */
  ghost predicate CanBecomeFrame(s: seq<byte>) {
    exists t, f :: IsFrame(s + t, f)
  }

  /** The least length that the bytes read so far can be the front of. */
  function LeastLength(s: seq<byte>): nat {
    if |s| < 2 then 0 else Varint.LeastValue(s[1..])
  }

  lemma PayloadIsLeast(s: seq<byte>, t: seq<byte>, f: Frame)
    requires IsFrame(s + t, f)
    ensures LeastLength(s) <= |f.payload|
  {
    if |s| >= 2 {
      var k := |s + t| - |f.payload|;
      assert (s + t)[1..k] == (s[1..] + t)[..k - 1];
      Varint.LeastValueIsLeast(s[1..], t, k - 1, |f.payload|);
    }
  }

  lemma FrameOf(flag: byte, w: seq<byte>, payload: seq<byte>)
    requires flag <= 1 && |payload| <= 0x100_0000 && Varint.IsVarint(w, |payload|)
    ensures IsFrame([flag] + (w + payload), Frame(flag, payload))
  {
    var all := [flag] + (w + payload);
    assert all[1..1 + |w|] == w && all[1 + |w|..] == payload;
  }

  lemma FirstAndRest(s: seq<byte>, t: seq<byte>)
    requires |s| >= 1
    ensures s + t == [s[0]] + (s[1..] + t)
  {
  }

  lemma PayloadMissing(s: seq<byte>, w: seq<byte>, v: nat, rest: seq<byte>)
    requires |s| >= 2 && s[0] <= 1 && v <= 0x100_0000 && Varint.IsVarint(w, v) && s[1..] == w + rest
    requires Decode(s) == Incomplete
    ensures |rest| < v
  {
    Varint.VarintDecodes(w, v, rest);
  }

  /** A length cut off is filled up with zeros. */
  lemma ShortLength(s: seq<byte>, w: seq<byte>, v: nat)
    requires |s| >= 1 && s[0] <= 1 && |s| - 1 <= |w| && v <= 0x100_0000
    requires Varint.IsVarint(w, v) && w == s[1..] + Zeros(|w| + 1 - |s|)
    ensures CanBecomeFrame(s)
  {
    var z, payload := Zeros(|w| + 1 - |s|), Zeros(v);
    FirstAndRest(s, z + payload);
    ConcatAssoc(s[1..], z, payload);
    FrameOf(s[0], w, payload);
  }

  lemma ShortPayload(s: seq<byte>, k: nat, v: nat)
    requires |s| - 1 > k && s[0] <= 1 && v <= 0x100_0000
    requires Varint.IsVarint(s[1..1 + k], v) && Decode(s) == Incomplete
    ensures CanBecomeFrame(s)
  {
    var w, rest := s[1..1 + k], s[1 + k..];
    assert w + rest == s[1..];
    PayloadMissing(s, w, v, rest);
    var z := Zeros(v - |rest|);
    FirstAndRest(s, z);
    ConcatAssoc(w, rest, z);
    FrameOf(s[0], w, rest + z);
  }

  lemma FillUp(s: seq<byte>)
    requires |s| >= 2 && Decode(s) == Incomplete && LeastLength(s) <= 0x100_0000
    ensures CanBecomeFrame(s)
  {
    var a := s[1..];
    var k := Varint.FormLength(a[0]);
    var w := (a + Zeros(8))[..k];
    Varint.LeastVarint(a);
    if |a| <= k {
      assert w == a + Zeros(k - |a|);
      ShortLength(s, w, LeastLength(s));
    } else {
      assert w == s[1..1 + k];
      ShortPayload(s, k, LeastLength(s));
    }
  }

  lemma FewBytes(s: seq<byte>)
    requires |s| < 2 && Decode(s) == Incomplete
    ensures CanBecomeFrame(s)
  {
    var t := if |s| == 0 then [0, 0] else [0];
    var f := Frame((s + t)[0], []);
    assert (s + t)[1..2] == [0] && (s + t)[2..] == [];
    Varint.ShortForm(0);
    assert IsFrame(s + t, f);
  }

  /** Asking for more is justified, that is, the input starts with no frame but a
      continuation of it is one, exactly if the length, with zeros for what is
      missing of it, is at most 16 MiB. */
  lemma CanBecomeFrameIff(s: seq<byte>)
    ensures !StartsWithFrame(s) && CanBecomeFrame(s) <==> Decode(s) == Incomplete && LeastLength(s) <= 0x100_0000
  {
    VerdictMeetsFormat(s);
    if !StartsWithFrame(s) && CanBecomeFrame(s) {
      var t, f :| IsFrame(s + t, f);
      PayloadIsLeast(s, t, f);
      assert (s + t)[..|s + t|] == s + t;
      FrameIsDecoded(s + t, |s + t|, f);
      if Decode(s) != Incomplete { VerdictIsFinal(s, t); }
    }
    if Decode(s) == Incomplete && LeastLength(s) <= 0x100_0000 {
      if |s| < 2 { FewBytes(s); } else { FillUp(s); }
    }
  }

  /** Otherwise the decoder asks in vain, until the length is complete: a four-byte
      length that starts with 0xbf is too big whatever follows. */
  lemma AsksInVain()
    ensures Decode([0, 0xbf]) == Incomplete && !CanBecomeFrame([0, 0xbf])
  {
    var s: seq<byte> := [0, 0xbf];
    assert s[1..] == [0xbf] && LeastLength(s) == 0x3f00_0000;
    CanBecomeFrameIff(s);
    VerdictMeetsFormat(s);
  }

  lemma EncodingIsFrame(f: Frame)
    requires Legal(f)
    ensures IsFrame(Encoding(f), f)
    ensures |Encoding(f)| == 1 + Varint.Size(|f.payload|) + |f.payload|
  {
    Varint.EncodeMeetsStandard(|f.payload|);
    var w, k := Encoding(f), 1 + Varint.Size(|f.payload|);
    assert w[1..k] == Varint.Encode(|f.payload|) && w[k..] == f.payload;
  }

  /** Decoding undoes encoding, whatever follows. */
  lemma {:induction false} RoundTrip(f: Frame, rest: seq<byte>)
    requires Legal(f)
    ensures Decode(Encoding(f) + rest) == Ok(|Encoding(f)|, f)
  {
    EncodingIsFrame(f);
    var s := Encoding(f) + rest;
    assert s[..|Encoding(f)|] == Encoding(f);
    DecodeMeetsFormat(s, |Encoding(f)|, f);
  }

  /** A verdict other than INCOMPLETE never changes when more bytes arrive. */
  lemma VerdictIsFinal(s: seq<byte>, t: seq<byte>)
    requires Decode(s) != Incomplete
    ensures Decode(s + t) == Decode(s)
  {
    if Decode(s).Ok? {
      var Ok(n, f) := Decode(s);
      DecodeMeetsFormat(s, n, f);
      assert (s + t)[..n] == s[..n];
      DecodeMeetsFormat(s + t, n, f);
    } else if s[0] <= 1 {
      assert (s + t)[1..] == s[1..] + t;
      Varint.DecodeMeetsStandard(s[1..]);
      var k := Varint.Decode(s[1..]).len;
      assert s[1..][..k] + (s[1..][k..] + t) == s[1..] + t;
      Varint.VarintDecodes(s[1..][..k], Varint.Decode(s[1..]).value, s[1..][k..] + t);
    }
  }

  /** Every proper prefix of an encoding is INCOMPLETE. */
  lemma ProperPrefix(f: Frame, k: nat)
    requires Legal(f) && k < |Encoding(f)|
    ensures Decode(Encoding(f)[..k]) == Incomplete
  {
    var e := Encoding(f);
    if Decode(e[..k]) != Incomplete {
      VerdictIsFinal(e[..k], e[k..]);
      assert e[..k] + e[k..] == e == e + [];
      RoundTrip(f, []);
    }
  }

  /** What the decoder reads is a legal frame within the input, and encoding it
      again takes no more bytes. */
  lemma DecodedFrame(s: seq<byte>)
    requires Decode(s).Ok?
    ensures var Ok(n, f) := Decode(s);
            2 <= n <= |s| && Legal(f) && |Encoding(f)| <= n && |f.payload| <= n - 2
  {
    var Ok(n, f) := Decode(s);
    DecodeMeetsFormat(s, n, f);
    Varint.Shortest(s[..n][1..n - |f.payload|], |f.payload|);
    EncodingIsFrame(f);
  }

  /** Writes the encoding of a frame into out[..outSize]; on an error nothing is
      written. */
  method Encode(flag: byte, payload: seq<byte>, out: array<byte>, outSize: nat) returns (st: Status, outLen: nat)
    requires outSize <= out.Length
    modifies out
    ensures var f := Frame(flag, payload);
            st == (if flag > 1 then ERR_RESERVED else if |payload| > MAX_PAYLOAD then ERR_TOO_BIG
                   else if outSize < |Encoding(f)| then ERR_BUF_TOO_SMALL else OK)
    ensures st == OK ==> outLen <= outSize && out[..outLen] == Encoding(Frame(flag, payload))
    ensures st == OK ==> forall k :: outLen <= k < out.Length ==> out[k] == old(out[k])
    ensures st != OK ==> outLen == 0 && out[..] == old(out[..])
  {
    outLen := 0;
    if flag > 1 { return ERR_RESERVED, 0; }
    if |payload| > MAX_PAYLOAD { return ERR_TOO_BIG, 0; }
    EncodingIsFrame(Frame(flag, payload));
    var needed := 1 + Varint.Size(|payload|) + |payload|;
    if outSize < needed { return ERR_BUF_TOO_SMALL, 0; }
    Varint.EncodeMeetsStandard(|payload|);
    out[0] := flag;
    var vlen := Varint.EncodeVarint(|payload|, out, 1);
    assert out[..1 + vlen] == out[..1] + out[1..1 + vlen];
    assert out[..1] == [flag];
    CopyInto(out, 1 + vlen, payload);
    return OK, needed;
  }

  /** Copies src into out at index at. */
  method CopyInto(out: array<byte>, at: nat, src: seq<byte>)
    requires at + |src| <= out.Length
    modifies out
    ensures out[..at + |src|] == old(out[..at]) + src
    ensures forall k :: at + |src| <= k < out.Length ==> out[k] == old(out[k])
  {
    forall k | at <= k < at + |src| { out[k] := src[k - at]; }
  }
}
