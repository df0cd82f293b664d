/** Byte streams of frames: what a reader with a bounded buffer makes of them. */
module Streams {
  import opened Bytes
  import opened Frames

  /** The reader's buffer: a flag byte, a four-byte length and a full payload. */
  const CAP: nat := 1 + 4 + MAX_PAYLOAD

  /** How reading ends: waiting for the rest of a frame, at a malformed frame,
      or with a buffer full of an unfinished frame. */
  datatype End = Waiting(rest: seq<byte>) | Malformed | Full

  datatype Parsed = Parsed(frames: seq<Frame>, end: End)

  /** The part of s that fits the buffer. */
  function Window(s: seq<byte>): (w: seq<byte>)
    ensures w <= s && |w| <= CAP
  {
    if |s| <= CAP then s else s[..CAP]
  }

  /** The greedy parse of a whole stream by a reader that sees at most CAP bytes
      at a time. */
  function Parse(s: seq<byte>): Parsed {
    match Decode(Window(s))
    case Ok(n, f) =>
      DecodedFrame(Window(s));
      var p := Parse(s[n..]);
      Parsed([f] + p.frames, p.end)
    case Incomplete => Parsed([], if |s| >= CAP then Full else Waiting(s))
    case _ => Parsed([], Malformed)
  }

  /** Goes on with a parse when more bytes arrive. */
  function Resume(p: Parsed, t: seq<byte>): Parsed {
    if p.end.Waiting? then
      var q := Parse(p.end.rest + t);
      Parsed(p.frames + q.frames, q.end)
    else p
  }

  lemma WindowGrows(s: seq<byte>, t: seq<byte>)
    ensures |s| >= CAP ==> Window(s + t) == Window(s)
    ensures |s| <= CAP ==> exists x :: Window(s + t) == s + x
  {
    if |s| >= CAP {
      assert (s + t)[..CAP] == s[..CAP];
    }
    if |s| <= CAP {
      var n := |Window(s + t)|;
      assert Window(s + t) == s + t[..n - |s|];
    }
  }

  /** The first verdict on a stream stands when the stream goes on. */
  lemma WindowVerdict(s: seq<byte>, t: seq<byte>)
    requires Decode(Window(s)) != Incomplete
    ensures Decode(Window(s + t)) == Decode(Window(s))
  {
    WindowGrows(s, t);
    if |s| < CAP {
      var x :| Window(s + t) == s + x;
      VerdictIsFinal(s, x);
    }
  }

  /** A frame at the front of a stream. */
  lemma ParseFirst(s: seq<byte>, n: nat, f: Frame)
    requires Decode(Window(s)) == Ok(n, f)
    ensures 2 <= n <= |s|
    ensures Parse(s) == Parsed([f] + Parse(s[n..]).frames, Parse(s[n..]).end)
  {
    DecodedFrame(Window(s));
  }

  lemma AppendNoFrame(s: seq<byte>, t: seq<byte>)
    requires !Decode(Window(s)).Ok?
    ensures Parse(s + t) == Resume(Parse(s), t)
  {
    if Decode(Window(s)) == Incomplete {
      WindowGrows(s, t);
      ConcatEmpty(Parse(s + t).frames);
    } else {
      WindowVerdict(s, t);
    }
  }

  lemma ResumeCons(f: Frame, q: Parsed, t: seq<byte>)
    ensures var r := Resume(q, t); Resume(Parsed([f] + q.frames, q.end), t) == Parsed([f] + r.frames, r.end)
  {
    if q.end.Waiting? {
      ConcatAssoc([f], q.frames, Parse(q.end.rest + t).frames);
    }
  }

  /** The first frame is still the first one when the stream goes on. */
  lemma AppendedFirst(s: seq<byte>, t: seq<byte>, n: nat, f: Frame)
    requires Decode(Window(s)) == Ok(n, f) && n <= |s|
    ensures Parse(s + t) == Parsed([f] + Parse(s[n..] + t).frames, Parse(s[n..] + t).end)
  {
    WindowVerdict(s, t);
    ParseFirst(s + t, n, f);
    assert (s + t)[n..] == s[n..] + t;
  }

  /** A stream may be cut anywhere: parsing the first part and going on with the
      second is parsing the whole. */
  lemma {:induction false} ParseAppend(s: seq<byte>, t: seq<byte>)
    ensures Parse(s + t) == Resume(Parse(s), t)
    decreases |s|
  {
    var d := Decode(Window(s));
    if d.Ok? {
      DecodedFrame(Window(s));
      ParseAppend(s[d.consumed..], t);
      assert Parse(s + t) == Resume(Parse(s), t) by {
        ParseFirst(s, d.consumed, d.frame);
        AppendedFirst(s, t, d.consumed, d.frame);
        ResumeCons(d.frame, Parse(s[d.consumed..]), t);
      }
    } else {
      AppendNoFrame(s, t);
    }
  }

  /** More input only ever adds frames. */
  lemma {:induction false} ParseMonotone(s: seq<byte>, t: seq<byte>)
    ensures Parse(s).frames <= Parse(s + t).frames
  {
    ParseAppend(s, t);
  }

  // ---- streams the encoder produces ----

  ghost predicate AllLegal(fs: seq<Frame>) {
    forall i :: 0 <= i < |fs| ==> Legal(fs[i])
  }

  function EncodeAll(fs: seq<Frame>): seq<byte> {
    if |fs| == 0 then [] else Encoding(fs[0]) + EncodeAll(fs[1..])
  }

  lemma {:induction false} EncodeAllAppend(fs: seq<Frame>, gs: seq<Frame>)
    ensures EncodeAll(fs + gs) == EncodeAll(fs) + EncodeAll(gs)
  {
    if |fs| == 0 {
      ConcatEmpty(gs);
    } else {
      EncodeAllAppend(fs[1..], gs);
      assert (fs + gs)[1..] == fs[1..] + gs;
      ConcatAssoc(Encoding(fs[0]), EncodeAll(fs[1..]), EncodeAll(gs));
    }
  }

  /** Every encoding fits the buffer, and one of the largest fills it. */
  lemma EncodingFits(f: Frame)
    requires Legal(f)
    ensures |Encoding(f)| <= CAP
    ensures |Encoding(f)| == CAP <==> |f.payload| == MAX_PAYLOAD
  {
    EncodingIsFrame(f);
  }

  /** The encoding of a frame at the front of a stream. */
  lemma FirstEncoding(e: seq<byte>, f: Frame, tail: seq<byte>)
    requires Legal(f) && e == Encoding(f)
    ensures Decode(Window(e + tail)) == Ok(|e|, f)
  {
    EncodingFits(f);
    WindowGrows(e, tail);
    var x :| Window(e + tail) == e + x;
    RoundTrip(f, x);
  }

  /** Encodings followed by anything parse to their frames and go on. */
  lemma {:induction false} ParseEncoded(fs: seq<Frame>, rest: seq<byte>)
    requires AllLegal(fs)
    ensures Parse(EncodeAll(fs) + rest) == Parsed(fs + Parse(rest).frames, Parse(rest).end)
  {
    if |fs| == 0 {
      ConcatEmpty(rest);
    } else {
      var e, tail := Encoding(fs[0]), EncodeAll(fs[1..]);
      ConcatAssoc(e, tail, rest);
      FirstEncoding(e, fs[0], tail + rest);
      ParseFirst(e + (tail + rest), |e|, fs[0]);
      DropPrefix(e, tail + rest);
      ParseEncoded(fs[1..], rest);
      ConcatAssoc([fs[0]], fs[1..], Parse(rest).frames);
      assert fs == [fs[0]] + fs[1..];
    }
  }

  lemma ParseEmpty()
    ensures Parse([]) == Parsed([], Waiting([]))
  {
  }

  /** Unique decodability: the concatenated encodings of a list of frames parse
      back to that list. */
  lemma {:induction false} UniquelyDecodable(fs: seq<Frame>)
    requires AllLegal(fs)
    ensures Parse(EncodeAll(fs)) == Parsed(fs, Waiting([]))
  {
    ParseEmpty();
    ParseEncoded(fs, []);
    assert EncodeAll(fs) + [] == EncodeAll(fs) && fs + [] == fs;
  }

  /** At no point of an encoder-produced stream does the reader meet an error or
      a full buffer: it is always waiting for more. */
  lemma {:induction false} EncodedNeverStops(fs: seq<Frame>, s: seq<byte>)
    requires AllLegal(fs) && s <= EncodeAll(fs)
    ensures Parse(s).end.Waiting? && Parse(s).frames <= fs
    ensures |Parse(s).end.rest| < CAP
  {
    var t := EncodeAll(fs)[|s|..];
    assert s + t == EncodeAll(fs);
    UniquelyDecodable(fs);
    ParseAppend(s, t);
    WaitingIsShort(s);
  }

  lemma {:induction false} WaitingIsShort(s: seq<byte>)
    requires Parse(s).end.Waiting?
    ensures |Parse(s).end.rest| < CAP && |Parse(s).end.rest| <= |s|
    ensures Parse(Parse(s).end.rest) == Parsed([], Parse(s).end)
    decreases |s|
  {
    var d := Decode(Window(s));
    if d.Ok? {
      DecodedFrame(Window(s));
      WaitingIsShort(s[d.consumed..]);
    }
  }

  /** The size of the buffer is tight: one byte less, and a frame of the largest
      payload would stop the reader before it was complete. */
  lemma BufferSizeIsTight(payload: seq<byte>)
    requires |payload| == MAX_PAYLOAD
    ensures Decode(Encoding(Frame(FLAG_RELIABLE, payload))[..CAP - 1]) == Incomplete
  {
    var f := Frame(FLAG_RELIABLE, payload);
    EncodingFits(f);
    ProperPrefix(f, CAP - 1);
  }

  /** Which frames of the wire format a reader takes: exactly those that fit its
      buffer. A longer one, which only the eight-byte length form makes possible,
      stops the reader once the buffer is full. */
  lemma FrameAccepted(w: seq<byte>, f: Frame, rest: seq<byte>)
    requires IsFrame(w, f)
    ensures |w| <= CAP ==> [f] <= Parse(w + rest).frames
    ensures |w| > CAP ==> Parse(w + rest) == Parsed([], Full)
    ensures |w| > CAP ==> |w| == 9 + |f.payload| && |f.payload| > MAX_PAYLOAD - 4
  {
    var s := w + rest;
    if |w| <= CAP {
      WindowGrows(w, rest);
      var x :| Window(s) == w + x;
      DropPrefix(w, x);
      FrameIsDecoded(Window(s), |w|, f);
      ParseFirst(s, |w|, f);
    } else {
      OversizedWindow(w, f);
      assert Window(s) == w[..CAP];
    }
  }

  lemma OversizedWindow(w: seq<byte>, f: Frame)
    requires IsFrame(w, f) && |w| > CAP
    ensures Decode(w[..CAP]) == Incomplete
  {
    assert w[..|w|] == w;
    FrameIsDecoded(w, |w|, f);
    if Decode(w[..CAP]) != Incomplete {
      Rejoin(w, CAP);
      VerdictIsFinal(w[..CAP], w[CAP..]);
      DecodedFrame(w[..CAP]);
    }
  }

  // ---- the frames of any stream, encoded again ----

  lemma {:induction false} ParsedFramesLegal(s: seq<byte>)
    ensures AllLegal(Parse(s).frames)
    decreases |s|
  {
    var d := Decode(Window(s));
    if d.Ok? {
      DecodedFrame(Window(s));
      ParsedFramesLegal(s[d.consumed..]);
    }
  }

  /** The bytes that were parsed into frames. */
  function ParsedLength(s: seq<byte>): (n: nat)
    ensures n <= |s|
  {
    match Decode(Window(s))
    case Ok(n, f) =>
      DecodedFrame(Window(s));
      n + ParsedLength(s[n..])
    case _ => 0
  }

  /** Encoding the frames of a stream again never takes more bytes. */
  lemma {:induction false} ReencodingShrinks(s: seq<byte>)
    ensures |EncodeAll(Parse(s).frames)| <= ParsedLength(s)
    decreases |s|
  {
    var d := Decode(Window(s));
    if d.Ok? {
      DecodedFrame(Window(s));
      ReencodingShrinks(s[d.consumed..]);
      assert Parse(s).frames[1..] == Parse(s[d.consumed..]).frames;
    }
  }
}
