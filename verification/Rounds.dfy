/** The loops of the reader thread and of the echo child as steps of the whole
    pipeline: one round of either is a run of it. */
module Rounds {
  import opened Bytes
  import opened Frames
  import opened Streams
  import opened Reassembly
  import C = ChildOutput
  import Child = Echo
  import E = EndToEnd
  import P = Protocol
  import S = Session

  /** What is left of a buffer when every complete frame has been taken off it. */
  function Rest(buf: seq<byte>): (r: seq<byte>)
    ensures !Decode(r).Ok? && |r| <= |buf|
    decreases |buf|
  {
    match Decode(buf)
    case Ok(n, f) =>
      DecodedFrame(buf);
      Rest(buf[n..])
    case _ => buf
  }

  /** How a buffer with these bytes left stands. */
  ghost function Standing(rest: seq<byte>): End {
    if Decode(rest).Incomplete? then Held(rest) else Malformed
  }

  lemma {:induction false} RestOfParse(buf: seq<byte>)
    requires |buf| <= CAP
    ensures Parse(buf).end == Standing(Rest(buf))
    decreases |buf|
  {
    if Decode(buf).Ok? {
      DecodedFrame(buf);
      RestOfParse(buf[Decode(buf).consumed..]);
    }
  }

  // ---- the reader ----

  /** The reader has queued these frames and holds this rest. */
  ghost function Queued(s: E.State, fs: seq<Frame>, rest: seq<byte>): E.State {
    s.(readBuf := rest, core := C.Queue(s.core, fs))
  }

  /** The first frame of a buffer is taken. */
  lemma ReaderTakes(s: E.State)
    requires !s.core.eof && Decode(s.readBuf).Ok?
    ensures var d := Decode(s.readBuf);
            d.consumed <= |s.readBuf| && E.Enabled(s, E.ReaderFrame)
            && E.Next(s, E.ReaderFrame) == Queued(s, [d.frame], s.readBuf[d.consumed..])
  {
    var d := Decode(s.readBuf);
    DecodedFrame(s.readBuf);
    assert P.Messages([d.frame]) == [P.MessageOf(d.frame)];
  }

  lemma FirstOfBuffer(buf: seq<byte>)
    requires |buf| <= CAP && Decode(buf).Ok?
    ensures var d := Decode(buf);
            2 <= d.consumed <= |buf| && Parse(buf).frames == [d.frame] + Parse(buf[d.consumed..]).frames
            && Rest(buf) == Rest(buf[d.consumed..])
  {
    DecodedFrame(buf);
    ParseFirst(buf, Decode(buf).consumed, Decode(buf).frame);
  }

  lemma NoneInBuffer(buf: seq<byte>)
    requires |buf| <= CAP && !Decode(buf).Ok?
    ensures Parse(buf).frames == [] && Rest(buf) == buf
  {
  }

  lemma FrameStepsFirst(n: nat)
    requires n > 0
    ensures var steps := seq(n, _ => E.ReaderFrame);
            steps[0] == E.ReaderFrame && steps[1..] == seq(n - 1, _ => E.ReaderFrame)
  {
  }

  /** The inner loop of the reader, frame by frame. */
  lemma {:induction false} ReaderDelivers(s: E.State)
    requires |s.readBuf| <= CAP && !s.core.eof
    ensures var fs := Parse(s.readBuf).frames;
            var steps := seq(|fs|, _ => E.ReaderFrame);
            E.IsRun(s, steps) && E.Run(s, steps) == Queued(s, fs, Rest(s.readBuf))
    decreases |s.readBuf|
  {
    if Decode(s.readBuf).Ok? {
      FirstOfBuffer(s.readBuf);
      ReaderTakes(s);
      var d, t, fs := Decode(s.readBuf), E.Next(s, E.ReaderFrame), Parse(s.readBuf).frames;
      ReaderDelivers(t);
      FrameStepsFirst(|fs|);
      assert Queued(Queued(s, [d.frame], t.readBuf), fs[1..], Rest(s.readBuf))
          == Queued(s, [d.frame] + fs[1..], Rest(s.readBuf)) by {
        C.QueueAll(s.core, [d.frame], fs[1..]);
      }
    } else {
      NoneInBuffer(s.readBuf);
      C.QueueNone(s.core);
    }
  }

  /** A read of n bytes and the delivery of what is complete. */
  lemma ReaderReads(s: E.State, n: nat) returns (steps: seq<E.Step>)
    requires E.Enabled(s, E.ReaderRead(n))
    ensures var buf := s.readBuf + s.pipeOut[..n];
            E.IsRun(s, steps)
            && E.Run(s, steps) == Queued(s.(pipeOut := s.pipeOut[n..]), Parse(buf).frames, Rest(buf))
  {
    var t := E.Next(s, E.ReaderRead(n));
    ReaderDelivers(t);
    steps := [E.ReaderRead(n)] + seq(|Parse(t.readBuf).frames|, _ => E.ReaderFrame);
    E.RunOne(s, E.ReaderRead(n));
    E.RunAppend(s, [E.ReaderRead(n)], seq(|Parse(t.readBuf).frames|, _ => E.ReaderFrame));
  }

  lemma HungryExtends(held: seq<byte>, bytes: seq<byte>, added: seq<Frame>, end: End)
    requires E.Hungry(held) && Extends(held, bytes, added, end)
    ensures Parse(held + bytes) == Parsed([] + added, end)
  {
    assert [] + added == added;
    if bytes == [] { ConcatEmpty(held); }
  }

  /** The run for a round that took n bytes. */
  lemma ReaderStep(s: E.State, n: nat, added: seq<Frame>, end: End) returns (steps: seq<E.Step>)
    requires E.Hungry(s.readBuf) && !s.core.eof && n <= |s.pipeOut| && n <= CAP - |s.readBuf|
    requires Parse(s.readBuf + s.pipeOut[..n]) == Parsed([] + added, end)
    ensures E.IsRun(s, steps)
    ensures var t := E.Run(s, steps);
            && t.pipeOut == s.pipeOut[n..] && t.echoDone == s.echoDone && !t.core.eof
            && t.core == C.Queue(s.core, added)
            && !Decode(t.readBuf).Ok? && end == Standing(t.readBuf)
  {
    assert [] + added == added;
    if n == 0 {
      steps := [];
      ConcatEmpty(s.readBuf);
      C.QueueNone(s.core);
    } else {
      steps := ReaderReads(s, n);
      RestOfParse(s.readBuf + s.pipeOut[..n]);
    }
  }

  /** Where a round has left the reader: with these bytes in its buffer and going
      on, or out of its loop. */
  ghost predicate ReaderAt(t: E.State, pipe: seq<byte>, hand: P.State, rest: seq<byte>, go: bool) {
    && t.pipeOut == pipe && hand == t.core.(pump := P.Idle)
    && (go && |rest| < CAP ==> t.readBuf == rest && E.Hungry(t.readBuf) && !t.core.eof)
    && (!go || |rest| == CAP ==> E.Enabled(t, E.ReaderStop))
  }

  lemma ReaderOutcome(s: E.State, n: nat, added: seq<Frame>, end: End, rest: seq<byte>, go: bool)
    returns (steps: seq<E.Step>)
    requires E.Hungry(s.readBuf) && !s.core.eof && n <= |s.pipeOut| && n <= CAP - |s.readBuf|
    requires Parse(s.readBuf + s.pipeOut[..n]) == Parsed([] + added, end)
    requires go ==> end == Held(rest)
    requires !go ==> (s.pipeOut == [] && s.echoDone) || end == Malformed
    ensures E.IsRun(s, steps)
    ensures ReaderAt(E.Run(s, steps), s.pipeOut[n..], C.Queue(s.core.(pump := P.Idle), added), rest, go)
  {
    steps := ReaderStep(s, n, added, end);
  }

  /** One round of the reader is a run of the pipeline, with any state of the pump.
      The pipe holds what the descriptor gives; a read that returns nothing means
      that the child has left. When the loop ends, the reader's stop is enabled. */
  method ReaderRound(fd: Source, buf: array<byte>, used: nat, session: S.Session, wake: C.Waker?, ghost s: E.State)
    returns (left: nat, go: bool, ghost steps: seq<E.Step>)
    requires buf.Length == CAP && used < CAP && session.Valid() && Fail !in fd.script
    requires fd.data == s.pipeOut && (s.pipeOut == [] ==> s.echoDone)
    requires s.readBuf == buf[..used] && E.Hungry(s.readBuf) && !s.core.eof
    requires session.HandOver() == s.core.(pump := P.Idle)
    modifies fd, buf, session`pushed, session`log, session.outbound, session.outbound.Repr, wake
    ensures session.Valid() && left <= CAP && E.IsRun(s, steps)
    ensures ReaderAt(E.Run(s, steps), fd.data, session.HandOver(), buf[..left], go)
  {
    ghost var n, added, end := 0, [], Malformed;
    left, go, n, added, end := C.ReadOnce(fd, buf, used, session, wake);
    HungryExtends(s.readBuf, s.pipeOut[..n], added, end);
    steps := ReaderOutcome(s, n, added, end, buf[..left], go);
  }

  // ---- the echo child ----

  /** The child has taken these frames, written them and holds this rest. */
  function Echoed(s: E.State, fs: seq<Frame>, rest: seq<byte>): E.State {
    s.(echoBuf := rest, echoed := s.echoed + fs, pipeOut := s.pipeOut + EncodeAll(fs))
  }

  /** The steps that echo some frames, each written at once. */
  function EchoSteps(fs: seq<Frame>): seq<E.Step> {
    if |fs| == 0 then [] else [E.EchoFrame, E.EchoWrite(|Encoding(fs[0])|)] + EchoSteps(fs[1..])
  }

  /** One frame of the child's inner loop. */
  lemma EchoTakes(s: E.State)
    requires !s.echoDone && s.echoOut == [] && Decode(s.echoBuf).Ok?
    ensures var d := Decode(s.echoBuf);
            var steps := [E.EchoFrame, E.EchoWrite(|Encoding(d.frame)|)];
            d.consumed <= |s.echoBuf| && E.IsRun(s, steps)
            && E.Run(s, steps) == Echoed(s, [d.frame], s.echoBuf[d.consumed..])
  {
    var d := Decode(s.echoBuf);
    DecodedFrame(s.echoBuf);
    var e, t := Encoding(d.frame), E.Next(s, E.EchoFrame);
    assert e[..|e|] == e && e[|e|..] == [];
    E.EncodeOne(d.frame);
    E.RunOne(s, E.EchoFrame);
    E.RunOne(t, E.EchoWrite(|e|));
    E.RunAppend(s, [E.EchoFrame], [E.EchoWrite(|e|)]);
    assert [E.EchoFrame] + [E.EchoWrite(|e|)] == [E.EchoFrame, E.EchoWrite(|e|)];
  }

  /** The inner loop of the child, frame by frame. */
  lemma {:induction false} EchoDelivers(s: E.State)
    requires |s.echoBuf| <= CAP && !s.echoDone && s.echoOut == []
    ensures var fs := Parse(s.echoBuf).frames;
            E.IsRun(s, EchoSteps(fs)) && E.Run(s, EchoSteps(fs)) == Echoed(s, fs, Rest(s.echoBuf))
    decreases |s.echoBuf|
  {
    var fs := Parse(s.echoBuf).frames;
    if Decode(s.echoBuf).Ok? {
      var d := Decode(s.echoBuf);
      DecodedFrame(s.echoBuf);
      EchoTakes(s);
      var two := [E.EchoFrame, E.EchoWrite(|Encoding(d.frame)|)];
      var t := E.Run(s, two);
      EchoDelivers(t);
      assert fs == [d.frame] + Parse(t.echoBuf).frames && fs[1..] == Parse(t.echoBuf).frames;
      E.RunAppend(s, two, EchoSteps(fs[1..]));
      assert Echoed(Echoed(s, [d.frame], t.echoBuf), fs[1..], Rest(s.echoBuf))
          == Echoed(s, [d.frame] + fs[1..], Rest(s.echoBuf)) by {
        EncodeAllAppend([d.frame], fs[1..]);
        ConcatAssoc(s.echoed, [d.frame], fs[1..]);
        ConcatAssoc(s.pipeOut, EncodeAll([d.frame]), EncodeAll(fs[1..]));
      }
    } else {
      ConcatEmpty(s.pipeOut);
      ConcatEmpty(s.echoed);
    }
  }

  /** A read of n bytes and the echo of what is complete. */
  lemma EchoReads(s: E.State, n: nat) returns (steps: seq<E.Step>)
    requires E.Enabled(s, E.EchoRead(n))
    ensures var buf := s.echoBuf + s.pipeIn[..n];
            E.IsRun(s, steps)
            && E.Run(s, steps) == Echoed(s.(pipeIn := s.pipeIn[n..]), Parse(buf).frames, Rest(buf))
  {
    var t := E.Next(s, E.EchoRead(n));
    EchoDelivers(t);
    steps := [E.EchoRead(n)] + EchoSteps(Parse(t.echoBuf).frames);
    E.RunOne(s, E.EchoRead(n));
    E.RunAppend(s, [E.EchoRead(n)], EchoSteps(Parse(t.echoBuf).frames));
  }

  /** The run for a round that took n bytes. */
  lemma EchoStep(s: E.State, n: nat, added: seq<Frame>, end: End) returns (steps: seq<E.Step>)
    requires E.Hungry(s.echoBuf) && !s.echoDone && s.echoOut == [] && n <= |s.pipeIn| && n <= CAP - |s.echoBuf|
    requires Parse(s.echoBuf + s.pipeIn[..n]) == Parsed([] + added, end)
    ensures E.IsRun(s, steps)
    ensures var t := E.Run(s, steps);
            && t.pipeIn == s.pipeIn[n..] && t.closed == s.closed && !t.echoDone && t.echoOut == []
            && t.pipeOut == s.pipeOut + EncodeAll(added) && t.echoed == s.echoed + added
            && !Decode(t.echoBuf).Ok? && end == Standing(t.echoBuf)
  {
    assert [] + added == added;
    if n == 0 {
      steps := [];
      ConcatEmpty(s.echoBuf);
      ConcatEmpty(s.pipeOut);
      ConcatEmpty(s.echoed);
    } else {
      steps := EchoReads(s, n);
      RestOfParse(s.echoBuf + s.pipeIn[..n]);
    }
  }

  ghost predicate EchoAt(t: E.State, pipeIn: seq<byte>, pipeOut: seq<byte>, rest: seq<byte>, go: bool) {
    && t.pipeIn == pipeIn && t.pipeOut == pipeOut
    && (go && |rest| < CAP ==> t.echoBuf == rest && E.Hungry(t.echoBuf) && !t.echoDone && t.echoOut == [])
    && (!go || |rest| == CAP ==> E.Enabled(t, E.EchoExit))
  }

  lemma EchoOutcome(s: E.State, n: nat, added: seq<Frame>, end: End, rest: seq<byte>, go: bool)
    returns (steps: seq<E.Step>)
    requires E.Hungry(s.echoBuf) && !s.echoDone && s.echoOut == [] && n <= |s.pipeIn| && n <= CAP - |s.echoBuf|
    requires Parse(s.echoBuf + s.pipeIn[..n]) == Parsed([] + added, end)
    requires go ==> end == Held(rest)
    requires !go ==> (s.pipeIn == [] && s.closed) || end == Malformed
    ensures E.IsRun(s, steps)
    ensures EchoAt(E.Run(s, steps), s.pipeIn[n..], s.pipeOut + EncodeAll(added), rest, go)
  {
    steps := EchoStep(s, n, added, end);
  }

  /** One round of the echo child is a run of the pipeline, whatever the sizes of
      its reads and writes. When its loop ends, the child's exit is enabled. */
  method EchoRound(stdin: Source, inBuf: array<byte>, used: nat, outBuf: array<byte>, stdout: Child.Sink,
                   ghost s: E.State)
    returns (left: nat, go: bool, ghost steps: seq<E.Step>, ghost written: seq<byte>)
    requires inBuf.Length == CAP && outBuf.Length == CAP && inBuf != outBuf && used < CAP
    requires Fail !in stdin.script && !Child.Refuses(stdout.script)
    requires stdin.data == s.pipeIn && (s.pipeIn == [] ==> s.closed)
    requires s.echoBuf == inBuf[..used] && E.Hungry(s.echoBuf) && !s.echoDone && s.echoOut == []
    modifies stdin, inBuf, outBuf, stdout
    ensures left <= CAP && E.IsRun(s, steps) && stdout.written == old(stdout.written) + written
    ensures EchoAt(E.Run(s, steps), stdin.data, s.pipeOut + written, inBuf[..left], go)
  {
    var code;
    ghost var n, added, end, outs := 0, [], Malformed, [];
    left, go, code, n, added, end, outs := Child.EchoOnce(stdin, inBuf, used, outBuf, stdout);
    HungryExtends(s.echoBuf, s.pipeIn[..n], added, end);
    written := EncodeAll(added);
    steps := EchoOutcome(s, n, added, end, inBuf[..left], go);
  }
}
