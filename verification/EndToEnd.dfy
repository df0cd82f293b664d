/** The whole pipeline with the echo child: peer, session, pipe, echo, pipe,
    reader, queue, pump, transport port. Reads and writes may be cut anywhere,
    and the steps of the parties may interleave in any way. The child and the
    reader go on where a read or a write was cut. The session does not: it writes
    a message once, and what the pipe does not take is lost. */
module EndToEnd {
  import opened Bytes
  import opened Frames
  import opened Streams
  import P = Protocol
  import S = Session

  /** delivered records the frames written for the child, fed the bytes of them
      that its pipe took, and echoed the frames the child made of these; echoOut is
      what it still has to write. */
  datatype State = State(
    delivered: seq<Frame>, fed: seq<byte>, closed: bool, pipeIn: seq<byte>,
    echoBuf: seq<byte>, echoOut: seq<byte>, echoed: seq<Frame>, echoDone: bool,
    pipeOut: seq<byte>, readBuf: seq<byte>, core: P.State)

  const INIT: State := State([], [], false, [], [], [], [], false, [], [], P.INIT)

  /** Peer: a message or FIN arrives, and the child's pipe takes this many bytes
      of what is written for it. Echo and Reader: a read of n bytes, a frame
      decoded, a write of n bytes, an exit. Pump: a step of the pump. */
  datatype Step =
    | Peer(event: S.PeerEvent, taken: nat)
    | EchoRead(n: nat) | EchoFrame | EchoWrite(n: nat) | EchoExit
    | ReaderRead(n: nat) | ReaderFrame | ReaderStop
    | Pump(step: P.Step)

  /** A bounded buffer that needs more input and has room for it. */
  predicate Hungry(buf: seq<byte>) {
    Decode(buf) == Incomplete && |buf| < CAP
  }

  /** A party reading from an ended pipe leaves; so it does at a malformed frame
      and at a full buffer. */
  predicate Leaves(buf: seq<byte>, ended: bool) {
    !Decode(buf).Ok? && (Hungry(buf) ==> ended)
  }

  /** The frames a peer event is for the child. */
  function FramesOf(s: State, ev: S.PeerEvent): seq<Frame> {
    if s.closed then [] else S.Accepted([ev])
  }

  /** The bytes the session writes for it. */
  function Offered(s: State, ev: S.PeerEvent): seq<byte> {
    S.Written(S.Deliver(S.ChildSide(s.closed, []), ev).calls)
  }

  predicate Enabled(s: State, step: Step) {
    match step
    case Peer(ev, taken) => taken <= |Offered(s, ev)|
    case EchoRead(n) =>
      !s.echoDone && s.echoOut == [] && Hungry(s.echoBuf) && 0 < n <= |s.pipeIn| && n <= CAP - |s.echoBuf|
    case EchoFrame => !s.echoDone && s.echoOut == [] && Decode(s.echoBuf).Ok?
    case EchoWrite(n) => 0 < n <= |s.echoOut|
    case EchoExit => !s.echoDone && s.echoOut == [] && Leaves(s.echoBuf, s.closed && s.pipeIn == [])
    case ReaderRead(n) => !s.core.eof && Hungry(s.readBuf) && 0 < n <= |s.pipeOut| && n <= CAP - |s.readBuf|
    case ReaderFrame => !s.core.eof && Decode(s.readBuf).Ok?
    case ReaderStop => !s.core.eof && Leaves(s.readBuf, s.echoDone && s.pipeOut == [])
    case Pump(p) => (p.Drain? || p.Send? || p.LoadEof?) && P.Enabled(s.core, p)
  }

  function Next(s: State, step: Step): State
    requires Enabled(s, step)
  {
    match step
    case Peer(ev, taken) =>
      var side, bytes := S.Deliver(S.ChildSide(s.closed, []), ev), Offered(s, ev)[..taken];
      s.(closed := side.closed, delivered := s.delivered + FramesOf(s, ev),
         fed := s.fed + bytes, pipeIn := s.pipeIn + bytes)
    case EchoRead(n) => s.(echoBuf := s.echoBuf + s.pipeIn[..n], pipeIn := s.pipeIn[n..])
    case EchoFrame =>
      var d := Decode(s.echoBuf);
      DecodedFrame(s.echoBuf);
      s.(echoBuf := s.echoBuf[d.consumed..], echoOut := Encoding(d.frame), echoed := s.echoed + [d.frame])
    case EchoWrite(n) => s.(pipeOut := s.pipeOut + s.echoOut[..n], echoOut := s.echoOut[n..])
    case EchoExit => s.(echoDone := true)
    case ReaderRead(n) => s.(readBuf := s.readBuf + s.pipeOut[..n], pipeOut := s.pipeOut[n..])
    case ReaderFrame =>
      var d := Decode(s.readBuf);
      DecodedFrame(s.readBuf);
      s.(readBuf := s.readBuf[d.consumed..], core := P.Next(s.core, P.Push(P.MessageOf(d.frame))))
    case ReaderStop => s.(core := P.Next(s.core, P.SetEof))
    case Pump(p) => s.(core := P.Next(s.core, p))
  }

  predicate IsRun(s: State, steps: seq<Step>)
    decreases |steps|
  {
    |steps| > 0 ==> Enabled(s, steps[0]) && IsRun(Next(s, steps[0]), steps[1..])
  }

  function Run(s: State, steps: seq<Step>): State
    requires IsRun(s, steps)
    decreases |steps|
  {
    if |steps| == 0 then s else Run(Next(s, steps[0]), steps[1..])
  }

  /** What the child has taken and what is still on its way to it are together
      the parse of all that its pipe took. */
  ghost predicate Taking(fed: seq<byte>, echoed: seq<Frame>, inbound: seq<byte>) {
    Parse(fed) == Parsed(echoed + Parse(inbound).frames, Parse(inbound).end)
  }

  /** The frames the child took are where they should be: the first ones pushed,
      the rest on their way out. */
  ghost predicate InTransit(echoed: seq<Frame>, pushed: seq<P.Message>, outbound: seq<byte>) {
    && AllLegal(echoed)
    && |pushed| <= |echoed| && pushed == P.Messages(echoed[..|pushed|])
    && outbound == EncodeAll(echoed[|pushed|..])
  }

  /** No frame is to come for the child, now or later. */
  ghost predicate NoneToCome(inbound: seq<byte>, closed: bool) {
    Parse(inbound).frames == [] && (Parse(inbound).end.Waiting? ==> closed)
  }

  ghost predicate Inv(s: State) {
    && P.Conserved(s.core) && |s.echoBuf| <= CAP
    && Taking(s.fed, s.echoed, s.echoBuf + s.pipeIn)
    && InTransit(s.echoed, s.core.pushed, s.readBuf + s.pipeOut + s.echoOut)
    && (s.echoDone ==> s.echoOut == [] && NoneToCome(s.echoBuf + s.pipeIn, s.closed))
    && (s.core.eof ==> s.echoDone && |s.core.pushed| == |s.echoed|)
  }

  /** A buffer that holds the front of a stream of encodings: what the decoder
      says of it. */
  lemma FrontOfEncodings(buf: seq<byte>, more: seq<byte>, fs: seq<Frame>)
    requires AllLegal(fs) && buf + more == EncodeAll(fs)
    ensures Decode(buf) == Incomplete || (|fs| > 0 && Decode(buf) == Ok(|Encoding(fs[0])|, fs[0]))
    ensures Decode(buf) == Incomplete ==> |buf| < CAP
    ensures Decode(buf) == Incomplete && more == [] ==> fs == [] && buf == []
    ensures Decode(buf).Ok? ==> buf[Decode(buf).consumed..] + more == EncodeAll(fs[1..])
  {
    if |fs| == 0 {
      assert buf == [];
    } else {
      var e, rest := Encoding(fs[0]), EncodeAll(fs[1..]);
      RoundTrip(fs[0], rest);
      EncodingFits(fs[0]);
      if Decode(buf) != Incomplete {
        VerdictIsFinal(buf, more);
        DecodedFrame(buf);
        assert buf[|e|..] + more == rest by {
          DropPrefix(e, rest);
          assert (buf + more)[|e|..] == buf[|e|..] + more;
        }
      } else {
        NotBeyond(buf, more, e, rest, fs[0]);
      }
    }
  }

  /** An incomplete buffer is shorter than the first encoding. */
  lemma NotBeyond(buf: seq<byte>, more: seq<byte>, e: seq<byte>, rest: seq<byte>, f: Frame)
    requires Legal(f) && e == Encoding(f) && buf + more == e + rest && Decode(buf) == Incomplete
    ensures |buf| < |e|
  {
    if |buf| >= |e| {
      DropPrefix(e, rest);
      assert buf[..|e|] == (buf + more)[..|e|];
      Rejoin(buf, |e|);
      RoundTrip(f, buf[|e|..]);
    }
  }

  /** What is written for a peer event is at most one encoding. */
  lemma OfferedIsEncoding(s: State, ev: S.PeerEvent)
    ensures AllLegal(FramesOf(s, ev)) && Offered(s, ev) == EncodeAll(FramesOf(s, ev))
  {
    S.AcceptedLegal([ev]);
    if !s.closed {
      var fs := S.Accepted([ev]);
      assert [ev][1..] == [];
      S.DeliverAllCalls(S.ChildSide(false, []), [ev]);
      assert S.DeliverAll(S.ChildSide(false, []), [ev]) == S.Deliver(S.ChildSide(false, []), ev);
      var tail := if S.PeerFin in [ev] then [S.CloseInput] else [];
      assert [] + S.Writes(fs) + tail == S.Writes(fs) + tail;
      S.WrittenWrites(fs, tail);
      assert S.Written(tail) == [] by { if tail != [] { assert tail[1..] == []; } }
      ConcatEmpty(EncodeAll(fs));
    }
  }

  /** More bytes enter at the far end. */
  lemma TakingGrows(fed: seq<byte>, echoed: seq<Frame>, inbound: seq<byte>, more: seq<byte>)
    requires Taking(fed, echoed, inbound)
    ensures Taking(fed + more, echoed, inbound + more)
    ensures NoneToCome(inbound, false) ==> NoneToCome(inbound + more, false)
  {
    ParseAppend(fed, more);
    ParseAppend(inbound, more);
    var p := Parse(inbound);
    if p.end.Waiting? {
      ConcatAssoc(echoed, p.frames, Parse(p.end.rest + more).frames);
    }
  }

  lemma PeerKeeps(s: State, ev: S.PeerEvent, taken: nat)
    requires Inv(s) && Enabled(s, Peer(ev, taken))
    ensures Inv(Next(s, Peer(ev, taken)))
  {
    var more := Offered(s, ev)[..taken];
    TakingGrows(s.fed, s.echoed, s.echoBuf + s.pipeIn, more);
    ConcatAssoc(s.echoBuf, s.pipeIn, more);
    if s.closed {
      assert more == [];
      ConcatEmpty(s.pipeIn);
    }
  }

  lemma EncodeOne(f: Frame)
    ensures EncodeAll([f]) == Encoding(f)
  {
    assert [f][1..] == [];
    ConcatEmpty(Encoding(f));
  }

  /** The child takes the first frame on its way in. */
  lemma TakingFirst(fed: seq<byte>, echoed: seq<Frame>, buf: seq<byte>, more: seq<byte>)
    requires Taking(fed, echoed, buf + more) && |buf| <= CAP && Decode(buf).Ok?
    ensures Decode(buf).consumed <= |buf|
    ensures Taking(fed, echoed + [Decode(buf).frame], buf[Decode(buf).consumed..] + more)
  {
    var d := Decode(buf);
    DecodedFrame(buf);
    WindowVerdict(buf, more);
    ParseFirst(buf + more, d.consumed, d.frame);
    assert (buf + more)[d.consumed..] == buf[d.consumed..] + more;
    ConcatAssoc(echoed, [d.frame], Parse(buf[d.consumed..] + more).frames);
  }

  /** And writes it out. */
  lemma TransitEcho(echoed: seq<Frame>, pushed: seq<P.Message>, outbound: seq<byte>, f: Frame)
    requires InTransit(echoed, pushed, outbound) && Legal(f)
    ensures InTransit(echoed + [f], pushed, outbound + Encoding(f))
  {
    assert (echoed + [f])[|pushed|..] == echoed[|pushed|..] + [f];
    EncodeAllAppend(echoed[|pushed|..], [f]);
    EncodeOne(f);
  }

  lemma EchoFrameKeeps(s: State)
    requires Inv(s) && Enabled(s, EchoFrame)
    ensures Inv(Next(s, EchoFrame))
  {
    var d := Decode(s.echoBuf);
    DecodedFrame(s.echoBuf);
    TakingFirst(s.fed, s.echoed, s.echoBuf, s.pipeIn);
    TransitEcho(s.echoed, s.core.pushed, s.readBuf + s.pipeOut + s.echoOut, d.frame);
    ConcatEmpty(s.readBuf + s.pipeOut);
  }

  /** A frame leaves the outbound pipe and is pushed. */
  lemma TransitPush(echoed: seq<Frame>, pushed: seq<P.Message>, buf: seq<byte>, more: seq<byte>)
    requires InTransit(echoed, pushed, buf + more) && Decode(buf).Ok?
    ensures Decode(buf).consumed <= |buf|
    ensures InTransit(echoed, pushed + [P.MessageOf(Decode(buf).frame)], buf[Decode(buf).consumed..] + more)
  {
    var j := |pushed|;
    DecodedFrame(buf);
    FrontOfEncodings(buf, more, echoed[j..]);
    assert echoed[j..][0] == echoed[j] && echoed[j..][1..] == echoed[j + 1..];
    assert echoed[..j] + [echoed[j]] == echoed[..j + 1];
    P.MessagesAppend(echoed[..j], [echoed[j]]);
  }

  lemma ReaderFrameKeeps(s: State)
    requires Inv(s) && Enabled(s, ReaderFrame)
    ensures Inv(Next(s, ReaderFrame))
  {
    var d, t := Decode(s.readBuf), Next(s, ReaderFrame);
    ConcatAssoc(s.readBuf, s.pipeOut, s.echoOut);
    TransitPush(s.echoed, s.core.pushed, s.readBuf, s.pipeOut + s.echoOut);
    ConcatAssoc(t.readBuf, s.pipeOut, s.echoOut);
    P.ConservedStep(s.core, P.Push(P.MessageOf(d.frame)));
  }

  /** Moving bytes along a pipe changes nothing. */
  lemma MoveKeeps(s: State, step: Step)
    requires Inv(s) && Enabled(s, step) && (step.EchoRead? || step.EchoWrite? || step.ReaderRead?)
    ensures Inv(Next(s, step))
  {
    var t := Next(s, step);
    match step
    case EchoRead(n) =>
      ConcatAssoc(s.echoBuf, s.pipeIn[..n], s.pipeIn[n..]);
      Rejoin(s.pipeIn, n);
    case EchoWrite(n) =>
      ConcatAssoc(s.readBuf, s.pipeOut, s.echoOut);
      ConcatAssoc(t.readBuf, t.pipeOut, t.echoOut);
      ConcatAssoc(s.pipeOut, s.echoOut[..n], s.echoOut[n..]);
      Rejoin(s.echoOut, n);
    case ReaderRead(n) =>
      ConcatAssoc(s.readBuf, s.pipeOut[..n], s.pipeOut[n..]);
      Rejoin(s.pipeOut, n);
  }

  /** A child that leaves has no frame to come. */
  lemma LeavesNone(buf: seq<byte>, more: seq<byte>, closed: bool)
    requires |buf| <= CAP && Leaves(buf, closed && more == [])
    ensures NoneToCome(buf + more, closed)
  {
    if Hungry(buf) {
      ConcatEmpty(buf);
    } else if Decode(buf) != Incomplete {
      WindowVerdict(buf, more);
    } else {
      WindowGrows(buf, more);
    }
  }

  /** A party leaves only when all its frames have gone through. */
  lemma ExitKeeps(s: State, step: Step)
    requires Inv(s) && Enabled(s, step) && (step.EchoExit? || step.ReaderStop?)
    ensures Inv(Next(s, step))
  {
    if step.EchoExit? {
      LeavesNone(s.echoBuf, s.pipeIn, s.closed);
    } else {
      ConcatAssoc(s.readBuf, s.pipeOut, s.echoOut);
      FrontOfEncodings(s.readBuf, s.pipeOut + s.echoOut, s.echoed[|s.core.pushed|..]);
      P.ConservedStep(s.core, P.SetEof);
    }
  }

  lemma StepKeeps(s: State, step: Step)
    requires Inv(s) && Enabled(s, step)
    ensures Inv(Next(s, step))
  {
    match step
    case Peer(ev, taken) => PeerKeeps(s, ev, taken);
    case EchoFrame => EchoFrameKeeps(s);
    case ReaderFrame => ReaderFrameKeeps(s);
    case EchoExit => ExitKeeps(s, step);
    case ReaderStop => ExitKeeps(s, step);
    case Pump(p) => P.ConservedStep(s.core, p);
    case _ => MoveKeeps(s, step);
  }

  lemma {:induction false} RunKeeps(s: State, steps: seq<Step>)
    requires Inv(s) && IsRun(s, steps)
    ensures Inv(Run(s, steps))
    decreases |steps|
  {
    if |steps| > 0 {
      StepKeeps(s, steps[0]);
      RunKeeps(Next(s, steps[0]), steps[1..]);
    }
  }

  lemma InitInv()
    ensures Inv(INIT)
  {
    ParseEmpty();
    ConcatEmpty<byte>([]);
  }

  // ---- what the child's pipe took ----

  /** The pipe took the whole of every message written to it. */
  predicate AllTaken(s: State, steps: seq<Step>)
    requires IsRun(s, steps)
    decreases |steps|
  {
    |steps| > 0 ==>
      && (steps[0].Peer? ==> steps[0].taken == |Offered(s, steps[0].event)|)
      && AllTaken(Next(s, steps[0]), steps[1..])
  }

  /** The pipe took no more than the encodings, and these if it took as much. */
  ghost predicate Fed(s: State) {
    && AllLegal(s.delivered) && |s.fed| <= |EncodeAll(s.delivered)|
    && (Whole(s) ==> s.fed == EncodeAll(s.delivered))
  }

  predicate Whole(s: State) { |s.fed| == |EncodeAll(s.delivered)| }

  lemma FedMore(fed: seq<byte>, whole: seq<byte>, offered: seq<byte>, taken: nat)
    requires |fed| <= |whole| && (|fed| == |whole| ==> fed == whole) && taken <= |offered|
    ensures var fed', whole' := fed + offered[..taken], whole + offered;
            && |fed'| <= |whole'| && (|fed'| == |whole'| ==> fed' == whole')
            && (|fed'| == |whole'| <==> |fed| == |whole| && taken == |offered|)
  {
    assert offered[..|offered|] == offered;
  }

  lemma FedPeer(s: State, ev: S.PeerEvent, taken: nat)
    requires Fed(s) && Enabled(s, Peer(ev, taken))
    ensures Fed(Next(s, Peer(ev, taken)))
    ensures Whole(Next(s, Peer(ev, taken))) <==> Whole(s) && taken == |Offered(s, ev)|
  {
    OfferedIsEncoding(s, ev);
    EncodeAllAppend(s.delivered, FramesOf(s, ev));
    FedMore(s.fed, EncodeAll(s.delivered), Offered(s, ev), taken);
  }

  lemma {:induction false} FedRun(s: State, steps: seq<Step>)
    requires Fed(s) && IsRun(s, steps)
    ensures Fed(Run(s, steps)) && (Whole(Run(s, steps)) <==> Whole(s) && AllTaken(s, steps))
    decreases |steps|
  {
    if |steps| > 0 {
      var t := Next(s, steps[0]);
      if steps[0].Peer? { FedPeer(s, steps[0].event, steps[0].taken); }
      FedRun(t, steps[1..]);
    }
  }

  /** Exactly when what the pipe took is what was delivered: when it took every
      message whole. A write that is cut even once cannot be made up for. */
  lemma {:induction false} TakenWholeIff(steps: seq<Step>)
    requires IsRun(INIT, steps)
    ensures var s := Run(INIT, steps);
            && (Parse(s.fed).frames == s.delivered <==> AllTaken(INIT, steps))
            && (AllTaken(INIT, steps) ==> Parse(s.fed) == Parsed(s.delivered, Waiting([])))
  {
    var s := Run(INIT, steps);
    FedRun(INIT, steps);
    UniquelyDecodable(s.delivered);
    ReencodingShrinks(s.fed);
  }

  lemma MessagesPrefix(fs: seq<Frame>, k: nat, gs: seq<Frame>)
    requires k <= |fs| && fs <= gs
    ensures P.Messages(fs[..k]) <= P.Messages(gs)
  {
  }

  /** End to end, safety: in every run, what the transport port has been handed
      is a prefix of the frames in what the child's pipe took. If it took every
      message whole, that is a prefix of the messages delivered, flags included. */
  lemma Safety(steps: seq<Step>)
    requires IsRun(INIT, steps)
    ensures Inv(Run(INIT, steps))
    ensures P.DataOf(Run(INIT, steps).core.port) <= P.Messages(Parse(Run(INIT, steps).fed).frames)
    ensures AllTaken(INIT, steps) ==> P.DataOf(Run(INIT, steps).core.port) <= P.Messages(Run(INIT, steps).delivered)
  {
    InitInv();
    RunKeeps(INIT, steps);
    var s := Run(INIT, steps);
    ConcatAssoc(P.DataOf(s.core.port), P.Batch(s.core.pump), s.core.queue);
    MessagesPrefix(s.echoed, |s.core.pushed|, Parse(s.fed).frames);
    assert P.DataOf(s.core.port) <= s.core.pushed <= P.Messages(Parse(s.fed).frames);
    TakenWholeIff(steps);
  }

  /** A child whose pipe took every message whole leaves only when the peer has
      closed and it has taken all messages: it meets no malformed frame and no full
      buffer. */
  lemma CleanExit(steps: seq<Step>)
    requires IsRun(INIT, steps) && AllTaken(INIT, steps) && Run(INIT, steps).echoDone
    ensures Run(INIT, steps).closed && Run(INIT, steps).echoed == Run(INIT, steps).delivered
  {
    Safety(steps);
    TakenWholeIff(steps);
    ConcatEmpty(Run(INIT, steps).echoed);
  }

  /** The pump finding the queue empty. */
  predicate IdlePump(s: State, step: Step) {
    step == Pump(P.Drain) && s.core.queue == []
  }

  /** Nothing is left to do but wait for the peer. */
  ghost predicate Quiet(s: State) {
    forall step :: Enabled(s, step) ==> step.Peer? || IdlePump(s, step)
  }

  /** A child with nothing to do waits at an empty pipe that is still open. */
  predicate EchoWaits(s: State) {
    s.echoOut == [] && (!s.echoDone ==> Hungry(s.echoBuf) && s.pipeIn == [] && !s.closed)
  }

  /** So does a reader. */
  predicate ReaderWaits(s: State) {
    !s.core.eof ==> Hungry(s.readBuf) && s.pipeOut == [] && !s.echoDone
  }

  lemma EchoIdle(s: State)
    requires !Enabled(s, EchoWrite(1)) && !Enabled(s, EchoFrame)
    requires !Enabled(s, EchoRead(1)) && !Enabled(s, EchoExit)
    ensures EchoWaits(s)
  {
  }

  lemma ReaderIdle(s: State)
    requires !Enabled(s, ReaderFrame) && !Enabled(s, ReaderRead(1)) && !Enabled(s, ReaderStop)
    ensures ReaderWaits(s)
  {
  }

  lemma QuietWaits(s: State)
    requires Quiet(s)
    ensures EchoWaits(s) && ReaderWaits(s)
  {
    EchoIdle(s);
    ReaderIdle(s);
  }

  /** And the reader has pushed them. */
  lemma AllRead(echoed: seq<Frame>, pushed: seq<P.Message>, buf: seq<byte>)
    requires InTransit(echoed, pushed, buf) && Hungry(buf)
    ensures pushed == P.Messages(echoed)
  {
    ConcatEmpty(buf);
    FrontOfEncodings(buf, [], echoed[|pushed|..]);
  }

  lemma QuietEcho(s: State)
    requires Inv(s) && EchoWaits(s)
    ensures Parse(s.fed).frames == s.echoed
    ensures s.echoDone <==> s.closed || !Parse(s.fed).end.Waiting?
  {
    assert Parse(s.fed).frames == s.echoed && (s.echoDone <==> s.closed || !Parse(s.fed).end.Waiting?) by {
      ConcatEmpty(s.echoed);
      if !s.echoDone { ConcatEmpty(s.echoBuf); }
    }
  }

  lemma QuietReader(s: State)
    requires Inv(s) && EchoWaits(s) && ReaderWaits(s)
    ensures s.core.pushed == P.Messages(s.echoed) && (s.echoDone <==> s.core.eof)
  {
    if !s.core.eof {
      assert s.readBuf + [] + [] == s.readBuf;
      AllRead(s.echoed, s.core.pushed, s.readBuf);
    }
  }

  lemma QuietCore(s: State)
    requires Quiet(s)
    ensures s.core.pump.Idle? && s.core.queue == []
  {
    assert !Enabled(s, Pump(P.Send)) && !Enabled(s, Pump(P.LoadEof(true)));
    assert Enabled(s, Pump(P.Drain)) ==> IdlePump(s, Pump(P.Drain));
  }

  /** End to end, completeness: when nothing is left to do, the port has been
      handed exactly the frames in what the child's pipe took. The reader has
      reported the end of the output if and only if the peer has closed its side or
      a cut write has left the child a frame it cannot read. These frames are the
      messages delivered if and only if the pipe took every message whole. */
  lemma Completeness(steps: seq<Step>)
    requires IsRun(INIT, steps) && Quiet(Run(INIT, steps))
    ensures P.DataOf(Run(INIT, steps).core.port) == P.Messages(Parse(Run(INIT, steps).fed).frames)
    ensures Run(INIT, steps).core.eof <==> Run(INIT, steps).closed || !Parse(Run(INIT, steps).fed).end.Waiting?
    ensures P.DataOf(Run(INIT, steps).core.port) == P.Messages(Run(INIT, steps).delivered) <==> AllTaken(INIT, steps)
  {
    Safety(steps);
    TakenWholeIff(steps);
    var s := Run(INIT, steps);
    QuietWaits(s);
    QuietEcho(s);
    QuietReader(s);
    QuietCore(s);
    ConcatEmpty(P.DataOf(s.core.port));
    ParsedFramesLegal(s.fed);
    FedRun(INIT, steps);
    P.MessagesDiffer(Parse(s.fed).frames, s.delivered);
  }

  /** The work still to be done. */
  function Work(s: State): nat {
    7 * |s.pipeIn| + 6 * |s.echoBuf| + 5 * |s.echoOut| + 4 * |s.pipeOut| + 3 * |s.readBuf|
    + 4 * |s.core.queue| + 2 * |P.Batch(s.core.pump)| + (if s.core.pump.Idle? then 0 else 1)
    + (if s.echoDone then 0 else 1) + (if s.core.eof then 0 else 1)
  }

  lemma PumpProgress(s: State, p: P.Step)
    requires Enabled(s, Pump(p)) && !IdlePump(s, Pump(p))
    ensures Work(Next(s, Pump(p))) < Work(s)
  {
  }

  lemma FrameProgress(s: State, step: Step)
    requires Enabled(s, step) && (step.EchoFrame? || step.ReaderFrame?)
    ensures Work(Next(s, step)) < Work(s)
  {
    if step.EchoFrame? { DecodedFrame(s.echoBuf); } else { DecodedFrame(s.readBuf); }
  }

  /** Every step but those of the peer and an idle pump is progress, so between
      two peer events only finitely many are possible before all is quiet. */
  lemma Progress(s: State, step: Step)
    requires Enabled(s, step) && !step.Peer? && !IdlePump(s, step)
    ensures Work(Next(s, step)) < Work(s)
  {
    match step
    case EchoFrame => FrameProgress(s, step);
    case ReaderFrame => FrameProgress(s, step);
    case Pump(p) => PumpProgress(s, p);
    case _ =>
  }

  /** The peer events of a run. */
  function PeerEvents(steps: seq<Step>): seq<S.PeerEvent> {
    if |steps| == 0 then []
    else if steps[0].Peer? then [steps[0].event] + PeerEvents(steps[1..])
    else PeerEvents(steps[1..])
  }

  /** So the parties can always bring the pipeline to rest without the peer. */
  lemma {:induction false} ComesToRest(s: State) returns (steps: seq<Step>)
    ensures IsRun(s, steps) && PeerEvents(steps) == [] && Quiet(Run(s, steps))
    decreases Work(s)
  {
    if Quiet(s) {
      steps := [];
    } else {
      var step :| Enabled(s, step) && !step.Peer? && !IdlePump(s, step);
      Progress(s, step);
      var rest := ComesToRest(Next(s, step));
      steps := [step] + rest;
      assert steps[1..] == rest;
    }
  }

  /** The frames delivered are those of the peer's acceptable messages: so the
      results above are about what the peer sent. */
  lemma {:induction false} DeliveredIsAccepted(s: State, steps: seq<Step>)
    requires IsRun(s, steps)
    ensures Run(s, steps).delivered == s.delivered + (if s.closed then [] else S.Accepted(PeerEvents(steps)))
    decreases |steps|
  {
    if |steps| > 0 {
      var t, rest := Next(s, steps[0]), PeerEvents(steps[1..]);
      DeliveredIsAccepted(t, steps[1..]);
      if steps[0].Peer? {
        var ev := steps[0].event;
        S.AcceptedCons(ev, rest);
        ConcatEmpty(s.delivered);
        ConcatEmpty(t.delivered);
        ConcatAssoc(s.delivered, S.Accepted([ev]), S.Accepted(rest));
      }
    }
  }

  /** The peer gets back what it sent: when nothing is left to do, the port has been
      handed its messages of one byte to 16 MiB before its FIN, in order, those that
      came on a stream on the stream and the datagrams as datagrams, if and only if
      the child's pipe took every message whole. */
  lemma {:induction false} PeerIsEchoed(steps: seq<Step>)
    requires IsRun(INIT, steps) && Quiet(Run(INIT, steps))
    ensures P.DataOf(Run(INIT, steps).core.port) == S.Echoes(PeerEvents(steps)) <==> AllTaken(INIT, steps)
  {
    Completeness(steps);
    DeliveredIsAccepted(INIT, steps);
    S.EchoesAreAccepted(PeerEvents(steps));
    ConcatEmpty(S.Accepted(PeerEvents(steps)));
  }

  // ---- the hand-over within the whole ----

  /** The first step of a run. */
  lemma RunFirst(s: State, steps: seq<Step>)
    requires |steps| > 0
    ensures IsRun(s, steps) <==> Enabled(s, steps[0]) && IsRun(Next(s, steps[0]), steps[1..])
    ensures IsRun(s, steps) ==> Run(s, steps) == Run(Next(s, steps[0]), steps[1..])
  {
  }

  lemma AppendFirst(a: seq<Step>, b: seq<Step>)
    requires |a| > 0
    ensures |a + b| > 0 && (a + b)[0] == a[0] && (a + b)[1..] == a[1..] + b
  {
  }

  lemma {:induction false} RunAppend(s: State, a: seq<Step>, b: seq<Step>)
    requires IsRun(s, a) && IsRun(Run(s, a), b)
    ensures IsRun(s, a + b) && Run(s, a + b) == Run(Run(s, a), b)
    decreases |a|
  {
    if |a| == 0 {
      assert a + b == b;
    } else {
      RunFirst(s, a);
      AppendFirst(a, b);
      RunFirst(s, a + b);
      RunAppend(Next(s, a[0]), a[1..], b);
    }
  }

  lemma RunOne(s: State, step: Step)
    requires Enabled(s, step)
    ensures IsRun(s, [step]) && Run(s, [step]) == Next(s, step)
  {
    assert [step][1..] == [];
    assert IsRun(Next(s, step), []) && Run(Next(s, step), []) == Next(s, step);
  }

  lemma {:induction false} FedStays(s: State, steps: seq<Step>)
    requires IsRun(s, steps) && PeerEvents(steps) == []
    ensures Run(s, steps).fed == s.fed && Run(s, steps).delivered == s.delivered
    decreases |steps|
  {
    if |steps| > 0 { FedStays(Next(s, steps[0]), steps[1..]); }
  }

  /** A message with this frame arrives, and the pipe takes so much of it. */
  function Arrival(f: Frame, taken: nat): Step {
    Peer(S.Message(f.flag == FLAG_RELIABLE, f.payload), taken)
  }

  lemma ArrivalOffers(s: State, f: Frame)
    requires !s.closed && Legal(f) && f.payload != []
    ensures var ev := Arrival(f, 0).event;
            FramesOf(s, ev) == [f] && Offered(s, ev) == Encoding(f) && !Next(s, Arrival(f, 0)).closed
  {
    var ev := Arrival(f, 0).event;
    assert [ev][1..] == [] && S.Accepted([]) == [];
    OfferedIsEncoding(s, ev);
    EncodeOne(f);
  }

  lemma FirstRefused(f: Frame, g: Frame)
    requires Legal(f) && f.payload != [] && Legal(g) && g.payload != []
    ensures var two := [Arrival(f, 0)] + [Arrival(g, |Encoding(g)|)];
            IsRun(INIT, two) && Run(INIT, two).delivered == [f, g] && Run(INIT, two).fed == Encoding(g)
  {
    var e := Encoding(g);
    ArrivalOffers(INIT, f);
    RunOne(INIT, Arrival(f, 0));
    var s := Next(INIT, Arrival(f, 0));
    ArrivalOffers(s, g);
    RunOne(s, Arrival(g, |e|));
    assert e[..|e|] == e && [] + e == e;
    RunAppend(INIT, [Arrival(f, 0)], [Arrival(g, |e|)]);
  }

  /** The loss happens: of two messages the pipe takes nothing of the first, as
      one that is full does. Whatever the parties then do, once nothing is left to
      do the port has been handed the second message alone. */
  lemma {:induction false} RefusedIsLost(f: Frame, g: Frame, rest: seq<Step>)
    requires Legal(f) && f.payload != [] && Legal(g) && g.payload != []
    requires var two := [Arrival(f, 0)] + [Arrival(g, |Encoding(g)|)];
             && IsRun(INIT, two) && IsRun(Run(INIT, two), rest) && PeerEvents(rest) == []
             && Quiet(Run(Run(INIT, two), rest))
    ensures var two := [Arrival(f, 0)] + [Arrival(g, |Encoding(g)|)];
            var s := Run(Run(INIT, two), rest);
            s.delivered == [f, g] && P.DataOf(s.core.port) == [P.MessageOf(g)]
  {
    var two := [Arrival(f, 0)] + [Arrival(g, |Encoding(g)|)];
    FirstRefused(f, g);
    FedStays(Run(INIT, two), rest);
    RunAppend(INIT, two, rest);
    Completeness(two + rest);
    EncodeOne(g);
    UniquelyDecodable([g]);
  }

  /** What a step is for the hand-over between reader and pump. */
  function CoreStep(s: State, step: Step): seq<P.Step>
    requires Enabled(s, step)
  {
    match step
    case ReaderFrame => [P.Push(P.MessageOf(Decode(s.readBuf).frame))]
    case ReaderStop => [P.SetEof]
    case Pump(p) => [p]
    case _ => []
  }

  function CoreSteps(s: State, steps: seq<Step>): seq<P.Step>
    requires IsRun(s, steps)
    decreases |steps|
  {
    if |steps| == 0 then [] else CoreStep(s, steps[0]) + CoreSteps(Next(s, steps[0]), steps[1..])
  }

  lemma CoreOne(s: State, step: Step)
    requires Enabled(s, step)
    ensures P.IsRun(s.core, CoreStep(s, step)) && P.Run(s.core, CoreStep(s, step)) == Next(s, step).core
  {
    var c := CoreStep(s, step);
    if c != [] {
      assert c[1..] == [] && P.IsRun(P.Next(s.core, c[0]), []);
    }
  }

  /** A run of the whole is a run of the hand-over, so what holds of every
      interleaving of reader and pump holds here. */
  lemma {:induction false} CoreIsRun(s: State, steps: seq<Step>)
    requires IsRun(s, steps)
    ensures P.IsRun(s.core, CoreSteps(s, steps)) && P.Run(s.core, CoreSteps(s, steps)) == Run(s, steps).core
    decreases |steps|
  {
    if |steps| > 0 {
      var first, t := CoreStep(s, steps[0]), Next(s, steps[0]);
      CoreIsRun(t, steps[1..]);
      CoreOne(s, steps[0]);
      P.RunAppend(s.core, first, CoreSteps(t, steps[1..]));
    }
  }

  /** FIN, end to end: in every run it is accepted at most once. When it has been
      and nothing is left to do, the messages that were handed over
      behind it are exactly those the reader pushed between the drain and the flag
      test of the pump that sent it. */
  lemma {:induction false} FinEndToEnd(steps: seq<Step>)
    requires IsRun(INIT, steps)
    ensures P.FinCount(Run(INIT, steps).core.port) <= 1 && P.IsRun(P.INIT, CoreSteps(INIT, steps))
    ensures Quiet(Run(INIT, steps)) && Run(INIT, steps).core.finSent ==>
              P.BehindFin(Run(INIT, steps).core.port) == P.FinWindow(CoreSteps(INIT, steps))
  {
    var s, hand := Run(INIT, steps), CoreSteps(INIT, steps);
    CoreIsRun(INIT, steps);
    P.FinOnce(hand);
    P.WindowFollows(hand);
    if Quiet(s) {
      QuietCore(s);
      ConcatEmpty(P.BehindFin(s.core.port));
    }
  }

  /** A pump that finds the queue empty and the output ended sends FIN. */
  lemma PumpSendsFin(s: State)
    requires s.core.pump.Idle? && s.core.queue == [] && s.core.eof && !s.core.finSent
    ensures var pump := [Pump(P.Drain), Pump(P.LoadEof(true))];
            && IsRun(s, pump) && Run(s, pump).core.finSent
            && Run(s, pump).core.port == s.core.port + [P.Fin(true)]
  {
    var t := Next(s, Pump(P.Drain));
    RunOne(s, Pump(P.Drain));
    RunOne(t, Pump(P.LoadEof(true)));
    RunAppend(s, [Pump(P.Drain)], [Pump(P.LoadEof(true))]);
    assert [Pump(P.Drain)] + [Pump(P.LoadEof(true))] == [Pump(P.Drain), Pump(P.LoadEof(true))];
  }

  lemma NoFinYet(steps: seq<Step>)
    requires IsRun(INIT, steps) && !Run(INIT, steps).core.finSent
    ensures P.FinCount(Run(INIT, steps).core.port) == 0 && P.BehindFin(Run(INIT, steps).core.port) == []
  {
    CoreIsRun(INIT, steps);
    P.FinOnce(CoreSteps(INIT, steps));
    P.WindowFollows(CoreSteps(INIT, steps));
  }

  /** If FIN has not been accepted by the end of the output, the next pump whose FIN
      the port accepts sends it, once, behind every message. */
  lemma {:induction false} NextPumpSendsFin(steps: seq<Step>)
    requires IsRun(INIT, steps) && Quiet(Run(INIT, steps))
    requires Run(INIT, steps).core.eof && !Run(INIT, steps).core.finSent
    ensures var s, pump := Run(INIT, steps), [Pump(P.Drain), Pump(P.LoadEof(true))];
            && IsRun(s, pump) && Run(s, pump).core.finSent
            && Run(s, pump).core.port == s.core.port + [P.Fin(true)]
            && P.FinCount(Run(s, pump).core.port) == 1 && P.BehindFin(Run(s, pump).core.port) == []
            && P.DataOf(s.core.port) == P.Messages(Parse(s.fed).frames)
  {
    var s := Run(INIT, steps);
    Completeness(steps);
    QuietCore(s);
    PumpSendsFin(s);
    NoFinYet(steps);
    P.FinCountSnoc(s.core.port, P.Fin(true));
    P.BehindFinSnoc(s.core.port, P.Fin(true));
  }
}
