/** The reader of the child's stdout: it reassembles frames from a byte stream
    that arrives in chunks of any size. */
module ChildOutput {
  import opened Bytes
  import opened Frames
  import opened Streams
  import opened Reassembly
  import S = Session
  import P = Protocol

  /** The wake callback: it counts its calls. */
  class Waker {
    var count: nat

    method Wake(ghost session: S.Session)
      modifies this, session`log
      ensures count == old(count) + 1 && session.log == old(session.log) + [S.Woke]
    {
      count := count + 1;
      session.log := session.log + [S.Woke];
    }
  }

  /** The state of the hand-over after the reader has queued some frames. */
  ghost function Queue(s: P.State, fs: seq<Frame>): P.State {
    s.(queue := s.queue + P.Messages(fs), pushed := s.pushed + P.Messages(fs))
  }

  // ---- what the reader does, in order ----

  /** A step of the hand-over, and the wake-up that follows it if there is a
      callback. */
  function Act(step: P.Step, wakes: bool): seq<S.Act> {
    [S.Did(step)] + if wakes then [S.Woke] else []
  }

  function Queueing(fs: seq<Frame>, wakes: bool): seq<S.Act> {
    if |fs| == 0 then []
    else Queueing(fs[..|fs| - 1], wakes) + Act(P.Push(P.MessageOf(fs[|fs| - 1])), wakes)
  }

  /** A read as it is noted: the bytes that came, if any did. */
  function Noted(bytes: seq<byte>): seq<S.Act> { if bytes == [] then [] else [S.Took(bytes)] }

  /** A round of the reader: the bytes of one read, and the frames queued for it. */
  datatype Round = Round(bytes: seq<byte>, frames: seq<Frame>)

  function RoundActs(r: Round, wakes: bool): seq<S.Act> {
    Noted(r.bytes) + Queueing(r.frames, wakes)
  }

  function ReadActs(rounds: seq<Round>, wakes: bool): seq<S.Act> {
    if |rounds| == 0 then []
    else ReadActs(rounds[..|rounds| - 1], wakes) + RoundActs(rounds[|rounds| - 1], wakes)
  }

  /** What the reader does in these rounds, and in the end: it sets the flag. */
  function ReaderActs(rounds: seq<Round>, wakes: bool): seq<S.Act> {
    ReadActs(rounds, wakes) + Act(P.SetEof, wakes)
  }

  function BytesIn(rounds: seq<Round>): seq<byte> {
    if |rounds| == 0 then [] else BytesIn(rounds[..|rounds| - 1]) + rounds[|rounds| - 1].bytes
  }

  function FramesIn(rounds: seq<Round>): seq<Frame> {
    if |rounds| == 0 then [] else FramesIn(rounds[..|rounds| - 1]) + rounds[|rounds| - 1].frames
  }

  /** After k rounds, the frames queued are those complete in the bytes that came. */
  ghost predicate PromptAt(rounds: seq<Round>, k: nat) {
    k <= |rounds| ==> FramesIn(rounds[..k]) == Parse(BytesIn(rounds[..k])).frames
  }

  /** After every round: no complete frame waits for another read. */
  ghost predicate Prompt(rounds: seq<Round>) {
    forall k: nat :: PromptAt(rounds, k)
  }

  lemma RoundsSnoc(rounds: seq<Round>, r: Round, wakes: bool)
    ensures BytesIn(rounds + [r]) == BytesIn(rounds) + r.bytes
    ensures FramesIn(rounds + [r]) == FramesIn(rounds) + r.frames
    ensures ReadActs(rounds + [r], wakes) == ReadActs(rounds, wakes) + RoundActs(r, wakes)
  {
    assert (rounds + [r])[..|rounds|] == rounds;
  }

  lemma PromptBefore(rounds: seq<Round>, r: Round, k: nat)
    requires PromptAt(rounds, k) && k <= |rounds|
    ensures PromptAt(rounds + [r], k)
  {
    assert (rounds + [r])[..k] == rounds[..k];
  }

  lemma PromptSnoc(rounds: seq<Round>, r: Round, seen: seq<byte>, fs: seq<Frame>)
    requires Prompt(rounds) && seen == BytesIn(rounds) && fs == FramesIn(rounds)
    requires Parse(seen + r.bytes).frames == fs + r.frames
    ensures Prompt(rounds + [r])
  {
    RoundsSnoc(rounds, r, false);
    forall k: nat
      ensures PromptAt(rounds + [r], k)
    {
      if k <= |rounds| {
        assert PromptAt(rounds, k);
        PromptBefore(rounds, r, k);
      } else if k == |rounds| + 1 {
        assert PromptAt(rounds + [r], k) by {
          assert (rounds + [r])[..k] == rounds + [r];
        }
      }
    }
  }

  /** What the reader works on: the hand-over, what was done, and the wake-ups. */
  datatype View = View(hand: P.State, log: seq<S.Act>, count: nat)

  ghost function ViewOf(session: S.Session, wake: Waker?): View
    reads session, session.outbound, session.transport, wake
  {
    View(session.HandOver(), session.log, if wake == null then 0 else wake.count)
  }

  /** The view after these frames were queued, and these acts done for it. */
  ghost function After(v: View, fs: seq<Frame>, acts: seq<S.Act>, wakes: bool): View {
    View(Queue(v.hand, fs), v.log + acts, v.count + if wakes then |fs| else 0)
  }

  lemma AfterNone(v: View, wakes: bool)
    ensures After(v, [], [], wakes) == v
  {
    QueueNone(v.hand);
    ConcatEmpty(v.log);
  }

  lemma AfterBoth(v: View, fs: seq<Frame>, acts: seq<S.Act>, gs: seq<Frame>, more: seq<S.Act>, wakes: bool)
    ensures After(After(v, fs, acts, wakes), gs, more, wakes) == After(v, fs + gs, acts + more, wakes)
  {
    QueueAll(v.hand, fs, gs);
    ConcatAssoc(v.log, acts, more);
  }

  lemma QueueingSnoc(fs: seq<Frame>, f: Frame, wakes: bool)
    ensures Queueing(fs, wakes) + Act(P.Push(P.MessageOf(f)), wakes) == Queueing(fs + [f], wakes)
  {
    assert (fs + [f])[..|fs|] == fs;
  }

  /** The steps among some acts. */
  function StepsOf(acts: seq<S.Act>): seq<P.Step> {
    if |acts| == 0 then []
    else
      var last := acts[|acts| - 1];
      StepsOf(acts[..|acts| - 1]) + if last.Did? then [last.step] else []
  }

  lemma {:induction false} StepsAppend(a: seq<S.Act>, b: seq<S.Act>)
    ensures StepsOf(a + b) == StepsOf(a) + StepsOf(b)
    decreases |b|
  {
    if |b| == 0 {
      ConcatEmpty(a);
      ConcatEmpty(StepsOf(a));
    } else {
      var m := |b| - 1;
      StepsAppend(a, b[..m]);
      assert (a + b)[..|a + b| - 1] == a + b[..m];
      ConcatAssoc(StepsOf(a), StepsOf(b[..m]), if b[m].Did? then [b[m].step] else []);
    }
  }

  lemma StepsOfAct(step: P.Step, wakes: bool)
    ensures StepsOf(Act(step, wakes)) == [step]
  {
    var first := [S.Did(step)];
    assert first[..0] == [] && StepsOf(first) == [step];
    if wakes {
      assert Act(step, wakes)[..1] == first;
    } else {
      ConcatEmpty(first);
    }
  }

  lemma {:induction false} StepsOfQueueing(fs: seq<Frame>, wakes: bool)
    ensures StepsOf(Queueing(fs, wakes)) == P.Pushes(P.Messages(fs))
  {
    if |fs| > 0 {
      var m := |fs| - 1;
      StepsOfQueueing(fs[..m], wakes);
      StepsOfAct(P.Push(P.MessageOf(fs[m])), wakes);
      StepsAppend(Queueing(fs[..m], wakes), Act(P.Push(P.MessageOf(fs[m])), wakes));
      PushesLast(fs);
    }
  }

  lemma PushesLast(fs: seq<Frame>)
    requires |fs| > 0
    ensures var m := |fs| - 1; P.Pushes(P.Messages(fs)) == P.Pushes(P.Messages(fs[..m])) + [P.Push(P.MessageOf(fs[m]))]
  {
  }

  lemma StepsOfRound(r: Round, wakes: bool)
    ensures StepsOf(RoundActs(r, wakes)) == P.Pushes(P.Messages(r.frames))
  {
    assert StepsOf(Noted(r.bytes)) == [] by {
      if r.bytes != [] { assert Noted(r.bytes)[..0] == []; }
    }
    StepsAppend(Noted(r.bytes), Queueing(r.frames, wakes));
    StepsOfQueueing(r.frames, wakes);
    ConcatEmpty(P.Pushes(P.Messages(r.frames)));
  }

  lemma {:induction false} StepsOfReads(rounds: seq<Round>, wakes: bool)
    ensures StepsOf(ReadActs(rounds, wakes)) == P.Pushes(P.Messages(FramesIn(rounds)))
  {
    if |rounds| > 0 {
      var front, last := rounds[..|rounds| - 1], rounds[|rounds| - 1];
      StepsOfReads(front, wakes);
      StepsOfRound(last, wakes);
      StepsAppend(ReadActs(front, wakes), RoundActs(last, wakes));
      P.MessagesAppend(FramesIn(front), last.frames);
      PushesAppend(P.Messages(FramesIn(front)), P.Messages(last.frames));
    }
  }

  lemma PushesAppend(a: seq<P.Message>, b: seq<P.Message>)
    ensures P.Pushes(a + b) == P.Pushes(a) + P.Pushes(b)
  {
  }

  /** The reader's steps of the hand-over: it pushes its frames, in order, and sets
      the flag once, behind them. */
  lemma ReaderKeepsOrder(rounds: seq<Round>, wakes: bool)
    ensures StepsOf(ReaderActs(rounds, wakes)) == P.ReaderSteps(P.Messages(FramesIn(rounds)))
  {
    StepsOfReads(rounds, wakes);
    StepsOfAct(P.SetEof, wakes);
    StepsAppend(ReadActs(rounds, wakes), Act(P.SetEof, wakes));
  }

  // ---- promptness, in the log ----

  /** The bytes taken among some acts. */
  function TakenIn(acts: seq<S.Act>): seq<byte> {
    if |acts| == 0 then []
    else
      var last := acts[|acts| - 1];
      TakenIn(acts[..|acts| - 1]) + if last.Took? then last.bytes else []
  }

  lemma {:induction false} TakenAppend(a: seq<S.Act>, b: seq<S.Act>)
    ensures TakenIn(a + b) == TakenIn(a) + TakenIn(b)
    decreases |b|
  {
    if |b| == 0 {
      ConcatEmpty(a);
      ConcatEmpty(TakenIn(a));
    } else {
      var m := |b| - 1;
      TakenAppend(a, b[..m]);
      assert (a + b)[..|a + b| - 1] == a + b[..m];
      ConcatAssoc(TakenIn(a), TakenIn(b[..m]), if b[m].Took? then b[m].bytes else []);
    }
  }

  /** Neither a read nor the end. */
  predicate OnlyPushes(acts: seq<S.Act>) {
    forall i :: 0 <= i < |acts| ==> acts[i] == S.Woke || (acts[i].Did? && acts[i].step.Push?)
  }

  lemma {:induction false} PushesTakeNothing(acts: seq<S.Act>)
    requires OnlyPushes(acts)
    ensures TakenIn(acts) == []
  {
    if |acts| > 0 { PushesTakeNothing(acts[..|acts| - 1]); }
  }

  lemma {:induction false} QueueingPushes(fs: seq<Frame>, wakes: bool)
    ensures OnlyPushes(Queueing(fs, wakes))
  {
    if |fs| > 0 { QueueingPushes(fs[..|fs| - 1], wakes); }
  }

  lemma TakenInRound(r: Round, wakes: bool)
    ensures TakenIn(RoundActs(r, wakes)) == r.bytes
  {
    QueueingPushes(r.frames, wakes);
    PushesTakeNothing(Queueing(r.frames, wakes));
    TakenAppend(Noted(r.bytes), Queueing(r.frames, wakes));
    if r.bytes != [] { assert Noted(r.bytes)[..0] == [] && TakenIn(Noted(r.bytes)) == [] + r.bytes; }
    ConcatEmpty(r.bytes);
  }

  lemma {:induction false} TakenInReads(rounds: seq<Round>, wakes: bool)
    ensures TakenIn(ReadActs(rounds, wakes)) == BytesIn(rounds)
  {
    if |rounds| > 0 {
      var front, last := rounds[..|rounds| - 1], rounds[|rounds| - 1];
      TakenInReads(front, wakes);
      TakenInRound(last, wakes);
      TakenAppend(ReadActs(front, wakes), RoundActs(last, wakes));
    }
  }

  /** The frames complete in what was taken were all pushed, and no others. */
  ghost predicate Settled(acts: seq<S.Act>) {
    StepsOf(acts) == P.Pushes(P.Messages(Parse(TakenIn(acts)).frames))
  }

  /** If act k is a read or the end, all was settled before. */
  ghost predicate SettledAt(acts: seq<S.Act>, k: nat) {
    k < |acts| && (acts[k].Took? || acts[k] == S.Did(P.SetEof)) ==> Settled(acts[..k])
  }

  /** The reader reads on and ends only when all is settled. */
  ghost predicate PromptLog(acts: seq<S.Act>) { forall k: nat :: SettledAt(acts, k) }

  lemma PromptLogMore(acts: seq<S.Act>, more: seq<S.Act>)
    requires PromptLog(acts) && Settled(acts) && (more != [] ==> OnlyPushes(more[1..]))
    ensures PromptLog(acts + more)
  {
    forall k: nat
      ensures SettledAt(acts + more, k)
    {
      if k < |acts| {
        assert SettledAt(acts, k);
        assert SettledAt(acts + more, k) by {
          assert (acts + more)[..k] == acts[..k];
        }
      } else if k == |acts| {
        assert (acts + more)[..k] == acts;
      } else if k < |acts + more| {
        assert (acts + more)[k] == more[1..][k - |acts| - 1];
      }
    }
  }

  lemma SettledReads(rounds: seq<Round>, wakes: bool, seen: seq<byte>, fs: seq<Frame>)
    requires PromptAt(rounds, |rounds|) && seen == BytesIn(rounds) && fs == FramesIn(rounds)
    ensures Settled(ReadActs(rounds, wakes))
  {
    StepsOfReads(rounds, wakes);
    TakenInReads(rounds, wakes);
    assert rounds[..|rounds|] == rounds;
  }

  lemma PromptFront(rounds: seq<Round>)
    requires Prompt(rounds) && |rounds| > 0
    ensures Prompt(rounds[..|rounds| - 1])
  {
    var front := rounds[..|rounds| - 1];
    forall k: nat
      ensures PromptAt(front, k)
    {
      assert PromptAt(rounds, k);
      if k <= |front| { assert front[..k] == rounds[..k]; }
    }
  }

  lemma {:induction false} ReadsArePrompt(rounds: seq<Round>, wakes: bool)
    requires Prompt(rounds)
    ensures PromptLog(ReadActs(rounds, wakes))
  {
    if |rounds| > 0 {
      var front, last := rounds[..|rounds| - 1], rounds[|rounds| - 1];
      PromptFront(rounds);
      ReadsArePrompt(front, wakes);
      assert PromptAt(front, |front|);
      SettledReads(front, wakes, BytesIn(front), FramesIn(front));
      assert RoundActs(last, wakes) != [] ==> OnlyPushes(RoundActs(last, wakes)[1..]) by {
        QueueingPushes(last.frames, wakes);
        if last.bytes != [] { assert RoundActs(last, wakes)[1..] == Queueing(last.frames, wakes); }
      }
      PromptLogMore(ReadActs(front, wakes), RoundActs(last, wakes));
    }
  }

  /** In the log: whenever the reader reads and when it sets the flag, it has pushed
      exactly the frames complete in the bytes it has taken. */
  lemma ReaderIsPrompt(rounds: seq<Round>, wakes: bool)
    requires Prompt(rounds)
    ensures PromptLog(ReaderActs(rounds, wakes)) && TakenIn(ReaderActs(rounds, wakes)) == BytesIn(rounds)
  {
    var acts, last := ReadActs(rounds, wakes), Act(P.SetEof, wakes);
    ReadsArePrompt(rounds, wakes);
    assert PromptAt(rounds, |rounds|);
    SettledReads(rounds, wakes, BytesIn(rounds), FramesIn(rounds));
    PromptLogMore(acts, last);
    TakenInReads(rounds, wakes);
    TakenAppend(acts, last);
    EndTakesNothing(wakes);
    ConcatEmpty(BytesIn(rounds));
  }

  lemma EndTakesNothing(wakes: bool)
    ensures TakenIn(Act(P.SetEof, wakes)) == []
  {
    var first := [S.Did(P.SetEof)];
    assert first[..0] == [] && TakenIn(first) == [];
    if wakes {
      assert Act(P.SetEof, wakes)[..1] == first;
    } else {
      ConcatEmpty(first);
    }
  }

  // ---- the reader thread ----

  lemma PushView(v: View, f: Frame, w: View, x: View, wakes: bool)
    requires var m := P.MessageOf(f);
             w == View(v.hand.(queue := v.hand.queue + [m], pushed := v.hand.pushed + [m]), v.log + [S.Did(P.Push(m))],
                       v.count)
    requires x == if wakes then View(w.hand, w.log + [S.Woke], w.count + 1) else w
    ensures x == After(v, [f], Act(P.Push(P.MessageOf(f)), wakes), wakes)
  {
    assert P.Messages([f]) == [P.MessageOf(f)];
  }

  /** Queues a frame and then wakes the network thread. */
  method QueueAndWake(f: Frame, session: S.Session, wake: Waker?)
    requires session.Valid()
    modifies session`pushed, session`log, session.outbound, session.outbound.Repr, wake
    ensures session.Valid() && fresh(session.outbound.Repr - old(session.outbound.Repr))
    ensures ViewOf(session, wake)
         == After(old(ViewOf(session, wake)), [f], Act(P.Push(P.MessageOf(f)), wake != null), wake != null)
  {
    ghost var v, wakes := ViewOf(session, wake), wake != null;
    session.OnOutput(f.flag, f.payload);
    ghost var w := ViewOf(session, wake);
    if wake != null { wake.Wake(session); }
    PushView(v, f, w, ViewOf(session, wake), wakes);
  }

  /** Delivers the frame in the first n bytes of the buffer and drops them. */
  method DeliverOne(buf: array<byte>, used: nat, n: nat, f: Frame, session: S.Session, wake: Waker?) returns (left: nat)
    requires session.Valid() && n <= used <= buf.Length
    modifies buf, session`pushed, session`log, session.outbound, session.outbound.Repr, wake
    ensures session.Valid() && fresh(session.outbound.Repr - old(session.outbound.Repr))
    ensures left == used - n && buf[..left] == old(buf[n..used])
    ensures ViewOf(session, wake)
         == After(old(ViewOf(session, wake)), [f], Act(P.Push(P.MessageOf(f)), wake != null), wake != null)
  {
    QueueAndWake(f, session, wake);
    Discard(buf, n, used);
    left := used - n;
  }

  /** The inner loop: delivers every complete frame in buf[..used0] and keeps the
      rest, unless it meets a malformed frame. */
  method DeliverBuffered(buf: array<byte>, used0: nat, session: S.Session, wake: Waker?)
    returns (used: nat, malformed: bool)
    requires buf.Length == CAP && used0 <= CAP && session.Valid()
    modifies buf, session`pushed, session`log, session.outbound, session.outbound.Repr, wake
    ensures session.Valid() && fresh(session.outbound.Repr - old(session.outbound.Repr)) && used <= CAP
    ensures var p, wakes := Parse(old(buf[..used0])), wake != null;
            && ViewOf(session, wake) == After(old(ViewOf(session, wake)), p.frames, Queueing(p.frames, wakes), wakes)
            && p.end == if malformed then Malformed else Held(buf[..used])
  {
    ghost var start, whole, wakes := ViewOf(session, wake), Parse(buf[..used0]), wake != null;
    ghost var done: seq<Frame> := [];
    used := used0;
    StartTaking(buf[..used]);
    AfterNone(start, wakes);
    while true
      invariant session.Valid() && used <= CAP
      invariant fresh(session.outbound.Repr - old(session.outbound.Repr))
      invariant ViewOf(session, wake) == After(start, done, Queueing(done, wakes), wakes)
      invariant Taking(whole, done, buf[..used])
      decreases used
    {
      ghost var bytes := buf[..used];
      var d := Decode(buf[..used]);
      if !d.Ok? {
        StopTaking(whole, done, bytes);
        malformed := !d.Incomplete?;
        return;
      }
      TakeFrame(whole, done, bytes, d.consumed, d.frame);
      AfterBoth(start, done, Queueing(done, wakes), [d.frame], Act(P.Push(P.MessageOf(d.frame)), wakes), wakes);
      QueueingSnoc(done, d.frame, wakes);
      assert buf[d.consumed..used] == bytes[d.consumed..];
      used := DeliverOne(buf, used, d.consumed, d.frame, session, wake);
      done := done + [d.frame];
    }
  }

  lemma QueueAll(s: P.State, fs: seq<Frame>, gs: seq<Frame>)
    ensures Queue(Queue(s, fs), gs) == Queue(s, fs + gs)
  {
    P.MessagesAppend(fs, gs);
    ConcatAssoc(s.queue, P.Messages(fs), P.Messages(gs));
    ConcatAssoc(s.pushed, P.Messages(fs), P.Messages(gs));
  }

  lemma QueueNone(s: P.State)
    ensures Queue(s, []) == s
  {
    ConcatEmpty(s.queue);
    ConcatEmpty(s.pushed);
  }

  /** A read into the free part of the buffer. The session only notes what came. */
  method Receive(fd: Source, buf: array<byte>, used: nat, ghost session: S.Session, ghost wake: Waker?)
    returns (r: ReadResult, ghost n: nat)
    requires buf.Length == CAP && used < CAP && session.Valid()
    modifies fd, buf, session`log
    ensures session.Valid() && session.outbound.Repr == old(session.outbound.Repr)
    ensures n == (if r.Got? then r.n else 0) <= CAP - used && n <= |old(fd.data)|
    ensures ViewOf(session, wake) == After(old(ViewOf(session, wake)), [], Noted(old(fd.data)[..n]), wake != null)
    ensures r.Got? && r.n == 0 ==> old(fd.data) == []
    ensures buf[..used + n] == old(buf[..used]) + old(fd.data)[..n] && fd.data == old(fd.data)[n..]
    ensures (r.Failed? ==> Fail in old(fd.script)) && (Fail in fd.script ==> Fail in old(fd.script))
    ensures r != Got(0) ==> |fd.data| + |fd.script| < |old(fd.data)| + |old(fd.script)|
  {
    ghost var coming, start := fd.data, ViewOf(session, wake);
    r := fd.Read(buf, used, CAP - used);
    n := if r.Got? then r.n else 0;
    session.log := session.log + Noted(coming[..n]);
    QueueNone(start.hand);
  }

  lemma RoundView(v: View, bytes: seq<byte>, fs: seq<Frame>, wakes: bool)
    ensures After(After(v, [], Noted(bytes), wakes), fs, Queueing(fs, wakes), wakes)
         == After(v, fs, RoundActs(Round(bytes, fs), wakes), wakes)
  {
    AfterBoth(v, [], Noted(bytes), fs, Queueing(fs, wakes), wakes);
    ConcatEmpty(fs);
  }

  lemma EmptyRound(v: View, wakes: bool)
    ensures After(v, [], Noted([]), wakes) == After(v, [], RoundActs(Round([], []), wakes), wakes)
  {
  }

  /** What the reader does with n bytes that came behind those it held. */
  method DeliverChunk(buf: array<byte>, used: nat, session: S.Session, wake: Waker?, ghost held: seq<byte>,
                      ghost bytes: seq<byte>, ghost start: View)
    returns (left: nat, malformed: bool, ghost added: seq<Frame>, ghost end: End)
    requires buf.Length == CAP && used <= CAP && session.Valid() && bytes != [] && buf[..used] == held + bytes
    requires ViewOf(session, wake) == After(start, [], Noted(bytes), wake != null)
    modifies buf, session`pushed, session`log, session.outbound, session.outbound.Repr, wake
    ensures session.Valid() && fresh(session.outbound.Repr - old(session.outbound.Repr)) && left <= CAP
    ensures Extends(held, bytes, added, end) && end == if malformed then Malformed else Held(buf[..left])
    ensures ViewOf(session, wake) == After(start, added, RoundActs(Round(bytes, added), wake != null), wake != null)
  {
    ghost var p := Parse(buf[..used]);
    added, end := p.frames, p.end;
    RoundView(start, bytes, added, wake != null);
    left, malformed := DeliverBuffered(buf, used, session, wake);
  }

  /** One round of the outer loop: a read, and the delivery of what is complete. */
  method ReadOnce(fd: Source, buf: array<byte>, used: nat, session: S.Session, wake: Waker?)
    returns (left: nat, go: bool, ghost n: nat, ghost added: seq<Frame>, ghost end: End)
    requires buf.Length == CAP && used < CAP && session.Valid()
    modifies fd, buf, session`pushed, session`log, session.outbound, session.outbound.Repr, wake
    ensures session.Valid() && fresh(session.outbound.Repr - old(session.outbound.Repr)) && left <= CAP
    ensures Fail in fd.script ==> Fail in old(fd.script)
    ensures n <= |old(fd.data)| && n <= CAP - used && fd.data == old(fd.data)[n..]
    ensures Extends(old(buf[..used]), old(fd.data)[..n], added, end)
    ensures go ==> end == Held(buf[..left]) && |fd.data| + |fd.script| < |old(fd.data)| + |old(fd.script)|
    ensures !go ==> old(fd.data) == [] || end == Malformed || Fail in old(fd.script)
    ensures var wakes := wake != null;
            ViewOf(session, wake)
            == After(old(ViewOf(session, wake)), added, RoundActs(Round(old(fd.data)[..n], added), wakes), wakes)
  {
    ghost var held, coming, start := buf[..used], fd.data, ViewOf(session, wake);
    var r;
    r, n := Receive(fd, buf, used, session, wake);
    if !r.Got? || r.n == 0 {
      left, go, added, end := used, r.Interrupted?, [], Held(held);
      EmptyRound(start, wake != null);
      return;
    }
    var malformed;
    left, malformed, added, end := DeliverChunk(buf, used + r.n, session, wake, held, coming[..n], start);
    go := !malformed;
  }

  /** The trace of the rounds so far: what came, and the frames in it. */
  ghost predicate Trace(start: View, v: View, rounds: seq<Round>, seen: seq<byte>, fs: seq<Frame>, wakes: bool) {
    && seen == BytesIn(rounds) && fs == FramesIn(rounds) && Prompt(rounds)
    && v == After(start, fs, ReadActs(rounds, wakes), wakes)
  }

  lemma TraceStart(v: View, wakes: bool)
    ensures Trace(v, v, [], [], [], wakes)
  {
    assert Prompt([]) by {
      ParseEmpty();
    }
    AfterNone(v, wakes);
  }

  lemma TraceMore(start: View, v: View, rounds: seq<Round>, seen: seq<byte>, fs: seq<Frame>, wakes: bool,
                  bytes: seq<byte>, gs: seq<Frame>, w: View)
    requires Trace(start, v, rounds, seen, fs, wakes) && Parse(seen + bytes).frames == fs + gs
    requires w == After(v, gs, RoundActs(Round(bytes, gs), wakes), wakes)
    ensures Trace(start, w, rounds + [Round(bytes, gs)], seen + bytes, fs + gs, wakes)
  {
    var r := Round(bytes, gs);
    AfterBoth(start, fs, ReadActs(rounds, wakes), gs, RoundActs(r, wakes), wakes);
    RoundsSnoc(rounds, r, wakes);
    PromptSnoc(rounds, r, seen, fs);
  }

  /** Where the outer loop stands between two rounds. */
  ghost predicate Stage(total: seq<byte>, coming: seq<byte>, failed: bool, held: seq<byte>, go: bool, start: View,
                        v: View, rounds: seq<Round>, seen: seq<byte>, fs: seq<Frame>, end: End, wakes: bool)
  {
    && Reading(total, seen, coming, fs, end) && Trace(start, v, rounds, seen, fs, wakes)
    && if go then end == Held(held) else coming == [] || !end.Waiting? || failed
  }

  lemma StageStart(total: seq<byte>, failed: bool, v: View, wakes: bool)
    ensures Stage(total, total, failed, [], true, v, v, [], [], [], Held([]), wakes)
  {
    StartReading(total);
    TraceStart(v, wakes);
  }

  /** A round, with what it adds to the trace. */
  method NextRound(fd: Source, buf: array<byte>, used: nat, session: S.Session, wake: Waker?, ghost failed: bool,
                   ghost total: seq<byte>, ghost start: View, ghost rounds: seq<Round>, ghost seen: seq<byte>,
                   ghost fs: seq<Frame>, ghost end: End)
    returns (left: nat, go: bool, ghost rounds': seq<Round>, ghost seen': seq<byte>, ghost fs': seq<Frame>,
             ghost end': End)
    requires buf.Length == CAP && used < CAP && session.Valid() && (Fail in fd.script ==> failed)
    requires Stage(total, fd.data, failed, buf[..used], true, start, ViewOf(session, wake), rounds, seen, fs, end,
                   wake != null)
    modifies fd, buf, session`pushed, session`log, session.outbound, session.outbound.Repr, wake
    ensures session.Valid() && fresh(session.outbound.Repr - old(session.outbound.Repr)) && left <= CAP
    ensures Fail in fd.script ==> failed
    ensures go ==> |fd.data| + |fd.script| < |old(fd.data)| + |old(fd.script)|
    ensures Stage(total, fd.data, failed, buf[..left], go, start, ViewOf(session, wake), rounds', seen', fs', end',
                  wake != null)
  {
    ghost var n, added, coming, held, v := 0, [], fd.data, buf[..used], ViewOf(session, wake);
    left, go, n, added, end' := ReadOnce(fd, buf, used, session, wake);
    ReadMore(total, seen, coming, n, fs, held, added, end');
    TraceMore(start, v, rounds, seen, fs, wake != null, coming[..n], added, ViewOf(session, wake));
    rounds', seen', fs' := rounds + [Round(coming[..n], added)], seen + coming[..n], fs + added;
  }

  /** The outer loop of the reader. */
  method ReadRounds(fd: Source, session: S.Session, wake: Waker?, ghost total: seq<byte>, ghost start: View,
                    ghost failed: bool)
    returns (ghost held: seq<byte>, ghost go: bool, ghost fs: seq<Frame>, ghost rounds: seq<Round>,
             ghost seen: seq<byte>, ghost end: End)
    requires session.Valid() && total == fd.data && start == ViewOf(session, wake) && (Fail in fd.script ==> failed)
    modifies fd, session`pushed, session`log, session.outbound, session.outbound.Repr, wake
    ensures session.Valid() && fresh(session.outbound.Repr - old(session.outbound.Repr)) && (go ==> |held| >= CAP)
    ensures Stage(total, fd.data, failed, held, go, start, ViewOf(session, wake), rounds, seen, fs, end, wake != null)
  {
    var buf := new byte[CAP];
    var used: nat, on := 0, true;
    fs, rounds, seen, end := [], [], [], Held([]);
    assert buf[..0] == [];
    StageStart(total, failed, start, wake != null);
    while on && used < CAP
      invariant session.Valid() && used <= CAP && fresh(session.outbound.Repr - old(session.outbound.Repr))
      invariant Fail in fd.script ==> failed
      invariant Stage(total, fd.data, failed, buf[..used], on, start, ViewOf(session, wake), rounds, seen, fs, end,
                      wake != null)
      decreases on, |fd.data| + |fd.script|
    {
      used, on, rounds, seen, fs, end :=
        NextRound(fd, buf, used, session, wake, failed, total, start, rounds, seen, fs, end);
    }
    held, go := buf[..used], on;
  }

  method ReadAll(fd: Source, session: S.Session, wake: Waker?)
    returns (ghost frames: seq<Frame>, ghost rounds: seq<Round>, ghost seen: seq<byte>)
    requires session.Valid()
    modifies fd, session`pushed, session`log, session.outbound, session.outbound.Repr, wake
    ensures session.Valid() && fresh(session.outbound.Repr - old(session.outbound.Repr))
    ensures Trace(old(ViewOf(session, wake)), ViewOf(session, wake), rounds, seen, frames, wake != null)
    ensures old(fd.data) == seen + fd.data && Delivered(old(fd.data), fd.data, Fail in old(fd.script), frames)
  {
    ghost var total, start, failed := fd.data, ViewOf(session, wake), Fail in fd.script;
    ghost var held, go, end;
    held, go, frames, rounds, seen, end := ReadRounds(fd, session, wake, total, start, failed);
    assert Trace(start, ViewOf(session, wake), rounds, seen, frames, wake != null) && total == seen + fd.data
        && Delivered(total, fd.data, failed, frames) by {
      StopReading(total, seen, fd.data, frames, end, failed);
    }
  }

  /** The view when the reader has left: in each round it queued the frames that
      were complete, before it read on; then it set the flag; it woke the other
      thread after each step; and with the flag not set before, its steps are a
      run of the hand-over. */
  ghost predicate Left(start: View, v: View, rounds: seq<Round>, seen: seq<byte>, fs: seq<Frame>, wakes: bool) {
    && seen == BytesIn(rounds) && fs == FramesIn(rounds) && Prompt(rounds)
    && v.log == start.log + ReaderActs(rounds, wakes)
    && PromptLog(ReaderActs(rounds, wakes)) && TakenIn(ReaderActs(rounds, wakes)) == seen
    && StepsOf(ReaderActs(rounds, wakes)) == P.ReaderSteps(P.Messages(fs))
    && v.hand == Queue(start.hand, fs).(eof := true)
    && (!start.hand.eof ==> P.IsRun(start.hand, P.ReaderSteps(P.Messages(fs))))
    && v.count == start.count + if wakes then |fs| + 1 else 0
  }

  lemma LeaveTrace(start: View, v: View, rounds: seq<Round>, seen: seq<byte>, fs: seq<Frame>, wakes: bool, w: View)
    requires Trace(start, v, rounds, seen, fs, wakes)
    requires w == View(v.hand.(eof := true), v.log + Act(P.SetEof, wakes), v.count + if wakes then 1 else 0)
    ensures Left(start, w, rounds, seen, fs, wakes)
  {
    ConcatAssoc(start.log, ReadActs(rounds, wakes), Act(P.SetEof, wakes));
    ReaderKeepsOrder(rounds, wakes);
    ReaderIsPrompt(rounds, wakes);
    if !start.hand.eof { P.ReaderIsRun(start.hand, P.Messages(fs)); }
  }

  /** Sets the flag and then wakes the network thread. */
  method SetEofAndWake(session: S.Session, wake: Waker?)
    requires session.Valid()
    modifies session`outputEof, session`log, wake
    ensures session.Valid()
    ensures var v, wakes := old(ViewOf(session, wake)), wake != null;
            ViewOf(session, wake)
            == View(v.hand.(eof := true), v.log + Act(P.SetEof, wakes), v.count + if wakes then 1 else 0)
  {
    session.OnOutputEof();
    if wake != null { wake.Wake(session); }
  }

  /** The reader thread: for every stream and all sizes, interruptions and failures
      of the reads, it queues the greedy parse of the stream and leaves as above. */
  method ReaderMain(fd: Source, session: S.Session, wake: Waker?)
    returns (ghost frames: seq<Frame>, ghost rounds: seq<Round>, ghost seen: seq<byte>)
    requires session.Valid()
    modifies fd, session`pushed, session`outputEof, session`log, session.outbound, session.outbound.Repr, wake
    ensures session.Valid()
    ensures Left(old(ViewOf(session, wake)), ViewOf(session, wake), rounds, seen, frames, wake != null)
    ensures old(fd.data) == seen + fd.data && Delivered(old(fd.data), fd.data, Fail in old(fd.script), frames)
  {
    ghost var start := ViewOf(session, wake);
    frames, rounds, seen := ReadAll(fd, session, wake);
    ghost var v := ViewOf(session, wake);
    SetEofAndWake(session, wake);
    LeaveTrace(start, v, rounds, seen, frames, wake != null, ViewOf(session, wake));
  }
}
