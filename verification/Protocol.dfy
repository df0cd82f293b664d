/** The hand-over from the reader thread to the network thread as a state
    machine: every interleaving of the two is a run of it. A mutex section or an
    atomic access is one step. */
module Protocol {
  import opened Bytes
  import opened Frames

  /** A message as the transport sends it: on the data stream or as a datagram. */
  datatype Message = Stream(bytes: seq<byte>) | Datagram(bytes: seq<byte>)

  /** What a frame of the child is for the transport. */
  function MessageOf(f: Frame): Message {
    if f.flag == FLAG_RELIABLE then Stream(f.payload) else Datagram(f.payload)
  }

  function Messages(fs: seq<Frame>): (ms: seq<Message>)
    ensures |ms| == |fs|
  {
    seq(|fs|, i requires 0 <= i < |fs| => MessageOf(fs[i]))
  }

  lemma MessagesAppend(fs: seq<Frame>, gs: seq<Frame>)
    ensures Messages(fs + gs) == Messages(fs) + Messages(gs)
  {
  }

  /** The kind of a message is the first byte of its frame, whatever the form of
      its length: zero for the stream, one for a datagram. */
  lemma KindIsFirstByte(w: seq<byte>, f: Frame)
    requires IsFrame(w, f)
    ensures MessageOf(f) == if w[0] == 0 then Stream(f.payload) else Datagram(f.payload)
    ensures w[0] == 0 || w[0] == 1
  {
  }

  lemma MessagesDiffer(fs: seq<Frame>, gs: seq<Frame>)
    requires forall i :: 0 <= i < |fs| ==> fs[i].flag <= 1
    requires forall i :: 0 <= i < |gs| ==> gs[i].flag <= 1
    ensures Messages(fs) == Messages(gs) <==> fs == gs
  {
    if Messages(fs) == Messages(gs) {
      forall i | 0 <= i < |fs|
        ensures fs[i] == gs[i]
      {
        assert MessageOf(fs[i]) == Messages(fs)[i] == Messages(gs)[i] == MessageOf(gs[i]);
      }
    }
  }

  /** Where the pump stands: outside, or sending a detached batch. */
  datatype Pump = Idle | Sending(batch: seq<Message>)

  /** A call at the transport port. */
  datatype Call = Data(message: Message) | Fin(accepted: bool)

  /** pushed records every message the reader has queued. */
  datatype State = State(
    queue: seq<Message>, eof: bool, finSent: bool, pump: Pump, port: seq<Call>, pushed: seq<Message>)

  const INIT: State := State([], false, false, Idle, [], [])

  /** The reader pushes a message or sets the EOF flag, once and last; the pump
      detaches the queue, hands over a message, or loads the EOF flag and tries a
      FIN, whose answer is the port's. */
  datatype Step = Push(message: Message) | SetEof | Drain | Send | LoadEof(accepted: bool)

  predicate Enabled(s: State, step: Step) {
    match step
    case Push(_) => !s.eof
    case SetEof => !s.eof
    case Drain => s.pump.Idle?
    case Send => s.pump.Sending? && s.pump.batch != []
    case LoadEof(_) => s.pump.Sending? && s.pump.batch == []
  }

  function Next(s: State, step: Step): State
    requires Enabled(s, step)
  {
    match step
    case Push(m) => s.(queue := s.queue + [m], pushed := s.pushed + [m])
    case SetEof => s.(eof := true)
    case Drain => s.(queue := [], pump := Sending(s.queue))
    case Send => s.(pump := Sending(s.pump.batch[1..]), port := s.port + [Data(s.pump.batch[0])])
    case LoadEof(accepted) =>
      if s.eof && !s.finSent then s.(pump := Idle, port := s.port + [Fin(accepted)], finSent := accepted)
      else s.(pump := Idle)
  }

  predicate IsRun(s: State, steps: seq<Step>)
    decreases |steps|
  {
    |steps| > 0 ==> Enabled(s, steps[0]) && IsRun(Next(s, steps[0]), steps[1..])
  }

  function Run(s: State, steps: seq<Step>): State
    requires IsRun(s, steps)
    decreases |steps|
  {
    if |steps| == 0 then s else Run(Next(s, steps[0]), steps[1..])
  }

  lemma {:induction false} RunAppend(s: State, a: seq<Step>, b: seq<Step>)
    ensures IsRun(s, a + b) <==> IsRun(s, a) && IsRun(Run(s, a), b)
    ensures IsRun(s, a + b) ==> Run(s, a + b) == Run(Run(s, a), b)
    decreases |a|
  {
    if |a| == 0 {
      assert a + b == b;
    } else {
      assert (a + b)[1..] == a[1..] + b;
      if Enabled(s, a[0]) { RunAppend(Next(s, a[0]), a[1..], b); }
    }
  }

  lemma RunSnoc(s: State, a: seq<Step>, step: Step)
    ensures IsRun(s, a + [step]) <==> IsRun(s, a) && Enabled(Run(s, a), step)
    ensures IsRun(s, a + [step]) ==> Run(s, a + [step]) == Next(Run(s, a), step)
  {
    RunAppend(s, a, [step]);
    if IsRun(s, a) && Enabled(Run(s, a), step) {
      var t := Next(Run(s, a), step);
      assert [step][1..] == [];
      assert IsRun(t, []) && Run(t, []) == t;
    }
  }

  // ---- conservation ----

  /** The messages among the calls at the port. */
  function DataOf(port: seq<Call>): seq<Message> {
    if |port| == 0 then []
    else
      var front := DataOf(port[..|port| - 1]);
      var last := port[|port| - 1];
      if last.Data? then front + [last.message] else front
  }

  function Batch(p: Pump): seq<Message> {
    if p.Idle? then [] else p.batch
  }

  lemma DataOfSnoc(port: seq<Call>, c: Call)
    ensures DataOf(port + [c]) == DataOf(port) + (if c.Data? then [c.message] else [])
  {
    assert (port + [c])[..|port|] == port;
  }

  /** Every message pushed is handed to the port, in the detached batch or in the
      queue: none is lost, repeated or overtaken. */
  ghost predicate Conserved(s: State) {
    s.pushed == DataOf(s.port) + Batch(s.pump) + s.queue
  }

  lemma ConservedStep(s: State, step: Step)
    requires Conserved(s) && Enabled(s, step)
    ensures Conserved(Next(s, step))
  {
    var sent, batch := DataOf(s.port), Batch(s.pump);
    match step
    case Push(m) =>
      ConcatAssoc(sent + batch, s.queue, [m]);
    case SetEof =>
    case Drain =>
      ConcatEmpty(sent);
      ConcatEmpty(sent + s.queue);
    case Send =>
      DataOfSnoc(s.port, Data(batch[0]));
      MoveFirst(sent, batch);
    case LoadEof(accepted) =>
      DataOfSnoc(s.port, Fin(accepted));
      ConcatEmpty(sent);
  }

  lemma MoveFirst(sent: seq<Message>, batch: seq<Message>)
    requires |batch| > 0
    ensures sent + batch == (sent + [batch[0]]) + batch[1..]
  {
  }

  lemma {:induction false} ConservationFrom(s: State, steps: seq<Step>)
    requires Conserved(s) && IsRun(s, steps)
    ensures Conserved(Run(s, steps))
    decreases |steps|
  {
    if |steps| > 0 {
      ConservedStep(s, steps[0]);
      ConservationFrom(Next(s, steps[0]), steps[1..]);
    }
  }

  /** Conservation in every interleaving: the messages at the port are always a
      prefix of the messages pushed, and the rest is accounted for. */
  lemma Conservation(steps: seq<Step>)
    requires IsRun(INIT, steps)
    ensures Conserved(Run(INIT, steps))
    ensures DataOf(Run(INIT, steps).port) <= Run(INIT, steps).pushed
  {
    ConservationFrom(INIT, steps);
  }

  // ---- FIN ----

  /** The messages pushed since the last Drain of a run. */
  function SinceDrain(steps: seq<Step>): seq<Message> {
    if |steps| == 0 then []
    else
      var front := SinceDrain(steps[..|steps| - 1]);
      match steps[|steps| - 1]
      case Push(m) => front + [m]
      case Drain => []
      case _ => front
  }

  /** The queue holds what has been pushed since the last Drain, and never less
      than that while the pump is inside. */
  lemma {:induction false} QueueIsSinceDrain(steps: seq<Step>)
    requires IsRun(INIT, steps)
    ensures Run(INIT, steps).queue == SinceDrain(steps)
  {
    if |steps| > 0 {
      var front, last := steps[..|steps| - 1], steps[|steps| - 1];
      assert steps == front + [last];
      RunSnoc(INIT, front, last);
      QueueIsSinceDrain(front);
    }
  }

  /** The port accepts FIN at this step. */
  ghost predicate FinStep(s: State, step: Step) {
    Enabled(s, step) && step == LoadEof(true) && s.eof && !s.finSent
  }

  function FinCount(port: seq<Call>): nat {
    if |port| == 0 then 0
    else FinCount(port[..|port| - 1]) + (if port[|port| - 1] == Fin(true) then 1 else 0)
  }

  lemma FinCountSnoc(port: seq<Call>, c: Call)
    ensures FinCount(port + [c]) == FinCount(port) + (if c == Fin(true) then 1 else 0)
  {
    assert (port + [c])[..|port|] == port;
  }

  /** FIN is accepted at most once, is recorded exactly then, and only after the
      EOF flag. */
  ghost predicate FinRecorded(s: State) {
    FinCount(s.port) == (if s.finSent then 1 else 0) && (s.finSent ==> s.eof)
  }

  lemma {:induction false} FinOnceFrom(s: State, steps: seq<Step>)
    requires FinRecorded(s) && IsRun(s, steps)
    ensures FinRecorded(Run(s, steps))
    decreases |steps|
  {
    if |steps| > 0 {
      assert FinRecorded(Next(s, steps[0])) by {
        match steps[0]
        case Send => FinCountSnoc(s.port, Data(s.pump.batch[0]));
        case LoadEof(accepted) => FinCountSnoc(s.port, Fin(accepted));
        case _ =>
      }
      FinOnceFrom(Next(s, steps[0]), steps[1..]);
    }
  }

  /** No run has FIN accepted twice, or before the EOF flag is set. */
  lemma FinOnce(steps: seq<Step>)
    requires IsRun(INIT, steps)
    ensures var s := Run(INIT, steps);
            FinCount(s.port) == (if s.finSent then 1 else 0) && (s.finSent ==> s.eof)
  {
    FinOnceFrom(INIT, steps);
  }

  /** The calls that hand over a list of messages. */
  function Calls(ms: seq<Message>): seq<Call> {
    seq(|ms|, i requires 0 <= i < |ms| => Data(ms[i]))
  }

  lemma CallsCons(port: seq<Call>, ms: seq<Message>)
    requires |ms| > 0
    ensures port + Calls(ms) == (port + [Data(ms[0])]) + Calls(ms[1..])
  {
  }

  /** What a run can still do once EOF is set and FIN accepted: hand over the
      messages left in the batch and the queue, in order, and nothing else. */
  lemma {:induction false} AfterFin(s: State, steps: seq<Step>)
    requires s.eof && s.finSent && IsRun(s, steps)
    ensures var t := Run(s, steps);
            t.port + Calls(Batch(t.pump) + t.queue) == s.port + Calls(Batch(s.pump) + s.queue)
    decreases |steps|
  {
    if |steps| > 0 {
      var t := Next(s, steps[0]);
      if steps[0].Send? {
        CallsCons(s.port, s.pump.batch + s.queue);
        assert (s.pump.batch + s.queue)[1..] == s.pump.batch[1..] + s.queue;
      } else {
        assert Batch(t.pump) + t.queue == Batch(s.pump) + s.queue;
      }
      AfterFin(t, steps[1..]);
    }
  }

  /** FIN ordering: whatever the port is handed after it accepted FIN was pushed
      between the Drain and the EOF load of the pump that sent the FIN. */
  lemma FinOrdering(before: seq<Step>, post: seq<Step>)
    requires IsRun(INIT, before) && FinStep(Run(INIT, before), LoadEof(true))
    requires IsRun(Next(Run(INIT, before), LoadEof(true)), post)
    ensures var s := Next(Run(INIT, before), LoadEof(true));
            s.port <= Run(s, post).port <= s.port + Calls(SinceDrain(before))
  {
    var s := Next(Run(INIT, before), LoadEof(true));
    QueueIsSinceDrain(before);
    AfterFin(s, post);
    assert Batch(s.pump) + s.queue == s.queue;
    PortGrows(s, post);
  }

  lemma {:induction false} PortGrows(s: State, steps: seq<Step>)
    requires IsRun(s, steps)
    ensures s.port <= Run(s, steps).port
    decreases |steps|
  {
    if |steps| > 0 { PortGrows(Next(s, steps[0]), steps[1..]); }
  }

  /** The messages among the calls behind the first FIN that was accepted. */
  function BehindFin(port: seq<Call>): seq<Message> {
    if |port| == 0 then []
    else
      var front, last := port[..|port| - 1], port[|port| - 1];
      BehindFin(front) + (if FinCount(front) > 0 && last.Data? then [last.message] else [])
  }

  lemma BehindFinSnoc(port: seq<Call>, c: Call)
    ensures BehindFin(port + [c]) == BehindFin(port) + (if FinCount(port) > 0 && c.Data? then [c.message] else [])
  {
    assert (port + [c])[..|port|] == port;
  }

  /** The messages pushed in the window of the pump that had its FIN accepted, from
      its drain to its load of the EOF flag. None if there is no such pump. */
  function FinWindow(steps: seq<Step>): seq<Message>
    requires IsRun(INIT, steps)
    decreases |steps|
  {
    if |steps| == 0 then []
    else
      var front, last := steps[..|steps| - 1], steps[|steps| - 1];
      assert steps == front + [last];
      RunSnoc(INIT, front, last);
      var s := Run(INIT, front);
      if s.finSent then FinWindow(front)
      else if last == LoadEof(true) && s.eof then SinceDrain(front)
      else []
  }

  /** Where the messages of that window are. */
  ghost predicate WindowInv(s: State, window: seq<Message>) {
    if s.finSent then s.eof && BehindFin(s.port) + Batch(s.pump) + s.queue == window
    else BehindFin(s.port) == [] && window == []
  }

  lemma WindowStep(s: State, window: seq<Message>, step: Step)
    requires WindowInv(s, window) && FinRecorded(s) && Enabled(s, step)
    ensures var w := if s.finSent then window else if step == LoadEof(true) && s.eof then s.queue else [];
            WindowInv(Next(s, step), w)
  {
    var behind := BehindFin(s.port);
    ConcatEmpty(behind);
    match step
    case Push(_) =>
    case SetEof =>
    case Drain => ConcatEmpty(behind + s.queue);
    case Send =>
      BehindFinSnoc(s.port, Data(s.pump.batch[0]));
      MoveFirst(behind, s.pump.batch);
    case LoadEof(accepted) => BehindFinSnoc(s.port, Fin(accepted));
  }

  /** Once FIN is accepted, the messages of its window are exactly those handed over
      behind it, those detached and those queued, in order. Nothing else can
      follow FIN. */
  lemma {:induction false} WindowFollows(steps: seq<Step>)
    requires IsRun(INIT, steps)
    ensures WindowInv(Run(INIT, steps), FinWindow(steps))
    decreases |steps|
  {
    if |steps| > 0 {
      var front, last := steps[..|steps| - 1], steps[|steps| - 1];
      assert steps == front + [last];
      RunSnoc(INIT, front, last);
      WindowFollows(front);
      FinOnce(front);
      QueueIsSinceDrain(front);
      WindowStep(Run(INIT, front), FinWindow(front), last);
    }
  }

  /** Some continuation hands a message to the port after FIN. */
  ghost predicate FrameCanFollow(s: State) {
    exists post :: IsRun(s, post) && DataOf(Run(s, post).port) != DataOf(s.port)
  }

  /** A message can follow FIN exactly when the reader pushed one in that window. */
  lemma FrameFollowsFinIff(before: seq<Step>)
    requires IsRun(INIT, before) && FinStep(Run(INIT, before), LoadEof(true))
    ensures FrameCanFollow(Next(Run(INIT, before), LoadEof(true))) <==> SinceDrain(before) != []
  {
    var s := Next(Run(INIT, before), LoadEof(true));
    QueueIsSinceDrain(before);
    if SinceDrain(before) == [] {
      forall post | IsRun(s, post)
        ensures Run(s, post).port == s.port
      {
        FinOrdering(before, post);
        assert s.port + Calls([]) == s.port;
      }
    } else {
      var post := [Drain, Send];
      var s1 := Next(s, Drain);
      var s2 := Next(s1, Send);
      assert post[1..] == [Send] && [Send][1..] == [];
      assert IsRun(s2, []) && Run(s2, []) == s2;
      assert IsRun(s1, [Send]) && Run(s1, [Send]) == s2;
      assert IsRun(s, post) && Run(s, post) == s2;
      DataOfSnoc(s1.port, Data(s1.pump.batch[0]));
    }
  }

  /** Such a run exists: the header's promise that FIN waits for an empty queue
      does not hold of the code. */
  lemma FinCanOvertake(m: Message)
    ensures var before := [Drain, Push(m), SetEof];
            IsRun(INIT, before) && FinStep(Run(INIT, before), LoadEof(true)) && SinceDrain(before) == [m]
  {
    var before := [Drain, Push(m), SetEof];
    OvertakingStart(m);
    assert before[..2] == [Drain, Push(m)] && before[..2][..1] == [Drain] && [Drain][..0] == [];
    assert SinceDrain([Drain]) == [] && SinceDrain([Drain, Push(m)]) == [m];
  }

  /** How such a run goes on: FIN is accepted and the message is handed over. */
  lemma OvertakingRun(m: Message)
    ensures IsRun(INIT, [Drain, Push(m), SetEof])
    ensures var s := Run(INIT, [Drain, Push(m), SetEof]);
            var post := [LoadEof(true), Drain, Send];
            IsRun(s, post)
            && Run(s, post).port == [Fin(true), Data(m)] && Run(s, post).pushed == [m]
            && Run(s, post).queue == [] && Batch(Run(s, post).pump) == []
  {
    OvertakingStart(m);
    var s := State([m], true, false, Sending([]), [], [m]);
    var s1 := Next(s, LoadEof(true));
    var s2 := Next(s1, Drain);
    var s3 := Next(s2, Send);
    var post := [LoadEof(true), Drain, Send];
    assert post[1..] == [Drain, Send] && post[1..][1..] == [Send] && [Send][1..] == [];
    assert IsRun(s3, []) && Run(s3, []) == s3;
    assert IsRun(s2, [Send]) && Run(s2, [Send]) == s3;
    assert IsRun(s1, [Drain, Send]) && Run(s1, [Drain, Send]) == s3;
  }

  lemma OvertakingStart(m: Message)
    ensures IsRun(INIT, [Drain, Push(m), SetEof])
    ensures Run(INIT, [Drain, Push(m), SetEof]) == State([m], true, false, Sending([]), [], [m])
  {
    var s1 := Next(INIT, Drain);
    var s2 := Next(s1, Push(m));
    var s3 := Next(s2, SetEof);
    var before := [Drain, Push(m), SetEof];
    assert before[1..] == [Push(m), SetEof] && before[1..][1..] == [SetEof] && [SetEof][1..] == [];
    assert IsRun(s3, []) && Run(s3, []) == s3;
    assert IsRun(s2, [SetEof]) && Run(s2, [SetEof]) == s3;
    assert IsRun(s1, [Push(m), SetEof]) && Run(s1, [Push(m), SetEof]) == s3;
  }

  // ---- the reader ----

  /** What the reader of an output with these messages does. */
  function ReaderSteps(ms: seq<Message>): seq<Step> {
    Pushes(ms) + [SetEof]
  }

  function Pushes(ms: seq<Message>): seq<Step> {
    seq(|ms|, i requires 0 <= i < |ms| => Push(ms[i]))
  }

  /** The reader's steps in a run. */
  function ReaderOf(steps: seq<Step>): seq<Step> {
    if |steps| == 0 then []
    else if steps[0].Push? || steps[0].SetEof? then [steps[0]] + ReaderOf(steps[1..])
    else ReaderOf(steps[1..])
  }

  lemma {:induction false} EofNeedsReader(s: State, steps: seq<Step>)
    requires IsRun(s, steps) && !s.eof
    ensures Run(s, steps).eof <==> SetEof in ReaderOf(steps)
    decreases |steps|
  {
    if |steps| > 0 {
      var t := Next(s, steps[0]);
      if t.eof { AfterEof(t, steps[1..]); } else { EofNeedsReader(t, steps[1..]); }
    }
  }

  lemma {:induction false} AfterEof(s: State, steps: seq<Step>)
    requires IsRun(s, steps) && s.eof
    ensures Run(s, steps).eof && ReaderOf(steps) == []
    decreases |steps|
  {
    if |steps| > 0 { AfterEof(Next(s, steps[0]), steps[1..]); }
  }

  /** In every interleaving with pumps, a reader that pushes some messages and then
      sets the flag can take its next step: so each interleaving is a run. */
  lemma ReaderNeverBlocked(s: State, steps: seq<Step>, ms: seq<Message>)
    requires IsRun(s, steps) && !s.eof && ReaderOf(steps) < ReaderSteps(ms)
    ensures Enabled(Run(s, steps), ReaderSteps(ms)[|ReaderOf(steps)|])
  {
    EofNeedsReader(s, steps);
    var k := |ReaderOf(steps)|;
    assert forall i :: 0 <= i < k ==> ReaderOf(steps)[i] == ReaderSteps(ms)[i];
  }

  /** What the reader alone does. */
  lemma {:induction false} ReaderIsRun(s: State, ms: seq<Message>)
    requires !s.eof
    ensures IsRun(s, ReaderSteps(ms))
    ensures Run(s, ReaderSteps(ms)) == s.(queue := s.queue + ms, pushed := s.pushed + ms, eof := true)
    decreases |ms|
  {
    if |ms| == 0 {
      var t := Next(s, SetEof);
      assert ReaderSteps(ms) == [SetEof] && [SetEof][1..] == [] && IsRun(t, []);
      ConcatEmpty(s.queue);
      ConcatEmpty(s.pushed);
    } else {
      assert ReaderSteps(ms)[1..] == ReaderSteps(ms[1..]);
      ReaderIsRun(Next(s, Push(ms[0])), ms[1..]);
      assert ms == [ms[0]] + ms[1..];
      ConcatAssoc(s.queue, [ms[0]], ms[1..]);
      ConcatAssoc(s.pushed, [ms[0]], ms[1..]);
    }
  }

  // ---- a pump that no reader step interrupts ----

  /** The steps of one call of the pump on a queue of n messages. */
  function PumpSteps(n: nat, accepted: bool): seq<Step> {
    [Drain] + seq(n, _ => Send) + [LoadEof(accepted)]
  }

  /** The calls of one uninterrupted pump. */
  function PumpCalls(s: State, accepted: bool): seq<Call> {
    Calls(s.queue) + (if s.eof && !s.finSent then [Fin(accepted)] else [])
  }

  /** The state after one uninterrupted pump. */
  function AfterPump(s: State, accepted: bool): State {
    s.(queue := [], pump := Idle, port := s.port + PumpCalls(s, accepted),
       finSent := if s.eof && !s.finSent then accepted else s.finSent)
  }

  lemma {:induction false} SendAll(s: State, n: nat)
    requires s.pump.Sending? && n == |s.pump.batch|
    ensures IsRun(s, seq(n, _ => Send))
    ensures Run(s, seq(n, _ => Send))
         == s.(pump := Sending([]), port := s.port + Calls(s.pump.batch))
    decreases n
  {
    var steps := seq(n, _ => Send);
    if n > 0 {
      var t := Next(s, Send);
      assert steps[1..] == seq(n - 1, _ => Send);
      SendAll(t, n - 1);
      CallsCons(s.port, s.pump.batch);
    } else {
      assert s.port + Calls([]) == s.port;
    }
  }

  /** One uninterrupted pump is a run of the machine, so what holds of every
      interleaving holds of it. */
  lemma PumpIsRun(s: State, accepted: bool)
    requires s.pump.Idle?
    ensures IsRun(s, PumpSteps(|s.queue|, accepted))
    ensures Run(s, PumpSteps(|s.queue|, accepted)) == AfterPump(s, accepted)
  {
    var n, s1 := |s.queue|, Next(s, Drain);
    var sends := seq(n, _ => Send);
    SendAll(s1, n);
    RunSnoc(s, [], Drain);
    assert [] + [Drain] == [Drain];
    RunAppend(s, [Drain], sends);
    RunSnoc(s, [Drain] + sends, LoadEof(accepted));
    ConcatAssoc(s.port, Calls(s.queue), if s.eof && !s.finSent then [Fin(accepted)] else []);
  }
}
