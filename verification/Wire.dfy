/** The two machines put together: the calls the pump makes at the transport
    port are the sends of a peer, so what the child wrote is followed to the
    stream and the datagrams of its peer. */
module Wire {
  import opened Bytes
  import opened Frames
  import opened Streams
  import E = EndToEnd
  import P = Protocol
  import T = Peer

  /** The call at the port that a step of the peer answers, if it is one. */
  function CallOf(s: T.State, step: T.Step): seq<P.Call> {
    match step
    case SendStream(bytes) => [P.Data(P.Stream(bytes))]
    case SendDatagram(bytes) => [P.Data(P.Datagram(bytes))]
    case SendFin => [P.Fin(s.data != T.UNBOUND)]
    case Post(_) => []
    case Provide(_) => []
    case FinLeaves => []
    case Stop(_) => []
  }

  /** The calls that a run of the peer answers, with its answers to FIN. */
  function PortOf(control: T.StreamId, steps: seq<T.Step>): seq<P.Call>
    decreases |steps|
  {
    if |steps| == 0 then []
    else
      var front := steps[..|steps| - 1];
      PortOf(control, front) + CallOf(T.Run(control, T.INIT, front), steps[|steps| - 1])
  }

  /** The payloads that go on the stream, one behind the other. */
  function Reliable(ms: seq<P.Message>): seq<byte> {
    if |ms| == 0 then []
    else
      var last := ms[|ms| - 1];
      Reliable(ms[..|ms| - 1]) + (if last.Stream? then last.bytes else [])
  }

  /** The payloads that go as datagrams. */
  function Datagrams(ms: seq<P.Message>): seq<seq<byte>> {
    if |ms| == 0 then []
    else
      var last := ms[|ms| - 1];
      Datagrams(ms[..|ms| - 1]) + (if last.Datagram? then [last.bytes] else [])
  }

  lemma PayloadsSnoc(ms: seq<P.Message>, m: P.Message)
    ensures Reliable(ms + [m]) == Reliable(ms) + (if m.Stream? then m.bytes else [])
    ensures Datagrams(ms + [m]) == Datagrams(ms) + (if m.Datagram? then [m.bytes] else [])
  {
    assert (ms + [m])[..|ms|] == ms;
  }

  /** The port's history and the peer's agree. */
  ghost predicate Agree(port: seq<P.Call>, sent: seq<byte>, s: T.State) {
    && Reliable(P.DataOf(port)) == sent
    && Datagrams(P.DataOf(port)) == s.offered
    && P.FinCount(port) == s.fins
  }

  /** One more call at the port. */
  lemma DataCall(port: seq<P.Call>, m: P.Message)
    ensures var all := P.DataOf(port + [P.Data(m)]);
            Reliable(all) == Reliable(P.DataOf(port)) + (if m.Stream? then m.bytes else [])
            && Datagrams(all) == Datagrams(P.DataOf(port)) + (if m.Datagram? then [m.bytes] else [])
    ensures P.FinCount(port + [P.Data(m)]) == P.FinCount(port)
  {
    P.DataOfSnoc(port, P.Data(m));
    P.FinCountSnoc(port, P.Data(m));
    PayloadsSnoc(P.DataOf(port), m);
  }

  lemma FinCall(port: seq<P.Call>, accepted: bool)
    ensures P.DataOf(port + [P.Fin(accepted)]) == P.DataOf(port)
    ensures P.FinCount(port + [P.Fin(accepted)]) == P.FinCount(port) + (if accepted then 1 else 0)
  {
    P.DataOfSnoc(port, P.Fin(accepted));
    P.FinCountSnoc(port, P.Fin(accepted));
    ConcatEmpty(P.DataOf(port));
  }

  lemma AgreeStep(control: T.StreamId, port: seq<P.Call>, sent: seq<byte>, s: T.State, step: T.Step)
    requires Agree(port, sent, s)
    ensures Agree(port + CallOf(s, step), sent + (if step.SendStream? then step.bytes else []),
                  T.Next(control, s, step))
  {
    ConcatEmpty(sent);
    match step
    case SendStream(bytes) =>
      DataCall(port, P.Stream(bytes));
      ConcatEmpty(s.offered);
    case SendDatagram(bytes) => DataCall(port, P.Datagram(bytes));
    case SendFin => FinCall(port, s.data != T.UNBOUND);
    case _ => ConcatEmpty(port);
  }

  lemma {:induction false} RunAgrees(control: T.StreamId, steps: seq<T.Step>)
    ensures Agree(PortOf(control, steps), T.Sent(steps), T.Run(control, T.INIT, steps))
    decreases |steps|
  {
    if |steps| > 0 {
      var m := |steps| - 1;
      RunAgrees(control, steps[..m]);
      AgreeStep(control, PortOf(control, steps[..m]), T.Sent(steps[..m]), T.Run(control, T.INIT, steps[..m]), steps[m]);
    }
  }

  /** For every run of the hand-over and every run of a peer that answers its
      calls: the datagrams that left and those that wait are, in order, the
      unreliable frames handed over; the reliable ones are what was sent before
      the stream was bound, what it carries, and what was sent behind its end; and
      at most one FIN is sent, not before the end of the child's output. */
  lemma {:induction false} OnTheWire(hand: seq<P.Step>, control: T.StreamId, steps: seq<T.Step>)
    requires P.IsRun(P.INIT, hand) && P.Run(P.INIT, hand).port == PortOf(control, steps)
    ensures var c, s := P.Run(P.INIT, hand), T.Run(control, T.INIT, steps);
            var handed, k, e := P.DataOf(c.port), T.Binding(control, steps), T.End(control, steps);
            && handed <= c.pushed
            && T.DataOf(s.left) + s.fifo == Datagrams(handed)
            && T.Sent(steps[..k]) + s.stream + T.Sent(steps[e..]) == Reliable(handed)
            && s.fins == (if c.finSent then 1 else 0) && (s.fins == 1 ==> c.eof)
  {
    P.Conservation(hand);
    P.FinOnce(hand);
    RunAgrees(control, steps);
    T.QueueSafe(control, steps);
    T.SentParts(control, steps);
  }

  /** With the hand-over at rest: the transport has got, or will be asked for, all
      the datagrams the child wrote, in order, if and only if every callback had
      room and met no empty datagram. The stream carries all the reliable data the child wrote, in order,
      if and only if none was sent before the binding and none behind the end of
      the stream. */
  lemma {:induction false} NothingLostIff(hand: seq<P.Step>, control: T.StreamId, steps: seq<T.Step>)
    requires P.IsRun(P.INIT, hand) && P.Run(P.INIT, hand).port == PortOf(control, steps)
    requires var c := P.Run(P.INIT, hand); c.queue == [] && P.Batch(c.pump) == []
    ensures var c, s := P.Run(P.INIT, hand), T.Run(control, T.INIT, steps);
            && (s.given + s.fifo == Datagrams(c.pushed) <==> T.AllBuffered(control, steps))
            && (s.stream == Reliable(c.pushed)
                <==> T.Sent(steps[..T.Binding(control, steps)]) == [] && T.Sent(steps[T.End(control, steps)..]) == [])
  {
    AtRest(hand);
    RunAgrees(control, steps);
    T.GivenDatagrams(control, steps);
    T.StreamLossIff(control, steps);
  }

  /** At rest all frames have been handed over. */
  lemma AtRest(hand: seq<P.Step>)
    requires P.IsRun(P.INIT, hand)
    requires var c := P.Run(P.INIT, hand); c.queue == [] && P.Batch(c.pump) == []
    ensures P.DataOf(P.Run(P.INIT, hand).port) == P.Run(P.INIT, hand).pushed
  {
    P.Conservation(hand);
    ConcatEmpty(P.DataOf(P.Run(P.INIT, hand).port));
  }

  // ---- the end of the stream ----

  /** Only its FIN can end the data stream: it runs both ways and is not stopped. */
  ghost predicate OnlyFinEnds(control: T.StreamId, steps: seq<T.Step>) {
    var k := T.Binding(control, steps);
    k < |steps| ==> T.Bidirectional(steps[k].id) && T.Stop(steps[k].id) !in steps
  }

  /** As much was handed over behind FIN as was sent behind the end. */
  ghost predicate EndCovered(control: T.StreamId, steps: seq<T.Step>) {
    |T.Sent(steps[T.End(control, steps)..])| <= |Reliable(P.BehindFin(PortOf(control, steps)))|
  }

  lemma EndCoveredStep(control: T.StreamId, steps: seq<T.Step>, step: T.Step)
    requires OnlyFinEnds(control, steps) && EndCovered(control, steps)
    ensures EndCovered(control, steps + [step])
  {
    T.EndSnoc(control, steps, step);
    if T.Ended(control, steps) {
      assert P.FinCount(PortOf(control, steps)) > 0 by {
        T.FinNeedsBinding(control, steps);
        T.StreamKnown(control, steps);
        RunAgrees(control, steps);
      }
      SentBehind(steps, step, T.End(control, steps));
      PortSnoc(control, steps, step);
      BehindFinGrows(PortOf(control, steps), CallOf(T.Run(control, T.INIT, steps), step), step);
    } else {
      assert (steps + [step])[|steps| + 1..] == [];
    }
  }

  /** Reliable data sent behind the end of the stream was handed over behind FIN. */
  lemma {:induction false} EndIsBehindFin(control: T.StreamId, steps: seq<T.Step>)
    requires OnlyFinEnds(control, steps)
    ensures EndCovered(control, steps)
    decreases |steps|
  {
    if |steps| > 0 {
      var m := |steps| - 1;
      assert steps[..m] + [steps[m]] == steps;
      assert OnlyFinEnds(control, steps[..m]) by {
        T.BindingSnoc(control, steps[..m], steps[m]);
      }
      EndIsBehindFin(control, steps[..m]);
      EndCoveredStep(control, steps[..m], steps[m]);
    }
  }

  lemma SentBehind(front: seq<T.Step>, last: T.Step, c: nat)
    requires c <= |front|
    ensures T.Sent((front + [last])[c..]) == T.Sent(front[c..]) + (if last.SendStream? then last.bytes else [])
  {
    assert (front + [last])[c..] == front[c..] + [last];
    T.SentSnoc(front[c..], last);
  }

  lemma BehindFinGrows(port: seq<P.Call>, calls: seq<P.Call>, step: T.Step)
    requires P.FinCount(port) > 0 && |calls| <= 1
    requires step.SendStream? ==> calls == [P.Data(P.Stream(step.bytes))]
    ensures |Reliable(P.BehindFin(port + calls))|
         >= |Reliable(P.BehindFin(port))| + (if step.SendStream? then |step.bytes| else 0)
  {
    if calls == [] {
      ConcatEmpty(port);
    } else {
      assert calls == [calls[0]];
      P.BehindFinSnoc(port, calls[0]);
      ConcatEmpty(P.BehindFin(port));
      if calls[0].Data? { PayloadsSnoc(P.BehindFin(port), calls[0].message); }
    }
  }

  lemma {:induction false} ReliablePrefix(fs: seq<P.Message>, gs: seq<P.Message>)
    ensures |Reliable(fs)| <= |Reliable(fs + gs)|
    decreases |gs|
  {
    if |gs| == 0 {
      ConcatEmpty(fs);
    } else {
      var m := |gs| - 1;
      ReliablePrefix(fs, gs[..m]);
      assert fs + gs == (fs + gs[..m]) + [gs[m]];
      PayloadsSnoc(fs + gs[..m], gs[m]);
    }
  }

  /** Nothing is lost behind the end of a stream that only FIN can end, if the
      reader pushed no reliable data in the window of the pump that sent FIN. */
  lemma {:induction false} CleanWindow(hand: seq<P.Step>, control: T.StreamId, steps: seq<T.Step>)
    requires P.IsRun(P.INIT, hand) && P.Run(P.INIT, hand).port == PortOf(control, steps)
    requires OnlyFinEnds(control, steps) && Reliable(P.FinWindow(hand)) == []
    ensures T.Sent(steps[T.End(control, steps)..]) == []
  {
    var c := P.Run(P.INIT, hand);
    EndIsBehindFin(control, steps);
    P.WindowFollows(hand);
    ReliablePrefix(P.BehindFin(c.port), P.Batch(c.pump) + c.queue);
    ConcatAssoc(P.BehindFin(c.port), P.Batch(c.pump), c.queue);
  }

  /** The loss behind FIN happens: a message for the stream pushed in the window of
      the pump that sends FIN is handed over when the FIN has left. */
  lemma {:induction false} WindowCanLose(bytes: seq<byte>, control: T.StreamId, id: T.StreamId)
    requires id != control
    ensures var m := P.Stream(bytes);
            var hand := [P.Drain, P.Push(m), P.SetEof] + [P.LoadEof(true), P.Drain, P.Send];
            var steps := [T.Post(id), T.SendFin, T.FinLeaves] + [T.SendStream(bytes)];
            && P.IsRun(P.INIT, hand) && P.Run(P.INIT, hand).port == PortOf(control, steps)
            && P.Run(P.INIT, hand).pushed == [m] && T.Run(control, T.INIT, steps).stream == []
  {
    var m := P.Stream(bytes);
    var before, post := [P.Drain, P.Push(m), P.SetEof], [P.LoadEof(true), P.Drain, P.Send];
    P.FinCanOvertake(m);
    P.OvertakingRun(m);
    P.RunAppend(P.INIT, before, post);
    PortOfLoss(bytes, control, id);
  }

  lemma PortOfLoss(bytes: seq<byte>, control: T.StreamId, id: T.StreamId)
    requires id != control
    ensures var steps := [T.Post(id), T.SendFin, T.FinLeaves] + [T.SendStream(bytes)];
            PortOf(control, steps) == [P.Fin(true), P.Data(P.Stream(bytes))]
            && T.Run(control, T.INIT, steps).stream == []
  {
    var s1, s2, s3 := [T.Post(id)], [T.Post(id), T.SendFin], [T.Post(id), T.SendFin, T.FinLeaves];
    assert [] + [T.Post(id)] == s1 && s1 + [T.SendFin] == s2 && s2 + [T.FinLeaves] == s3;
    T.RunSnoc(control, T.INIT, [], T.Post(id));
    T.RunSnoc(control, T.INIT, s1, T.SendFin);
    T.RunSnoc(control, T.INIT, s2, T.FinLeaves);
    T.RunSnoc(control, T.INIT, s3, T.SendStream(bytes));
    assert T.Run(control, T.INIT, s1).data == id;
    PortSnoc(control, [], T.Post(id));
    PortSnoc(control, s1, T.SendFin);
    assert PortOf(control, s2) == [P.Fin(true)];
    PortSnoc(control, s2, T.FinLeaves);
    PortSnoc(control, s3, T.SendStream(bytes));
  }

  lemma PortSnoc(control: T.StreamId, steps: seq<T.Step>, step: T.Step)
    ensures PortOf(control, steps + [step]) == PortOf(control, steps) + CallOf(T.Run(control, T.INIT, steps), step)
  {
    assert (steps + [step])[..|steps|] == steps;
  }

  // ---- from the peer to the peer ----

  /** The whole loop with the echo child, from the messages delivered to the wire:
      once nothing is left to do, the transport has got or will be asked for the
      datagrams among the frames the child's pipe took, and the stream carries the
      reliable ones, in order, under exactly these conditions. The frames are the
      messages delivered if and only if the pipe took every message whole. */
  lemma {:induction false} EchoedOnTheWire(loop: seq<E.Step>, control: T.StreamId, steps: seq<T.Step>)
    requires E.IsRun(E.INIT, loop) && E.Quiet(E.Run(E.INIT, loop))
    requires E.Run(E.INIT, loop).core.port == PortOf(control, steps)
    ensures var e, s := E.Run(E.INIT, loop), T.Run(control, T.INIT, steps);
            var frames, messages := Parse(e.fed).frames, P.Messages(Parse(e.fed).frames);
            && (frames == e.delivered <==> E.AllTaken(E.INIT, loop))
            && (s.given + s.fifo == Datagrams(messages) <==> T.AllBuffered(control, steps))
            && (s.stream == Reliable(messages)
                <==> T.Sent(steps[..T.Binding(control, steps)]) == [] && T.Sent(steps[T.End(control, steps)..]) == [])
  {
    var hand := E.CoreSteps(E.INIT, loop);
    E.CoreIsRun(E.INIT, loop);
    E.QuietCore(E.Run(E.INIT, loop));
    E.Completeness(loop);
    E.TakenWholeIff(loop);
    AtRest(hand);
    NothingLostIff(hand, control, steps);
  }
}
