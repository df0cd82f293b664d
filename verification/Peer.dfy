/** What a peer keeps for the transport: the datagrams that wait for the next
    callback, and the stream its reliable data goes out on. */
module Peer {
  import opened Bytes
  import opened LinkedLists

  /** Stream numbers use 62 bits, so the largest 64-bit number can mean "none". */
  type StreamId = n: nat | n < 0x4000_0000_0000_0000 witness 0

  const UNBOUND: nat := 0xFFFF_FFFF_FFFF_FFFF

  /** The second bit of a stream number says that it runs one way only. */
  predicate Bidirectional(id: nat) { id / 2 % 2 == 0 }

  // ---- the protocol, over whole runs ----

  /** A datagram that has left the queue, and whether it was copied to a buffer. */
  datatype Leaving = Leaving(data: seq<byte>, copied: bool)

  /** ready is the transport's flag: it calls back for a datagram when the flag
      is set, and the call clears it. offered and left record what was queued and
      what was dequeued so far, given what the transport got of it. stopped are
      the streams that take no more data, stream and fins what the data stream
      was given. */
  datatype State = State(data: nat, stopped: set<nat>, stream: seq<byte>, fins: nat,
                         fifo: seq<seq<byte>>, ready: bool, offered: seq<seq<byte>>, left: seq<Leaving>,
                         given: seq<seq<byte>>)

  const INIT: State := State(UNBOUND, {}, [], 0, [], false, [], [], [])

  /** The sends are the daemon's; the other steps are the transport's. It posts
      data, asks for a datagram, sends off the FIN it was given, or stops a stream
      because the peer wants no more data on it or it is reset. */
  datatype Step =
    | SendStream(bytes: seq<byte>)
    | SendFin
    | SendDatagram(bytes: seq<byte>)
    | Post(id: StreamId)
    | Provide(room: bool)
    | FinLeaves
    | Stop(id: StreamId)

  /** What a callback leaves in the queue, what it takes out, and what it copies: the
      transport gives a buffer if it has room for the datagram, and never for an
      empty one. */
  function Behind(fifo: seq<seq<byte>>): seq<seq<byte>> { if fifo == [] then [] else fifo[1..] }

  function LeavingFrom(fifo: seq<seq<byte>>, room: bool): seq<Leaving> {
    if fifo == [] then [] else [Leaving(fifo[0], room && fifo[0] != [])]
  }

  function CopiedFrom(fifo: seq<seq<byte>>, room: bool): seq<seq<byte>> {
    if fifo != [] && room && |fifo[0]| > 0 then [fifo[0]] else []
  }

  predicate Binds(control: StreamId, step: Step) {
    step.Post? && step.id != control
  }

  /** The data stream takes data. Otherwise the transport drops it, and its answer
      is not looked at. */
  predicate Open(s: State) {
    s.data != UNBOUND && Bidirectional(s.data) && s.data !in s.stopped
  }

  function Next(control: StreamId, s: State, step: Step): State {
    match step
    case SendStream(bytes) => if Open(s) then s.(stream := s.stream + bytes) else s
    case SendFin => if s.data == UNBOUND then s else s.(fins := s.fins + 1)
    case SendDatagram(bytes) => s.(fifo := s.fifo + [bytes], ready := true, offered := s.offered + [bytes])
    case Post(id) => if Binds(control, step) && s.data == UNBOUND then s.(data := id) else s
    case Provide(room) =>
      s.(fifo := Behind(s.fifo), ready := |s.fifo| > 1, left := s.left + LeavingFrom(s.fifo, room),
         given := s.given + CopiedFrom(s.fifo, room))
    case FinLeaves => if s.fins > 0 then s.(stopped := s.stopped + {s.data}) else s
    case Stop(id) => s.(stopped := s.stopped + {id})
  }

  function Run(control: StreamId, s: State, steps: seq<Step>): State
    decreases |steps|
  {
    if |steps| == 0 then s
    else Next(control, Run(control, s, steps[..|steps| - 1]), steps[|steps| - 1])
  }

  lemma RunSnoc(control: StreamId, s: State, steps: seq<Step>, step: Step)
    ensures Run(control, s, steps + [step]) == Next(control, Run(control, s, steps), step)
  {
    assert (steps + [step])[..|steps|] == steps;
  }

  // ---- datagrams ----

  function DataOf(left: seq<Leaving>): (d: seq<seq<byte>>)
    ensures |d| == |left|
  {
    if |left| == 0 then [] else DataOf(left[..|left| - 1]) + [left[|left| - 1].data]
  }

  /** Armed exactly while something waits, and nothing lost, repeated or
      overtaken on the way through the queue. */
  ghost predicate QueueInv(s: State) {
    (s.ready <==> s.fifo != []) && s.offered == DataOf(s.left) + s.fifo
  }

  lemma QueueStep(control: StreamId, s: State, step: Step)
    requires QueueInv(s)
    ensures QueueInv(Next(control, s, step))
  {
    match step
    case SendDatagram(bytes) => ConcatAssoc(DataOf(s.left), s.fifo, [bytes]);
    case Provide(room) => ProvideStep(control, s, room);
    case _ =>
  }

  lemma ProvideStep(control: StreamId, s: State, room: bool)
    requires QueueInv(s)
    ensures QueueInv(Next(control, s, Provide(room)))
  {
    if s.fifo == [] {
      ConcatEmpty(s.left);
    } else {
      assert DataOf(s.left + [Leaving(s.fifo[0], room && s.fifo[0] != [])]) + s.fifo[1..]
          == DataOf(s.left) + s.fifo by {
        LeftSnoc(s.left, Leaving(s.fifo[0], room && s.fifo[0] != []));
        ConcatAssoc(DataOf(s.left), [s.fifo[0]], s.fifo[1..]);
        assert [s.fifo[0]] + s.fifo[1..] == s.fifo;
      }
    }
  }

  /** In every reachable state a waiting datagram is announced, and the datagrams
      have left in the order they were sent. */
  lemma {:induction false} QueueSafe(control: StreamId, steps: seq<Step>)
    ensures QueueInv(Run(control, INIT, steps))
    decreases |steps|
  {
    if |steps| > 0 {
      QueueSafe(control, steps[..|steps| - 1]);
      QueueStep(control, Run(control, INIT, steps[..|steps| - 1]), steps[|steps| - 1]);
    }
  }

  /** The datagrams among those that left that were copied. */
  function Copied(left: seq<Leaving>): (d: seq<seq<byte>>)
    ensures |d| <= |left|
  {
    if |left| == 0 then []
    else
      var last := left[|left| - 1];
      Copied(left[..|left| - 1]) + (if last.copied then [last.data] else [])
  }

  /** A callback that finds a datagram and gets no buffer for it. */
  predicate Drops(fifo: seq<seq<byte>>, step: Step) {
    step.Provide? && fifo != [] && (!step.room || fifo[0] == [])
  }

  /** Every callback that found a datagram had room for it, and the datagram was
      not empty. */
  ghost predicate AllBuffered(control: StreamId, steps: seq<Step>) {
    forall i :: 0 <= i < |steps| ==> !Drops(Run(control, INIT, steps[..i]).fifo, steps[i])
  }

  /** What the transport got of the datagrams that left, and what it takes for
      that to be all of them. */
  ghost predicate GivenInv(given: seq<seq<byte>>, left: seq<Leaving>, buffered: bool) {
    && given == Copied(left) && [] !in given
    && if buffered then given == DataOf(left) else |given| < |left|
  }

  lemma GivenStep(control: StreamId, s: State, buffered: bool, step: Step)
    requires GivenInv(s.given, s.left, buffered)
    ensures var t := Next(control, s, step);
            GivenInv(t.given, t.left, buffered && !Drops(s.fifo, step))
  {
    if step.Provide? { GivenProvide(control, s, buffered, step.room); }
  }

  lemma GivenProvide(control: StreamId, s: State, buffered: bool, room: bool)
    requires GivenInv(s.given, s.left, buffered)
    ensures var t := Next(control, s, Provide(room));
            GivenInv(t.given, t.left, buffered && !Drops(s.fifo, Provide(room)))
  {
    if s.fifo == [] {
      ConcatEmpty(s.left);
      ConcatEmpty(s.given);
    } else {
      GivenMore(s.given, s.left, buffered, Leaving(s.fifo[0], room && s.fifo[0] != []));
    }
  }

  lemma GivenMore(given: seq<seq<byte>>, left: seq<Leaving>, buffered: bool, l: Leaving)
    requires GivenInv(given, left, buffered) && (l.copied ==> l.data != [])
    ensures GivenInv(given + (if l.copied then [l.data] else []), left + [l], buffered && l.copied)
  {
    LeftSnoc(left, l);
  }

  lemma LeftSnoc(left: seq<Leaving>, l: Leaving)
    ensures DataOf(left + [l]) == DataOf(left) + [l.data]
    ensures Copied(left + [l]) == Copied(left) + (if l.copied then [l.data] else [])
  {
    assert (left + [l])[..|left|] == left;
  }

  lemma AllBufferedSnoc(control: StreamId, steps: seq<Step>, step: Step)
    ensures AllBuffered(control, steps + [step])
       <==> AllBuffered(control, steps) && !Drops(Run(control, INIT, steps).fifo, step)
  {
    var all := steps + [step];
    assert forall i :: 0 <= i < |steps| ==> all[i] == steps[i] && all[..i] == steps[..i];
    assert all[..|steps|] == steps && all[|steps|] == step;
  }

  /** The transport gets exactly the datagrams it gave a buffer for, in the order
      they were sent, and it gets all that left if and only if every callback that
      found a datagram had room for it and the datagram was not empty. An empty one
      never gets through. */
  lemma {:induction false} GivenDatagrams(control: StreamId, steps: seq<Step>)
    ensures var s := Run(control, INIT, steps);
            s.given == Copied(s.left) && [] !in s.given && (s.given == DataOf(s.left) <==> AllBuffered(control, steps))
            && (s.given + s.fifo == s.offered <==> AllBuffered(control, steps))
  {
    GivenRun(control, steps);
    QueueSafe(control, steps);
  }

  lemma {:induction false} GivenRun(control: StreamId, steps: seq<Step>)
    ensures var s := Run(control, INIT, steps); GivenInv(s.given, s.left, AllBuffered(control, steps))
    decreases |steps|
  {
    if |steps| > 0 {
      var m := |steps| - 1;
      GivenRun(control, steps[..m]);
      GivenStep(control, Run(control, INIT, steps[..m]), AllBuffered(control, steps[..m]), steps[m]);
      AllBufferedSnoc(control, steps[..m], steps[m]);
      assert steps[..m] + [steps[m]] == steps;
    }
  }

  function Provides(rooms: seq<bool>): seq<Step> {
    seq(|rooms|, i requires 0 <= i < |rooms| => Provide(rooms[i]))
  }

  /** Each callback takes one datagram, and the next one is announced until the
      queue is empty, whatever room there is. */
  lemma {:induction false} CallbacksDrain(control: StreamId, s: State, rooms: seq<bool>)
    requires QueueInv(s) && |rooms| <= |s.fifo|
    ensures var t := Run(control, s, Provides(rooms));
            QueueInv(t) && t.fifo == s.fifo[|rooms|..] && t.offered == s.offered
            && (t.ready <==> |rooms| < |s.fifo|)
    decreases |rooms|
  {
    if |rooms| > 0 {
      var k := |rooms| - 1;
      CallbacksDrain(control, s, rooms[..k]);
      assert Provides(rooms)[..k] == Provides(rooms[..k]);
      var t := Run(control, s, Provides(rooms[..k]));
      QueueStep(control, t, Provide(rooms[k]));
    }
  }

  /** The queue never stalls: from any reachable state, as many callbacks as
      datagrams wait are all called for, and then everything sent has left. */
  lemma NeverStalls(control: StreamId, steps: seq<Step>, rooms: seq<bool>)
    requires |rooms| == |Run(control, INIT, steps).fifo|
    ensures var s := Run(control, INIT, steps);
            (forall k :: 0 <= k < |rooms| ==> Run(control, s, Provides(rooms[..k])).ready)
            && DataOf(Run(control, s, Provides(rooms)).left) == s.offered
            && !Run(control, s, Provides(rooms)).ready
  {
    var s := Run(control, INIT, steps);
    QueueSafe(control, steps);
    forall k | 0 <= k < |rooms|
      ensures Run(control, s, Provides(rooms[..k])).ready
    {
      CallbacksDrain(control, s, rooms[..k]);
    }
    CallbacksDrain(control, s, rooms);
    ConcatEmpty(DataOf(Run(control, s, Provides(rooms)).left));
  }

  // ---- the data stream ----

  /** The position of the first step that can bind the stream; the length of the
      run if there is none. */
  function Binding(control: StreamId, steps: seq<Step>): (k: nat)
    ensures k <= |steps|
    ensures forall i :: 0 <= i < k ==> !Binds(control, steps[i])
    ensures k < |steps| ==> Binds(control, steps[k])
    decreases |steps|
  {
    if |steps| == 0 then 0
    else
      var k := Binding(control, steps[..|steps| - 1]);
      if k < |steps| - 1 then k else if Binds(control, steps[k]) then k else |steps|
  }

  /** The reliable bytes sent in a run. */
  function Sent(steps: seq<Step>): seq<byte>
    decreases |steps|
  {
    if |steps| == 0 then []
    else
      var last := steps[|steps| - 1];
      Sent(steps[..|steps| - 1]) + (if last.SendStream? then last.bytes else [])
  }

  lemma SentSnoc(steps: seq<Step>, step: Step)
    ensures Sent(steps + [step]) == Sent(steps) + (if step.SendStream? then step.bytes else [])
  {
    assert (steps + [step])[..|steps|] == steps;
  }

  lemma {:induction false} SentAppend(a: seq<Step>, b: seq<Step>)
    ensures Sent(a + b) == Sent(a) + Sent(b)
    decreases |b|
  {
    if |b| == 0 {
      ConcatEmpty(a);
      ConcatEmpty(Sent(a));
    } else {
      var m := |b| - 1;
      SentAppend(a, b[..m]);
      assert a + b == (a + b[..m]) + [b[m]] && b == b[..m] + [b[m]];
      SentSnoc(a + b[..m], b[m]);
      SentSnoc(b[..m], b[m]);
      ConcatAssoc(Sent(a), Sent(b[..m]), if b[m].SendStream? then b[m].bytes else []);
    }
  }

  lemma BindingSnoc(control: StreamId, steps: seq<Step>, step: Step)
    ensures var k := Binding(control, steps);
            Binding(control, steps + [step]) == if k < |steps| || Binds(control, step) then k else |steps| + 1
  {
    assert (steps + [step])[..|steps|] == steps;
  }

  /** A FIN was asked for since the binding. */
  ghost predicate FinAsked(control: StreamId, steps: seq<Step>) {
    exists i :: Binding(control, steps) < i < |steps| && steps[i] == SendFin
  }

  /** Such a FIN has left. */
  ghost predicate FinLeft(control: StreamId, steps: seq<Step>) {
    exists j :: 0 <= j < |steps| && steps[j] == FinLeaves && FinAsked(control, steps[..j])
  }

  /** The stream that was bound takes no more data: it runs towards the daemon
      only, it was stopped, or its FIN has left. */
  ghost predicate Ended(control: StreamId, steps: seq<Step>) {
    var k := Binding(control, steps);
    k < |steps| && (!Bidirectional(steps[k].id) || Stop(steps[k].id) in steps || FinLeft(control, steps))
  }

  /** The length of the shortest front of the run after which the stream has
      ended; the length of the run if it has not. */
  ghost function End(control: StreamId, steps: seq<Step>): (c: nat)
    ensures c <= |steps|
    decreases |steps|
  {
    if |steps| == 0 then 0
    else
      var front := steps[..|steps| - 1];
      if Ended(control, front) then End(control, front) else |steps|
  }

  lemma FinAskedSnoc(control: StreamId, steps: seq<Step>, step: Step)
    ensures FinAsked(control, steps + [step])
       <==> FinAsked(control, steps) || (step == SendFin && Binding(control, steps) < |steps|)
  {
    var all := steps + [step];
    BindingSnoc(control, steps, step);
    if FinAsked(control, steps) {
      var i :| Binding(control, steps) < i < |steps| && steps[i] == SendFin;
      assert all[i] == SendFin;
    }
    if step == SendFin && Binding(control, steps) < |steps| { assert all[|steps|] == SendFin; }
    if FinAsked(control, all) {
      var i :| Binding(control, all) < i < |all| && all[i] == SendFin;
      if i < |steps| { assert steps[i] == SendFin; }
    }
  }

  lemma FinLeftSnoc(control: StreamId, steps: seq<Step>, step: Step)
    ensures FinLeft(control, steps + [step])
       <==> FinLeft(control, steps) || (step == FinLeaves && FinAsked(control, steps))
  {
    var all := steps + [step];
    assert forall j :: 0 <= j < |steps| ==> all[j] == steps[j] && all[..j] == steps[..j];
    assert all[..|steps|] == steps && all[|steps|] == step;
  }

  lemma {:induction false} EndedForGood(control: StreamId, steps: seq<Step>, i: nat)
    requires i <= |steps| && Ended(control, steps[..i])
    ensures Ended(control, steps)
    decreases |steps| - i
  {
    if i < |steps| {
      assert Ended(control, steps[..i] + [steps[i]]) by {
        BindingSnoc(control, steps[..i], steps[i]);
        FinLeftSnoc(control, steps[..i], steps[i]);
      }
      assert steps[..i] + [steps[i]] == steps[..i + 1];
      EndedForGood(control, steps, i + 1);
    } else {
      assert steps[..i] == steps;
    }
  }

  /** That is what it is. */
  lemma {:induction false} EndIsFirst(control: StreamId, steps: seq<Step>)
    ensures var c := End(control, steps);
            (forall i :: 0 <= i < c ==> !Ended(control, steps[..i]))
            && (if Ended(control, steps) then Ended(control, steps[..c]) else c == |steps|)
    decreases |steps|
  {
    var c := End(control, steps);
    EndOf(control, steps);
    forall i | 0 <= i < c
      ensures !Ended(control, steps[..i])
    {
      if Ended(control, steps[..i]) {
        assert steps[..i] == steps[..c - 1][..i];
        EndedForGood(control, steps[..c - 1], i);
      }
    }
  }

  lemma {:induction false} EndOf(control: StreamId, steps: seq<Step>)
    ensures var c := End(control, steps);
            (c > 0 ==> !Ended(control, steps[..c - 1]))
            && (if Ended(control, steps) then Ended(control, steps[..c]) else c == |steps|)
    decreases |steps|
  {
    assert steps[..|steps|] == steps;
    if |steps| > 0 {
      var front := steps[..|steps| - 1];
      if Ended(control, front) {
        var c := End(control, front);
        EndOf(control, front);
        assert front[..c] == steps[..c] && (c > 0 ==> front[..c - 1] == steps[..c - 1]);
        EndedForGood(control, steps, |steps| - 1);
      }
    }
  }

  lemma EndSnoc(control: StreamId, steps: seq<Step>, step: Step)
    ensures End(control, steps + [step]) == if Ended(control, steps) then End(control, steps) else |steps| + 1
  {
    assert (steps + [step])[..|steps|] == steps;
  }

  /** What the machine knows of the run: which stream is bound, whether a FIN was
      asked for, and which streams have stopped. */
  ghost predicate KnowsRun(control: StreamId, s: State, steps: seq<Step>) {
    var k := Binding(control, steps);
    && s.data == (if k < |steps| then steps[k].id else UNBOUND)
    && (s.fins > 0 <==> FinAsked(control, steps))
    && (forall id: StreamId :: id in s.stopped <==>
          Stop(id) in steps || (id == s.data && FinLeft(control, steps)))
  }

  lemma FinNeedsBinding(control: StreamId, steps: seq<Step>)
    ensures FinLeft(control, steps) ==> FinAsked(control, steps)
    ensures FinAsked(control, steps) ==> Binding(control, steps) < |steps|
    decreases |steps|
  {
    if |steps| > 0 {
      var m := |steps| - 1;
      FinNeedsBinding(control, steps[..m]);
      FinLeftSnoc(control, steps[..m], steps[m]);
      FinAskedSnoc(control, steps[..m], steps[m]);
      assert steps[..m] + [steps[m]] == steps;
    }
  }

  lemma KnowsStep(control: StreamId, s: State, steps: seq<Step>, step: Step)
    requires KnowsRun(control, s, steps)
    ensures KnowsRun(control, Next(control, s, step), steps + [step])
  {
    BindingSnoc(control, steps, step);
    FinNeedsBinding(control, steps);
    FinAskedSnoc(control, steps, step);
    FinLeftSnoc(control, steps, step);
    assert forall id: StreamId :: Stop(id) in steps + [step] <==> Stop(id) in steps || step == Stop(id);
  }

  /** The data stream carries what was sent between the binding and the end. */
  ghost predicate Carries(control: StreamId, s: State, steps: seq<Step>) {
    Binding(control, steps) <= End(control, steps)
    && s.stream == Sent(steps[Binding(control, steps)..End(control, steps)])
  }

  lemma CarriesStep(control: StreamId, s: State, steps: seq<Step>, step: Step)
    requires KnowsRun(control, s, steps) && Carries(control, s, steps)
    ensures Carries(control, Next(control, s, step), steps + [step])
  {
    assert Open(s) <==> Binding(control, steps) < |steps| && !Ended(control, steps);
    BindingSnoc(control, steps, step);
    EndSnoc(control, steps, step);
    assert !Ended(control, steps) ==> End(control, steps) == |steps| by {
      EndOf(control, steps);
    }
    SentBetween(steps, step, Binding(control, steps), End(control, steps));
  }

  lemma SentBetween(steps: seq<Step>, step: Step, k: nat, c: nat)
    requires k <= c <= |steps|
    ensures var all := steps + [step];
            && Sent(all[k..c]) == Sent(steps[k..c])
            && Sent(all[|all|..]) == []
            && (c == |steps| ==>
                  Sent(all[k..|all|]) == Sent(steps[k..c]) + (if step.SendStream? then step.bytes else []))
  {
    var all := steps + [step];
    assert all[k..c] == steps[k..c] && all[|all|..] == [];
    if c == |steps| {
      assert all[k..|all|] == steps[k..c] + [step];
      SentSnoc(steps[k..c], step);
    }
  }

  /** The stream is bound once, to the first stream with data that is not the
      control stream, and the machine knows when it stops. */
  lemma {:induction false} StreamKnown(control: StreamId, steps: seq<Step>)
    ensures KnowsRun(control, Run(control, INIT, steps), steps)
    decreases |steps|
  {
    if |steps| > 0 {
      var m := |steps| - 1;
      StreamKnown(control, steps[..m]);
      KnowsStep(control, Run(control, INIT, steps[..m]), steps[..m], steps[m]);
      assert steps[..m] + [steps[m]] == steps;
    }
  }

  /** The stream carries exactly what was sent from its binding on until it takes
      no more. */
  lemma {:induction false} StreamCarries(control: StreamId, steps: seq<Step>)
    ensures Carries(control, Run(control, INIT, steps), steps)
    decreases |steps|
  {
    if |steps| > 0 {
      var front, last := steps[..|steps| - 1], steps[|steps| - 1];
      assert steps == front + [last];
      StreamCarries(control, front);
      assert Carries(control, Run(control, INIT, front + [last]), front + [last]) by {
        StreamKnown(control, front);
        CarriesStep(control, Run(control, INIT, front), front, last);
        RunSnoc(control, INIT, front, last);
      }
    }
  }

  /** What is sent is what comes before the binding, what the stream carries, and
      what comes behind its end. */
  lemma SentParts(control: StreamId, steps: seq<Step>)
    ensures var k, c := Binding(control, steps), End(control, steps);
            Sent(steps[..k]) + Run(control, INIT, steps).stream + Sent(steps[c..]) == Sent(steps)
  {
    StreamCarries(control, steps);
    SentCut(steps, Binding(control, steps), End(control, steps));
  }

  lemma SentCut(steps: seq<Step>, k: nat, c: nat)
    requires k <= c <= |steps|
    ensures Sent(steps[..k]) + Sent(steps[k..c]) + Sent(steps[c..]) == Sent(steps)
  {
    SliceJoin(steps, k, c);
    SentAppend(steps[..k], steps[k..c]);
    SentAppend(steps[..c], steps[c..]);
  }

  /** No reliable data is lost if and only if none was sent before the binding
      and none behind the end of the stream. */
  lemma StreamLossIff(control: StreamId, steps: seq<Step>)
    ensures Run(control, INIT, steps).stream == Sent(steps)
       <==> Sent(steps[..Binding(control, steps)]) == [] && Sent(steps[End(control, steps)..]) == []
  {
    SentParts(control, steps);
    ConcatEmpty(Run(control, INIT, steps).stream);
  }

  /** A run of three steps. */
  lemma RunThree(control: StreamId, a: Step, b: Step, c: Step)
    ensures Run(control, INIT, [a, b, c]) == Next(control, Next(control, Next(control, INIT, a), b), c)
    ensures Sent([a, b, c]) == Sent([a]) + Sent([b]) + Sent([c])
  {
    assert [a, b, c] == ([] + [a] + [b]) + [c];
    RunSnoc(control, INIT, [], a);
    RunSnoc(control, INIT, [] + [a], b);
    RunSnoc(control, INIT, [] + [a] + [b], c);
    assert [a, b, c] == ([a] + [b]) + [c];
    SentAppend([a] + [b], [c]);
    SentAppend([a], [b]);
  }

  lemma SentOne(step: Step)
    ensures Sent([step]) == if step.SendStream? then step.bytes else []
  {
    SentSnoc([], step);
    assert [] + [step] == [step];
  }

  /** Ways to lose a byte: sent before the binding, */
  lemma SendBeforeBinding(control: StreamId, id: StreamId, b: byte)
    requires id != control
    ensures Run(control, INIT, [SendStream([b]), Post(id), SendFin]).stream == []
    ensures Sent([SendStream([b]), Post(id), SendFin]) == [b]
  {
    RunThree(control, SendStream([b]), Post(id), SendFin);
    SentOne(SendStream([b]));
    SentOne(Post(id));
    SentOne(SendFin);
  }

  /** Of the four kinds of streams in section 2.1 of RFC 9000, the first two. */
  lemma DirectionBit(id: nat)
    ensures Bidirectional(id) <==> id % 4 <= 1
  {
    assert id == 4 * (id / 4) + id % 4;
    assert id / 2 == 2 * (id / 4) + id % 4 / 2;
  }

  /** on a stream that runs the other way, */
  lemma SendOneWay(control: StreamId, id: StreamId, b: byte)
    requires id != control && id % 4 >= 2
    ensures Run(control, INIT, [Post(id), SendStream([b]), SendFin]).stream == []
    ensures Sent([Post(id), SendStream([b]), SendFin]) == [b]
  {
    DirectionBit(id);
    RunThree(control, Post(id), SendStream([b]), SendFin);
    SentOne(SendStream([b]));
    SentOne(Post(id));
    SentOne(SendFin);
  }

  /** and after the stream was stopped. */
  lemma SendAfterStop(control: StreamId, id: StreamId, b: byte)
    requires id != control
    ensures Run(control, INIT, [Post(id), Stop(id), SendStream([b])]).stream == []
    ensures Sent([Post(id), Stop(id), SendStream([b])]) == [b]
  {
    RunThree(control, Post(id), Stop(id), SendStream([b]));
    SentOne(SendStream([b]));
    SentOne(Post(id));
    SentOne(Stop(id));
  }

  /** A byte behind FIN is carried while the FIN waits, */
  lemma SendBehindFin(control: StreamId, id: StreamId, b: byte)
    requires id != control && id % 4 <= 1
    ensures Run(control, INIT, [Post(id), SendFin, SendStream([b])]).stream == [b]
  {
    DirectionBit(id);
    RunThree(control, Post(id), SendFin, SendStream([b]));
  }

  /** and lost when it has left. */
  lemma SendBehindSentFin(control: StreamId, id: StreamId, b: byte)
    requires id != control
    ensures Run(control, INIT, [Post(id), SendFin, FinLeaves] + [SendStream([b])]).stream == []
    ensures Sent([Post(id), SendFin, FinLeaves] + [SendStream([b])]) == [b]
  {
    var front := [Post(id), SendFin, FinLeaves];
    RunThree(control, Post(id), SendFin, FinLeaves);
    assert id in Run(control, INIT, front).stopped && Run(control, INIT, front).stream == [];
    RunSnoc(control, INIT, front, SendStream([b]));
    SentOne(Post(id));
    SentOne(SendFin);
    SentOne(FinLeaves);
    assert Sent(front) == [];
    SentSnoc(front, SendStream([b]));
  }

  /** Bound stays bound, to the same stream. */
  lemma {:induction false} BoundForGood(control: StreamId, s: State, steps: seq<Step>)
    requires s.data != UNBOUND
    ensures Run(control, s, steps).data == s.data
    decreases |steps|
  {
    if |steps| > 0 { BoundForGood(control, s, steps[..|steps| - 1]); }
  }

  // ---- the peer ----

  /** A call into the session core. */
  datatype Delivery = Stream(bytes: seq<byte>) | Fin

  class Peer {
    const controlStreamId: StreamId
    var dataStreamId: nat
    var dgramHead: Node?<seq<byte>>
    var dgramTail: Node?<seq<byte>>
    /** The transport's side: its datagram flag, and what it was given. */
    var ready: bool
    var given: seq<seq<byte>>
    var stream: seq<byte>
    var fins: nat
    var stopped: set<nat>
    ghost var nodes: seq<Node<seq<byte>>>
    ghost var Repr: set<Node<seq<byte>>>
    ghost var run: seq<Step>

    /** The state the protocol reaches by this run. */
    ghost var reached: State

    /** Head and tail hold the queue. */
    ghost predicate ListValid()
      reads this, Repr
    {
      IsQueue(dgramHead, dgramTail, nodes, Repr)
    }

    /** The fields are those of this state. */
    ghost predicate Shows(s: State)
      reads this
    {
      && s.data == dataStreamId && s.stopped == stopped && s.stream == stream && s.fins == fins
      && s.fifo == Items(nodes) && s.ready == ready && s.given == given
    }

    /** The fields are those of the state reached. */
    ghost predicate Valid()
      reads this, Repr
    {
      ListValid() && Shows(reached) && reached == Run(controlStreamId, INIT, run)
    }

    constructor (control: StreamId)
      ensures Valid() && run == [] && Repr == {} && controlStreamId == control
    {
      controlStreamId, dataStreamId := control, UNBOUND;
      dgramHead, dgramTail, nodes, Repr := null, null, [], {};
      ready, given, stream, fins, stopped, run, reached := false, [], [], 0, {}, [], INIT;
    }

    /** The protocol takes a step. */
    ghost method Record(step: Step)
      requires reached == Run(controlStreamId, INIT, run)
      modifies this`run, this`reached
      ensures run == old(run) + [step] && reached == Next(controlStreamId, old(reached), step)
      ensures reached == Run(controlStreamId, INIT, run)
    {
      RunSnoc(controlStreamId, INIT, run, step);
      run, reached := run + [step], Next(controlStreamId, reached, step);
    }

    /** The transport's call that adds data to the data stream, or its FIN. Data is
        counted if it can still be sent. */
    method AddToStream(data: seq<byte>, fin: bool)
      modifies this`stream, this`fins
      ensures stream == old(stream) + (if Bidirectional(dataStreamId) && dataStreamId !in stopped then data else [])
      ensures fins == old(fins) + (if fin then 1 else 0)
    {
      if Bidirectional(dataStreamId) && dataStreamId !in stopped {
        stream := stream + data;
      }
      if fin {
        fins := fins + 1;
      }
    }

    /** Refused until the stream is bound. What the transport does with the data
        after that is not looked at. */
    method SendStream(data: seq<byte>) returns (ok: bool)
      requires Valid()
      modifies this
      ensures Valid() && nodes == old(nodes) && Repr == old(Repr)
      ensures run == old(run) + [Step.SendStream(data)] && (ok <==> dataStreamId != UNBOUND)
    {
      Record(Step.SendStream(data));
      if dataStreamId == UNBOUND {
        return false;
      }
      AddToStream(data, false);
      ConcatEmpty(old(stream));
      return true;
    }

    method SendFin() returns (ok: bool)
      requires Valid()
      modifies this
      ensures Valid() && nodes == old(nodes) && Repr == old(Repr)
      ensures run == old(run) + [Step.SendFin] && (ok <==> dataStreamId != UNBOUND)
    {
      Record(Step.SendFin);
      if dataStreamId == UNBOUND {
        return false;
      }
      AddToStream([], true);
      ConcatEmpty(old(stream));
      return true;
    }

    method Append(data: seq<byte>)
      requires ListValid()
      modifies this`dgramHead, this`dgramTail, this`nodes, this`Repr, dgramTail
      ensures ListValid() && fresh(Repr - old(Repr))
      ensures nodes != [] && Items(nodes) == old(Items(nodes)) + [data]
    {
      var d := new Node(data);
      if dgramTail != null {
        dgramTail.next := d;
      } else {
        dgramHead := d;
      }
      dgramTail := d;
      ghost var k := |nodes|;
      FollowerSnoc(nodes, d);
      nodes, Repr := nodes + [d], Repr + {d};
      assert forall i :: 0 <= i < k ==> nodes[i].next == Follower(nodes, i);
    }

    method Unlink() returns (d: Node<seq<byte>>)
      requires ListValid() && nodes != []
      modifies this`dgramHead, this`dgramTail, this`nodes
      ensures ListValid() && nodes == old(nodes)[1..] && d == old(nodes)[0]
      ensures Items(nodes) == old(Items(nodes))[1..]
    {
      d := dgramHead;
      assert d.next == Follower(nodes, 0);
      FollowerTail(nodes);
      dgramHead := d.next;
      if dgramHead == null {
        dgramTail := null;
      }
      nodes := nodes[1..];
    }

    method Enqueue(data: seq<byte>)
      requires ListValid()
      modifies this`dgramHead, this`dgramTail, this`nodes, this`Repr, this`ready, dgramTail
      ensures ListValid() && fresh(Repr - old(Repr))
      ensures Items(nodes) == old(Items(nodes)) + [data] && ready
    {
      Append(data);
      ready := true;
    }

    /** Queues a datagram behind the others and asks to be called back. */
    method SendDatagram(data: seq<byte>)
      requires Valid()
      modifies this, dgramTail
      ensures Valid() && fresh(Repr - old(Repr)) && run == old(run) + [Step.SendDatagram(data)]
    {
      Record(Step.SendDatagram(data));
      Enqueue(data);
    }

    /** Takes the oldest datagram, if there is one, and re-arms if more wait. */
    method Dequeue(room: bool) returns (copied: seq<seq<byte>>)
      requires ListValid()
      modifies this`dgramHead, this`dgramTail, this`nodes, this`ready, this`given
      ensures ListValid() && Items(nodes) == Behind(old(Items(nodes))) && (ready <==> |old(nodes)| > 1)
      ensures copied == CopiedFrom(old(Items(nodes)), room) && given == old(given) + copied
    {
      copied := [];
      ready := false;
      if dgramHead != null {
        var d := Unlink();
        if room && |d.item| > 0 {
          copied := [d.item];
        }
        if dgramHead != null {
          ready := true;
        }
      }
      given := given + copied;
    }

    /** The callback for a datagram. The oldest one leaves the queue, copied if
        the transport gives a buffer, and the next one is announced. */
    method ProvideDatagram(room: bool) returns (copied: seq<seq<byte>>)
      requires Valid()
      modifies this
      ensures Valid() && run == old(run) + [Provide(room)] && Repr == old(Repr)
      ensures copied == CopiedFrom(old(Items(nodes)), room)
    {
      copied := Dequeue(room);
      Record(Provide(room));
    }

    /** The FIN of the data stream is sent off. */
    method OnFinLeaves()
      requires Valid()
      modifies this
      ensures Valid() && nodes == old(nodes) && Repr == old(Repr) && run == old(run) + [FinLeaves]
    {
      Record(FinLeaves);
      if fins > 0 {
        stopped := stopped + {dataStreamId};
      }
    }

    /** The peer wants no more data on a stream, or it is reset. */
    method OnStop(id: StreamId)
      requires Valid()
      modifies this
      ensures Valid() && nodes == old(nodes) && Repr == old(Repr) && run == old(run) + [Stop(id)]
    {
      Record(Stop(id));
      stopped := stopped + {id};
    }

    /** Data, or the end of data, on one of the peer's streams. */
    method OnPost(id: StreamId, bytes: seq<byte>, fin: bool) returns (calls: seq<Delivery>)
      requires Valid()
      modifies this
      ensures Valid() && nodes == old(nodes) && Repr == old(Repr) && run == old(run) + [Post(id)]
      ensures calls == if id == controlStreamId then []
                       else (if bytes != [] then [Stream(bytes)] else []) + (if fin then [Fin] else [])
    {
      Record(Post(id));
      calls := [];
      if id == controlStreamId {
        return;
      }
      if dataStreamId == UNBOUND {
        dataStreamId := id;
      }
      if |bytes| > 0 {
        calls := calls + [Stream(bytes)];
      }
      if fin {
        calls := calls + [Fin];
      }
    }
  }
}
