/** The session core: it routes peer messages to the child and queued child
    output to the transport. */
module Session {
  import opened Bytes
  import opened Frames
  import L = LinkedLists
  import Q = WorkQueue
  import P = Protocol
  import opened Streams

  // ---- the ports ----

  datatype ChildCall = Write(bytes: seq<byte>) | CloseInput

  /** The port to the child's input. It records the calls; what it answers to a
      write is only logged by the caller. */
  class ChildPort {
    var calls: seq<ChildCall>

    method Write(bytes: seq<byte>) returns (n: int)
      modifies this
      ensures calls == old(calls) + [ChildCall.Write(bytes)]
    {
      calls := calls + [ChildCall.Write(bytes)];
      n := *;
    }

    method CloseInput()
      modifies this
      ensures calls == old(calls) + [ChildCall.CloseInput]
    {
      calls := calls + [ChildCall.CloseInput];
    }
  }

  /** The port to the peer. It records which call was made; any answer is possible. */
  class TransportPort {
    var calls: seq<P.Call>

    method SendStream(bytes: seq<byte>) returns (rc: int)
      modifies this
      ensures calls == old(calls) + [P.Data(P.Stream(bytes))]
    {
      calls := calls + [P.Data(P.Stream(bytes))];
      rc := *;
    }

    method SendDatagram(bytes: seq<byte>) returns (rc: int)
      modifies this
      ensures calls == old(calls) + [P.Data(P.Datagram(bytes))]
    {
      calls := calls + [P.Data(P.Datagram(bytes))];
      rc := *;
    }

    method SendFin() returns (rc: int)
      modifies this
      ensures calls == old(calls) + [P.Fin(rc == 0)]
    {
      rc := *;
      calls := calls + [P.Fin(rc == 0)];
    }
  }

  ghost function Queued(nodes: seq<L.Node<Frame>>): seq<P.Message> {
    P.Messages(L.Items(nodes))
  }

  lemma CallsSnoc(nodes: seq<L.Node<Frame>>, k: nat)
    requires k < |nodes|
    ensures var all := P.Calls(Queued(nodes));
            |all| == |nodes| && all[..k] + [P.Data(P.MessageOf(nodes[k].item))] == all[..k + 1]
  {
  }

  // ---- peer to child, over whole runs ----

  /** What the peer does: a message, reliable or not, or the end of its stream. */
  datatype PeerEvent = Message(reliable: bool, data: seq<byte>) | PeerFin

  /** The child's side of the session. */
  datatype ChildSide = ChildSide(closed: bool, calls: seq<ChildCall>)

  function FlagOf(reliable: bool): byte {
    if reliable then FLAG_RELIABLE else FLAG_UNRELIABLE
  }

  /** One event at the session. */
  function Deliver(s: ChildSide, ev: PeerEvent): ChildSide {
    if s.closed then s
    else match ev
    case Message(reliable, data) =>
      if 1 <= |data| <= MAX_PAYLOAD
      then s.(calls := s.calls + [Write(Encoding(Frame(FlagOf(reliable), data)))])
      else s
    case PeerFin => ChildSide(true, s.calls + [CloseInput])
  }

  function DeliverAll(s: ChildSide, evs: seq<PeerEvent>): ChildSide
    decreases |evs|
  {
    if |evs| == 0 then s else DeliverAll(Deliver(s, evs[0]), evs[1..])
  }

  /** The frames for the messages the child is to get: those of 1 byte to 16 MiB
      that come before the first FIN. */
  function Accepted(evs: seq<PeerEvent>): seq<Frame> {
    if |evs| == 0 || evs[0].PeerFin? then []
    else
      var m := evs[0];
      if 1 <= |m.data| <= MAX_PAYLOAD then [Frame(FlagOf(m.reliable), m.data)] + Accepted(evs[1..])
      else Accepted(evs[1..])
  }

  /** The first event and the rest. */
  lemma AcceptedCons(ev: PeerEvent, rest: seq<PeerEvent>)
    ensures Accepted([ev] + rest) == Accepted([ev]) + (if ev.PeerFin? then [] else Accepted(rest))
  {
    assert [ev][1..] == [] && ([ev] + rest)[1..] == rest;
  }

  function Writes(fs: seq<Frame>): seq<ChildCall> {
    seq(|fs|, i requires 0 <= i < |fs| => Write(Encoding(fs[i])))
  }

  /** The bytes a list of calls writes. */
  function Written(calls: seq<ChildCall>): seq<byte> {
    if |calls| == 0 then []
    else (if calls[0].Write? then calls[0].bytes else []) + Written(calls[1..])
  }

  lemma {:induction false} ClosedStays(s: ChildSide, evs: seq<PeerEvent>)
    requires s.closed
    ensures DeliverAll(s, evs) == s
    decreases |evs|
  {
    if |evs| > 0 { ClosedStays(s, evs[1..]); }
  }

  /** The calls of a whole run. */
  lemma {:induction false} DeliverAllCalls(s: ChildSide, evs: seq<PeerEvent>)
    requires !s.closed
    ensures DeliverAll(s, evs).closed <==> PeerFin in evs
    ensures DeliverAll(s, evs).calls
         == s.calls + Writes(Accepted(evs)) + (if PeerFin in evs then [CloseInput] else [])
    decreases |evs|
  {
    if |evs| == 0 {
      assert s.calls + Writes([]) + [] == s.calls;
    } else {
      var t, rest := Deliver(s, evs[0]), evs[1..];
      assert evs == [evs[0]] + rest;
      if evs[0].PeerFin? {
        ClosedStays(t, rest);
        assert s.calls + Writes([]) == s.calls;
      } else {
        DeliverAllCalls(t, rest);
        if 1 <= |evs[0].data| <= MAX_PAYLOAD {
          assert s.calls + Writes([(Frame(FlagOf(evs[0].reliable), evs[0].data))] + Accepted(rest))
              == (s.calls + [Write(Encoding((Frame(FlagOf(evs[0].reliable), evs[0].data))))]) + Writes(Accepted(rest));
        }
      }
    }
  }

  lemma {:induction false} AcceptedLegal(evs: seq<PeerEvent>)
    ensures AllLegal(Accepted(evs))
  {
    if |evs| > 0 && !evs[0].PeerFin? { AcceptedLegal(evs[1..]); }
  }

  lemma {:induction false} WrittenWrites(fs: seq<Frame>, tail: seq<ChildCall>)
    ensures Written(Writes(fs) + tail) == EncodeAll(fs) + Written(tail)
    decreases |fs|
  {
    if |fs| == 0 {
      assert Writes(fs) + tail == tail;
      ConcatEmpty(Written(tail));
    } else {
      var calls := Writes(fs) + tail;
      assert calls[1..] == Writes(fs[1..]) + tail;
      WrittenWrites(fs[1..], tail);
      ConcatAssoc(Encoding(fs[0]), EncodeAll(fs[1..]), Written(tail));
    }
  }

  /** The child-input protocol over every run: the input is closed at most once,
      on the first FIN, nothing is written after that, and the bytes written
      parse to exactly the accepted messages, in order and with their flags. */
  lemma {:induction false} ChildInputProtocol(evs: seq<PeerEvent>)
    ensures var calls := DeliverAll(ChildSide(false, []), evs).calls;
            && calls == Writes(Accepted(evs)) + (if PeerFin in evs then [CloseInput] else [])
            && Parse(Written(calls)) == Parsed(Accepted(evs), Waiting([]))
  {
    DeliverAllCalls(ChildSide(false, []), evs);
    var fs, tail := Accepted(evs), if PeerFin in evs then [CloseInput] else [];
    assert [] + Writes(fs) + tail == Writes(fs) + tail;
    WrittenWrites(fs, tail);
    assert Written(tail) == [] by {
      if PeerFin in evs { assert tail[1..] == []; }
    }
    ConcatEmpty(EncodeAll(fs));
    AcceptedLegal(evs);
    UniquelyDecodable(fs);
  }

  /** The call behind the others writes a frame with this flag byte and payload. */
  ghost predicate WritesFrame(before: seq<ChildCall>, calls: seq<ChildCall>, flag: byte, data: seq<byte>) {
    && |calls| == |before| + 1 && calls[..|before|] == before
    && calls[|before|].Write? && IsFrame(calls[|before|].bytes, Frame(flag, data))
  }

  /** On the wire: a message of one byte to 16 MiB is written to an open input as
      one frame, whose first byte is zero if it came on a stream and one if it came
      as a datagram. */
  lemma MessageOnTheWire(s: ChildSide, reliable: bool, data: seq<byte>)
    requires !s.closed && 1 <= |data| <= 0x100_0000
    ensures WritesFrame(s.calls, Deliver(s, Message(reliable, data)).calls, if reliable then 0 else 1, data)
  {
    EncodingIsFrame(Frame(FlagOf(reliable), data));
  }

  /** What the peer sent on a stream is sent on the stream when it is echoed, and a
      datagram as a datagram. */
  function EchoOf(ev: PeerEvent): P.Message
    requires ev.Message?
  {
    if ev.reliable then P.Stream(ev.data) else P.Datagram(ev.data)
  }

  /** The messages of one byte to 16 MiB before the first FIN, as they come back. */
  function Echoes(evs: seq<PeerEvent>): seq<P.Message> {
    if |evs| == 0 || evs[0].PeerFin? then []
    else (if 1 <= |evs[0].data| <= 0x100_0000 then [EchoOf(evs[0])] else []) + Echoes(evs[1..])
  }

  lemma {:induction false} EchoesAreAccepted(evs: seq<PeerEvent>)
    ensures P.Messages(Accepted(evs)) == Echoes(evs)
  {
    if |evs| > 0 && !evs[0].PeerFin? {
      EchoesAreAccepted(evs[1..]);
      if 1 <= |evs[0].data| <= MAX_PAYLOAD {
        P.MessagesAppend([Frame(FlagOf(evs[0].reliable), evs[0].data)], Accepted(evs[1..]));
      }
    }
  }

  // ---- the session object ----

  /** What a thread does with a session: it takes bytes from the child, takes a
      step of the hand-over, or wakes the other thread. */
  datatype Act = Took(bytes: seq<byte>) | Did(step: P.Step) | Woke

  function DidAll(steps: seq<P.Step>): seq<Act> {
    seq(|steps|, i requires 0 <= i < |steps| => Did(steps[i]))
  }

  function Sends(n: nat): seq<Act> { seq(n, _ => Did(P.Send)) }

  lemma PumpLog(log: seq<Act>, n: nat, accepted: bool)
    ensures ((log + [Did(P.Drain)]) + Sends(n)) + [Did(P.LoadEof(accepted))] == log + DidAll(P.PumpSteps(n, accepted))
  {
  }

  class Session {
    const transport: TransportPort
    const child: ChildPort
    const outbound: Q.Queue
    var outputEof: bool
    var childInputClosed: bool
    var streamFinSent: bool
    /** Every message queued so far. */
    ghost var pushed: seq<P.Message>
    /** What was done so far, in order. */
    ghost var log: seq<Act>

    ghost predicate Valid()
      reads this, outbound, outbound.Repr
    {
      outbound.Valid()
    }

    /** The state of the hand-over, between pumps. */
    ghost function HandOver(): P.State
      reads this, outbound, transport
    {
      P.State(Queued(outbound.nodes), outputEof, streamFinSent, P.Idle, transport.calls, pushed)
    }

    ghost function Input(): ChildSide
      reads this, child
    {
      ChildSide(childInputClosed, child.calls)
    }

    constructor (transport: TransportPort, child: ChildPort)
      requires transport.calls == [] && child.calls == []
      ensures Valid() && this.transport == transport && this.child == child
      ensures HandOver() == P.INIT && Input() == ChildSide(false, []) && log == []
    {
      this.transport := transport;
      this.child := child;
      outbound := new Q.Queue();
      outputEof, childInputClosed, streamFinSent := false, false, false;
      pushed, log := [], [];
    }

    /** Frames one peer message and hands it to the child port. The buffer of
        nine bytes over the message is always enough. */
    method DeliverToChild(reliable: bool, data: seq<byte>)
      modifies child
      ensures Input() == Deliver(old(Input()), Message(reliable, data))
    {
      if childInputClosed || |data| == 0 { return; }
      var cap := |data| + 9;
      var frame := new byte[cap];
      if |data| <= MAX_PAYLOAD {
        EncodingIsFrame(Frame(FlagOf(reliable), data));
      }
      var st, len := Encode(FlagOf(reliable), data, frame, cap);
      if st == OK {
        var _ := child.Write(frame[..len]);
      }
    }

    method DeliverStream(data: seq<byte>)
      modifies child
      ensures Input() == Deliver(old(Input()), Message(true, data))
      ensures !childInputClosed && 1 <= |data| <= 0x100_0000 ==> WritesFrame(old(child.calls), child.calls, 0, data)
    {
      if !childInputClosed && 1 <= |data| <= MAX_PAYLOAD { MessageOnTheWire(Input(), true, data); }
      DeliverToChild(true, data);
    }

    method DeliverDatagram(data: seq<byte>)
      modifies child
      ensures Input() == Deliver(old(Input()), Message(false, data))
      ensures !childInputClosed && 1 <= |data| <= 0x100_0000 ==> WritesFrame(old(child.calls), child.calls, 1, data)
    {
      if !childInputClosed && 1 <= |data| <= MAX_PAYLOAD { MessageOnTheWire(Input(), false, data); }
      DeliverToChild(false, data);
    }

    method DeliverFin()
      modifies this`childInputClosed, child
      ensures Input() == Deliver(old(Input()), PeerFin)
    {
      if childInputClosed { return; }
      child.CloseInput();
      childInputClosed := true;
    }

    /** The peer's events, one after another. */
    method DeliverRun(evs: seq<PeerEvent>)
      modifies this`childInputClosed, child
      ensures Input() == DeliverAll(old(Input()), evs)
    {
      var i := 0;
      while i < |evs|
        invariant 0 <= i <= |evs|
        invariant DeliverAll(Input(), evs[i..]) == DeliverAll(old(Input()), evs)
      {
        assert evs[i..][1..] == evs[i + 1..];
        match evs[i] {
          case Message(reliable, data) =>
            if reliable { DeliverStream(data); } else { DeliverDatagram(data); }
          case PeerFin => DeliverFin();
        }
        i := i + 1;
      }
    }

    /** Queues one decoded child frame. */
    method OnOutput(flag: byte, data: seq<byte>)
      requires Valid()
      modifies this`pushed, this`log, outbound, outbound.Repr
      ensures Valid() && fresh(outbound.Repr - old(outbound.Repr))
      ensures var m := if flag == 0 then P.Stream(data) else P.Datagram(data);
              && HandOver() == old(HandOver()).(queue := old(HandOver()).queue + [m], pushed := old(pushed) + [m])
              && log == old(log) + [Did(P.Push(m))]
    {
      ghost var m := P.MessageOf(Frame(flag, data));
      Enqueue(Frame(flag, data));
      pushed := pushed + [m];
      log := log + [Did(P.Push(m))];
    }

    method Enqueue(frame: Frame)
      requires Valid()
      modifies outbound, outbound.Repr
      ensures Valid() && fresh(outbound.Repr - old(outbound.Repr))
      ensures Queued(outbound.nodes) == old(Queued(outbound.nodes)) + [P.MessageOf(frame)]
    {
      var f := new L.Node(frame);
      assert Queued(outbound.nodes + [f]) == Queued(outbound.nodes) + [P.MessageOf(f.item)];
      outbound.Push(f);
    }

    method OnOutputEof()
      requires Valid()
      modifies this`outputEof, this`log
      ensures Valid()
      ensures HandOver() == old(HandOver()).(eof := true) && log == old(log) + [Did(P.SetEof)]
    {
      outputEof := true;
      log := log + [Did(P.SetEof)];
    }

    /** Hands the queued frames to the transport port and then tries a FIN, if the
        child's output has ended: the steps of a pump, in their order, and if
        nothing comes between them, their end state. */
    method Pump() returns (ghost accepted: bool)
      requires Valid()
      modifies this`streamFinSent, this`log, outbound, transport
      ensures Valid()
      ensures HandOver() == P.AfterPump(old(HandOver()), accepted)
      ensures log == old(log) + DidAll(P.PumpSteps(|old(outbound.nodes)|, accepted))
    {
      ghost var s := HandOver();
      var frame, detached := DetachAll();
      SendDetached(frame, detached);
      accepted := TryFin();
      ConcatAssoc(s.port, P.Calls(s.queue), if s.eof && !s.finSent then [P.Fin(accepted)] else []);
      PumpLog(old(log), |detached|, accepted);
    }

    /** Detaches the queue. */
    method DetachAll() returns (first: L.Node?<Frame>, ghost detached: seq<L.Node<Frame>>)
      requires Valid()
      modifies this`log, outbound
      ensures Valid() && outbound.nodes == [] && detached == old(outbound.nodes) && L.Linked(first, detached)
      ensures log == old(log) + [Did(P.Drain)]
    {
      first, detached := outbound.Drain();
      log := log + [Did(P.Drain)];
    }

    /** Loads the flag and sends FIN if it is due. */
    method TryFin() returns (ghost accepted: bool)
      modifies this`streamFinSent, this`log, transport
      ensures log == old(log) + [Did(P.LoadEof(accepted))] && (accepted ==> outputEof && !old(streamFinSent))
      ensures var due := outputEof && !old(streamFinSent);
              && transport.calls == old(transport.calls) + (if due then [P.Fin(accepted)] else [])
              && streamFinSent == if due then accepted else old(streamFinSent)
    {
      accepted := false;
      if outputEof && !streamFinSent {
        var rc := transport.SendFin();
        accepted := rc == 0;
        if rc == 0 {
          streamFinSent := true;
        }
      }
      log := log + [Did(P.LoadEof(accepted))];
    }

    /** Sends a frame on the stream or as a datagram. */
    method SendFrame(f: Frame)
      modifies this`log, transport
      ensures var m := if f.flag == 0 then P.Stream(f.payload) else P.Datagram(f.payload);
              transport.calls == old(transport.calls) + [P.Data(m)]
      ensures log == old(log) + [Did(P.Send)]
    {
      if f.flag == FLAG_RELIABLE {
        var _ := transport.SendStream(f.payload);
      } else {
        var _ := transport.SendDatagram(f.payload);
      }
      log := log + [Did(P.Send)];
    }

    /** The loop of the pump over the detached list. */
    method SendDetached(first: L.Node?<Frame>, ghost detached: seq<L.Node<Frame>>)
      requires L.Linked(first, detached)
      modifies this`log, transport
      ensures transport.calls == old(transport.calls) + P.Calls(Queued(detached))
      ensures log == old(log) + Sends(|detached|)
    {
      var frame := first;
      ghost var k := 0;
      ghost var start, before, all := transport.calls, log, P.Calls(Queued(detached));
      assert before == before + Sends(0);
      while frame != null
        invariant 0 <= k <= |detached| && L.Linked(first, detached)
        invariant frame == if k < |detached| then detached[k] else null
        invariant transport.calls == start + all[..k] && log == before + Sends(k)
        decreases |detached| - k
      {
        assert frame == detached[k];
        var next := frame.next;
        assert next == L.Follower(detached, k);
        SendFrame(frame.item);
        CallsSnoc(detached, k);
        ConcatAssoc(start, all[..k], [P.Data(P.MessageOf(detached[k].item))]);
        assert (before + Sends(k)) + [Did(P.Send)] == before + Sends(k + 1);
        frame := next;
        k := k + 1;
      }
      assert all[..k] == all;
    }

    method Destroy() returns (freed: seq<L.Node<Frame>>)
      requires Valid()
      modifies outbound
      ensures Valid() && outbound.nodes == [] && freed == old(outbound.nodes)
    {
      freed := outbound.Destroy();
    }
  }
}
