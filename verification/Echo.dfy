/** The echo child: it decodes each frame on its input and writes it encoded
    again. */
module Echo {
  import opened Bytes
  import opened Frames
  import opened Streams
  import opened Reassembly

  /** How the system answers one write: it takes up to n bytes, is interrupted,
      or fails. */
  datatype WriteStep = Take(n: nat) | WriteInterrupt | WriteFail

  datatype WriteResult = Wrote(n: nat) | WriteInterrupted | WriteFailed

  /** The answers that make the child give up: an error, or nothing taken. */
  predicate Refuses(script: seq<WriteStep>) {
    WriteFail in script || Take(0) in script
  }

  /** What the child does: it gets bytes from its input, or its output takes some. */
  datatype Io = In(bytes: seq<byte>) | Out(bytes: seq<byte>)

  function InOf(log: seq<Io>): seq<byte> {
    if |log| == 0 then []
    else
      var last := log[|log| - 1];
      InOf(log[..|log| - 1]) + if last.In? then last.bytes else []
  }

  function OutOf(log: seq<Io>): seq<byte> {
    if |log| == 0 then []
    else
      var last := log[|log| - 1];
      OutOf(log[..|log| - 1]) + if last.Out? then last.bytes else []
  }

  predicate OnlyOut(log: seq<Io>) { forall i :: 0 <= i < |log| ==> log[i].Out? }

  lemma IoSnoc(log: seq<Io>, io: Io)
    ensures InOf(log + [io]) == InOf(log) + if io.In? then io.bytes else []
    ensures OutOf(log + [io]) == OutOf(log) + if io.Out? then io.bytes else []
  {
    assert (log + [io])[..|log|] == log;
  }

  lemma {:induction false} IoAppend(log: seq<Io>, more: seq<Io>)
    ensures InOf(log + more) == InOf(log) + InOf(more) && OutOf(log + more) == OutOf(log) + OutOf(more)
    decreases |more|
  {
    if |more| == 0 {
      ConcatEmpty(log);
      ConcatEmpty(InOf(log));
      ConcatEmpty(OutOf(log));
    } else {
      var m := |more| - 1;
      IoAppend(log, more[..m]);
      assert log + more == (log + more[..m]) + [more[m]] && more == more[..m] + [more[m]];
      IoSnoc(log + more[..m], more[m]);
      IoSnoc(more[..m], more[m]);
      ConcatAssoc(InOf(log), InOf(more[..m]), if more[m].In? then more[m].bytes else []);
      ConcatAssoc(OutOf(log), OutOf(more[..m]), if more[m].Out? then more[m].bytes else []);
    }
  }

  lemma {:induction false} OnlyOutTakesNothing(outs: seq<Io>)
    requires OnlyOut(outs)
    ensures InOf(outs) == []
  {
    if |outs| > 0 { OnlyOutTakesNothing(outs[..|outs| - 1]); }
  }

  /** An output file descriptor: the bytes written and the answers to come. When
      the answers run out it takes everything. The log has the bytes written and
      what the child got before. */
  class Sink {
    var written: seq<byte>
    var script: seq<WriteStep>
    ghost var log: seq<Io>

    constructor (script: seq<WriteStep>)
      ensures written == [] && this.script == script && log == []
    {
      written, this.script, log := [], script, [];
    }

    /** These were written. */
    ghost predicate Put(written0: seq<byte>, log0: seq<Io>, outs: seq<Io>)
      reads this
    {
      written == written0 + OutOf(outs) && log == log0 + outs && OnlyOut(outs)
    }

    method Write(bytes: seq<byte>) returns (r: WriteResult)
      requires bytes != []
      modifies this
      ensures r.Wrote? ==> r.n <= |bytes| && written == old(written) + bytes[..r.n]
      ensures r.Wrote? ==> log == old(log) + [Out(bytes[..r.n])]
      ensures !r.Wrote? ==> written == old(written) && log == old(log)
      ensures r == WriteFailed || r == Wrote(0) ==> Refuses(old(script))
      ensures Refuses(script) ==> Refuses(old(script))
      ensures r.WriteInterrupted? ==> |script| < |old(script)|
    {
      var n := |bytes|;
      if |script| > 0 {
        var step := script[0];
        script := script[1..];
        match step {
          case WriteInterrupt => return WriteInterrupted;
          case WriteFail => return WriteFailed;
          case Take(k) => n := if k < |bytes| then k else |bytes|;
        }
      }
      written, log := written + bytes[..n], log + [Out(bytes[..n])];
      r := Wrote(n);
    }
  }

  lemma PutMore(outs: seq<Io>, bytes: seq<byte>, written0: seq<byte>, log0: seq<Io>)
    requires OnlyOut(outs)
    ensures OnlyOut(outs + [Out(bytes)]) && (log0 + outs) + [Out(bytes)] == log0 + (outs + [Out(bytes)])
    ensures OutOf(outs + [Out(bytes)]) == OutOf(outs) + bytes
    ensures (written0 + OutOf(outs)) + bytes == written0 + OutOf(outs + [Out(bytes)])
  {
    IoSnoc(outs, Out(bytes));
    ConcatAssoc(written0, OutOf(outs), bytes);
  }

  /** Writes buf[..len], going on after partial writes and interruptions. */
  method WriteAll(fd: Sink, buf: array<byte>, len: nat) returns (rc: int, ghost outs: seq<Io>)
    requires len <= buf.Length
    modifies fd
    ensures fd.Put(old(fd.written), old(fd.log), outs)
    ensures rc == 0 ==> OutOf(outs) == buf[..len]
    ensures rc != 0 ==> Refuses(old(fd.script)) && OutOf(outs) <= buf[..len]
    ensures Refuses(fd.script) ==> Refuses(old(fd.script))
  {
    var done := 0;
    outs := [];
    ghost var written0, log0 := fd.written, fd.log;
    while done < len
      invariant 0 <= done <= len && fd.Put(written0, log0, outs) && OutOf(outs) == buf[..done]
      invariant Refuses(fd.script) ==> Refuses(old(fd.script))
      decreases len - done, |fd.script|
    {
      var r := fd.Write(buf[done..len]);
      if r.Wrote? {
        ghost var bytes := buf[done..len][..r.n];
        PutMore(outs, bytes, written0, log0);
        outs := outs + [Out(bytes)];
        SliceJoin(buf[..], done, done + r.n);
      }
      if r.Wrote? && r.n > 0 {
        done := done + r.n;
      } else if r.WriteInterrupted? {
        continue;
      } else {
        rc := -1;
        return;
      }
    }
    rc := 0;
  }

  /** What the echo child writes for an input. */
  function EchoOf(s: seq<byte>): seq<byte> {
    EncodeAll(Parse(s).frames)
  }

  lemma EncodeSnoc(fs: seq<Frame>, f: Frame)
    ensures EncodeAll(fs + [f]) == EncodeAll(fs) + Encoding(f)
  {
    EncodeAllAppend(fs, [f]);
    assert [f][1..] == [];
    ConcatEmpty(Encoding(f));
  }

  lemma PutBoth(outs: seq<Io>, more: seq<Io>, written0: seq<byte>, log0: seq<Io>)
    requires OnlyOut(outs) && OnlyOut(more)
    ensures OnlyOut(outs + more) && (log0 + outs) + more == log0 + (outs + more)
    ensures OutOf(outs + more) == OutOf(outs) + OutOf(more)
    ensures (written0 + OutOf(outs)) + OutOf(more) == written0 + OutOf(outs + more)
  {
    IoAppend(outs, more);
    ConcatAssoc(log0, outs, more);
    ConcatAssoc(written0, OutOf(outs), OutOf(more));
  }

  /** A write that was cut short. */
  lemma CutShort(done: seq<byte>, part: seq<byte>, e: seq<byte>, all: seq<byte>)
    requires part <= e && done + e <= all
    ensures done + part <= all
  {
  }

  /** Encodes one frame, writes it and drops it from the input buffer. */
  method EchoOne(inBuf: array<byte>, used: nat, n: nat, f: Frame, outBuf: array<byte>, stdout: Sink)
    returns (left: nat, code: int, ghost outs: seq<Io>)
    requires inBuf.Length == CAP && outBuf.Length == CAP && inBuf != outBuf && n <= used <= CAP && Legal(f)
    modifies inBuf, outBuf, stdout
    ensures left <= used && (code == 0 || code == 6) && stdout.Put(old(stdout.written), old(stdout.log), outs)
    ensures code == 0 ==> left == used - n && inBuf[..left] == old(inBuf[n..used]) && OutOf(outs) == Encoding(f)
    ensures code == 6 ==> Refuses(old(stdout.script)) && OutOf(outs) <= Encoding(f)
    ensures Refuses(stdout.script) ==> Refuses(old(stdout.script))
  {
    left, code, outs := used, 5, [];
    EncodingFits(f);
    var st, len := Encode(f.flag, f.payload, outBuf, CAP);
    if st != OK { return; }
    var rc;
    rc, outs := WriteAll(stdout, outBuf, len);
    if rc != 0 {
      code := 6;
      return;
    }
    Discard(inBuf, n, used);
    left, code := used - n, 0;
  }

  /** The inner loop of the echo child. */
  method EchoBuffered(inBuf: array<byte>, used0: nat, outBuf: array<byte>, stdout: Sink)
    returns (used: nat, code: int, ghost outs: seq<Io>)
    requires inBuf.Length == CAP && outBuf.Length == CAP && inBuf != outBuf && used0 <= CAP
    modifies inBuf, outBuf, stdout
    ensures used <= CAP && (code == 0 || code == 4 || code == 6)
    ensures Refuses(stdout.script) ==> Refuses(old(stdout.script))
    ensures stdout.Put(old(stdout.written), old(stdout.log), outs)
    ensures var p := Parse(old(inBuf[..used0]));
            && (code != 6 ==> OutOf(outs) == EncodeAll(p.frames))
            && (code != 6 ==> p.end == if code == 4 then Malformed else Held(inBuf[..used]))
            && (code == 6 ==> Refuses(old(stdout.script)) && OutOf(outs) <= EncodeAll(p.frames))
  {
    ghost var written0, log0, whole, done: seq<Frame> := stdout.written, stdout.log, Parse(inBuf[..used0]), [];
    used, outs := used0, [];
    StartTaking(inBuf[..used]);
    while true
      invariant used <= CAP && Taking(whole, done, inBuf[..used])
      invariant stdout.Put(written0, log0, outs) && OutOf(outs) == EncodeAll(done)
      invariant Refuses(stdout.script) ==> Refuses(old(stdout.script))
      decreases used
    {
      ghost var bytes, more := inBuf[..used], [];
      var d := Decode(inBuf[..used]);
      if !d.Ok? {
        StopTaking(whole, done, bytes);
        code := if d.Incomplete? then 0 else 4;
        return;
      }
      DecodedFrame(bytes);
      TakeFrame(whole, done, bytes, d.consumed, d.frame);
      assert EncodeAll(done) + Encoding(d.frame) == EncodeAll(done + [d.frame]) <= EncodeAll(whole.frames) by {
        EncodeSnoc(done, d.frame);
        EncodeAllAppend(done + [d.frame], Parse(bytes[d.consumed..]).frames);
      }
      assert inBuf[d.consumed..used] == bytes[d.consumed..];
      used, code, more := EchoOne(inBuf, used, d.consumed, d.frame, outBuf, stdout);
      PutBoth(outs, more, written0, log0);
      outs := outs + more;
      if code != 0 {
        CutShort(EncodeAll(done), OutOf(more), Encoding(d.frame), EncodeAll(whole.frames));
        return;
      }
      done := done + [d.frame];
    }
  }

  /** The acts of a round: a read that gave some bytes, and what was written. */
  function RoundIo(bytes: seq<byte>, outs: seq<Io>): seq<Io> {
    if bytes == [] then outs else [In(bytes)] + outs
  }

  /** One round of the main loop: a read, and the echo of what is complete. */
  method EchoOnce(stdin: Source, inBuf: array<byte>, used: nat, outBuf: array<byte>, stdout: Sink)
    returns (left: nat, go: bool, code: int, ghost n: nat, ghost added: seq<Frame>, ghost end: End,
             ghost outs: seq<Io>)
    requires inBuf.Length == CAP && outBuf.Length == CAP && inBuf != outBuf && used < CAP
    modifies stdin, inBuf, outBuf, stdout
    ensures left <= CAP && (Fail in stdin.script ==> Fail in old(stdin.script))
    ensures Refuses(stdout.script) ==> Refuses(old(stdout.script))
    ensures n <= |old(stdin.data)| && n <= CAP - used && stdin.data == old(stdin.data)[n..]
    ensures Extends(old(inBuf[..used]), old(stdin.data)[..n], added, end)
    ensures go ==> end == Held(inBuf[..left])
    ensures go ==> |stdin.data| + |stdin.script| < |old(stdin.data)| + |old(stdin.script)|
    ensures stdout.written == old(stdout.written) + OutOf(outs) && OnlyOut(outs)
    ensures stdout.log == old(stdout.log) + RoundIo(old(stdin.data)[..n], outs)
    ensures if go || code == 0 || code == 4 then OutOf(outs) == EncodeAll(added) else OutOf(outs) <= EncodeAll(added)
    ensures !go ==> Exits(code, old(stdin.data), Fail in old(stdin.script), Refuses(old(stdout.script)), added, end)
  {
    ghost var held, coming, log0 := inBuf[..used], stdin.data, stdout.log;
    var r := stdin.Read(inBuf, used, CAP - used);
    if !r.Got? || r.n == 0 {
      left, go, code := used, r.Interrupted?, if r.Failed? then 3 else 0;
      n, added, end, outs := 0, [], Held(held), [];
      assert r.Interrupted? ==> inBuf[..used] == held;
      return;
    }
    n := r.n;
    stdout.log := stdout.log + [In(coming[..n])];
    ghost var p := Parse(inBuf[..used + r.n]);
    added, end := p.frames, p.end;
    left, code, outs := EchoBuffered(inBuf, used + r.n, outBuf, stdout);
    ConcatAssoc(log0, [In(coming[..n])], outs);
    go := code == 0;
  }

  /** What the exit codes of a round mean. */
  ghost predicate Exits(code: int, coming: seq<byte>, failed: bool, refused: bool, added: seq<Frame>, end: End) {
    match code
    case 0 => coming == [] && end.Waiting?
    case 3 => failed && added == []
    case 4 => end == Malformed
    case 6 => refused
    case _ => false
  }

  /** Before act k, if it is a read, all that came was answered. */
  ghost predicate PromptAt(log: seq<Io>, k: nat) {
    k < |log| && log[k].In? ==> OutOf(log[..k]) == EchoOf(InOf(log[..k]))
  }

  /** The child answers every complete frame before it reads on. */
  ghost predicate Prompt(log: seq<Io>) { forall k: nat :: PromptAt(log, k) }

  lemma PromptBefore(log: seq<Io>, more: seq<Io>, k: nat)
    requires PromptAt(log, k) && k < |log|
    ensures PromptAt(log + more, k)
  {
    assert (log + more)[..k] == log[..k];
  }

  lemma PromptMore(log: seq<Io>, bytes: seq<byte>, outs: seq<Io>)
    requires Prompt(log) && OutOf(log) == EchoOf(InOf(log)) && OnlyOut(outs)
    ensures Prompt(log + RoundIo(bytes, outs))
    ensures InOf(log + RoundIo(bytes, outs)) == InOf(log) + bytes
    ensures OutOf(log + RoundIo(bytes, outs)) == OutOf(log) + OutOf(outs)
  {
    var more := RoundIo(bytes, outs);
    RoundIoParts(bytes, outs);
    IoAppend(log, more);
    forall k: nat
      ensures PromptAt(log + more, k)
    {
      if k < |log| {
        assert PromptAt(log, k);
        PromptBefore(log, more, k);
      } else if k == |log| {
        assert (log + more)[..k] == log;
      } else if k < |log + more| {
        assert (log + more)[k] == more[k - |log|];
      }
    }
  }

  lemma RoundIoParts(bytes: seq<byte>, outs: seq<Io>)
    requires OnlyOut(outs)
    ensures InOf(RoundIo(bytes, outs)) == bytes && OutOf(RoundIo(bytes, outs)) == OutOf(outs)
    ensures forall k :: 0 < k < |RoundIo(bytes, outs)| ==> RoundIo(bytes, outs)[k].Out?
  {
    OnlyOutTakesNothing(outs);
    if bytes != [] {
      IoSnoc([], In(bytes));
      assert [] + [In(bytes)] == [In(bytes)];
      IoAppend([In(bytes)], outs);
      ConcatEmpty(bytes);
      ConcatEmpty(OutOf(outs));
    }
  }

  /** The exit code an input leads to when reads and writes succeed. */
  function ExitCode(end: End): int {
    match end
    case Waiting(_) => 0
    case Malformed => 4
    case Full => 2
  }

  /** What the child has done so far: it read these bytes and answered these frames. */
  ghost predicate Trace(acts: seq<Io>, seen: seq<byte>, fs: seq<Frame>) {
    Prompt(acts) && InOf(acts) == seen && OutOf(acts) == EncodeAll(fs)
  }

  lemma TraceMore(acts: seq<Io>, seen: seq<byte>, fs: seq<Frame>, bytes: seq<byte>, outs: seq<Io>, gs: seq<Frame>)
    requires Trace(acts, seen, fs) && Parse(seen).frames == fs && OnlyOut(outs) && OutOf(outs) <= EncodeAll(gs)
    ensures Prompt(acts + RoundIo(bytes, outs)) && InOf(acts + RoundIo(bytes, outs)) == seen + bytes
    ensures OutOf(acts + RoundIo(bytes, outs)) == EncodeAll(fs) + OutOf(outs) <= EncodeAll(fs + gs)
    ensures OutOf(outs) == EncodeAll(gs) ==> Trace(acts + RoundIo(bytes, outs), seen + bytes, fs + gs)
  {
    PromptMore(acts, bytes, outs);
    EncodeAllAppend(fs, gs);
  }

  lemma TraceStart()
    ensures Trace([], [], [])
  {
  }

  /** The acts since, as the sink has them. */
  ghost predicate Since(stdout: Sink, written0: seq<byte>, log0: seq<Io>, acts: seq<Io>)
    reads stdout
  {
    stdout.log == log0 + acts && stdout.written == written0 + OutOf(acts)
  }

  lemma SinceMore(written0: seq<byte>, log0: seq<Io>, acts: seq<Io>, bytes: seq<byte>, outs: seq<Io>)
    requires OnlyOut(outs)
    ensures (log0 + acts) + RoundIo(bytes, outs) == log0 + (acts + RoundIo(bytes, outs))
    ensures (written0 + OutOf(acts)) + OutOf(outs) == written0 + OutOf(acts + RoundIo(bytes, outs))
  {
    ConcatAssoc(log0, acts, RoundIo(bytes, outs));
    RoundIoParts(bytes, outs);
    IoAppend(acts, RoundIo(bytes, outs));
    ConcatAssoc(written0, OutOf(acts), OutOf(outs));
  }

  /** The echo child. When no read or write fails it writes the frames of its
      input, encoded again, whatever the sizes of the reads and writes; when one
      does, it has written a prefix of that. It answers what it has before it reads
      on. The exit code for a failed encoding is never returned. */
  method EchoMain(stdin: Source, stdout: Sink) returns (code: int, ghost acts: seq<Io>)
    modifies stdin, stdout
    ensures code == 0 || code == 2 || code == 3 || code == 4 || code == 6
    ensures (code == 3 ==> Fail in old(stdin.script)) && (code == 6 ==> Refuses(old(stdout.script)))
    ensures Since(stdout, old(stdout.written), old(stdout.log), acts) && Prompt(acts)
    ensures old(stdin.data) == InOf(acts) + stdin.data
    ensures var p := Parse(old(stdin.data));
            && OutOf(acts) <= EncodeAll(p.frames)
            && (Fail !in old(stdin.script) && !Refuses(old(stdout.script))
                ==> OutOf(acts) == EncodeAll(p.frames) && code == ExitCode(p.end))
  {
    var inBuf, outBuf := new byte[CAP], new byte[CAP];
    var used: nat, go := 0, true;
    ghost var total, written0, log0, seen: seq<byte> := stdin.data, stdout.written, stdout.log, [];
    ghost var end, frames: seq<Frame> := Held([]), [];
    code, acts := 0, [];
    assert inBuf[..0] == [];
    StartReading(total);
    TraceStart();
    while used < CAP
      invariant used <= CAP && (Fail in stdin.script ==> Fail in old(stdin.script))
      invariant Refuses(stdout.script) ==> Refuses(old(stdout.script))
      invariant Reading(total, seen, stdin.data, frames, Held(inBuf[..used]))
      invariant Trace(acts, seen, frames) && Since(stdout, written0, log0, acts)
      decreases |stdin.data| + |stdin.script|
    {
      ghost var held, coming, n, added, outs := inBuf[..used], stdin.data, 0, [], [];
      used, go, code, n, added, end, outs := EchoOnce(stdin, inBuf, used, outBuf, stdout);
      ReadMore(total, seen, coming, n, frames, held, added, end);
      TraceMore(acts, seen, frames, coming[..n], outs, added);
      SinceMore(written0, log0, acts, coming[..n], outs);
      acts, seen, frames := acts + RoundIo(coming[..n], outs), seen + coming[..n], frames + added;
      if !go {
        EchoStops(total, seen, stdin.data, frames, end);
        return;
      }
    }
    EchoStops(total, seen, stdin.data, frames, Full);
    code := 2;
  }

  /** The frames echoed so far are a prefix of those of the whole input. */
  lemma EchoStops(total: seq<byte>, seen: seq<byte>, coming: seq<byte>, frames: seq<Frame>, end: End)
    requires Reading(total, seen, coming, frames, end)
    ensures EncodeAll(frames) <= EncodeAll(Parse(total).frames)
    ensures coming == [] || !end.Waiting? ==> Parse(total) == Parsed(frames, end)
  {
    ParseAppend(seen, coming);
    ConcatEmpty(seen);
    var more := Parse(total).frames[|frames|..];
    assert Parse(total).frames == frames + more;
    EncodeAllAppend(frames, more);
  }

  // ---- what echoing does to a stream ----

  /** Echoing keeps the frames and leaves nothing over. */
  lemma {:induction false} EchoKeepsFrames(s: seq<byte>)
    ensures Parse(EchoOf(s)) == Parsed(Parse(s).frames, Waiting([]))
  {
    ParsedFramesLegal(s);
    UniquelyDecodable(Parse(s).frames);
  }

  /** An echo is canonical: never longer than the bytes it answers, unchanged on
      a stream that the encoder produced, and a fixed point of echoing. */
  lemma {:induction false} EchoCanonical(s: seq<byte>, fs: seq<Frame>)
    requires AllLegal(fs)
    ensures |EchoOf(s)| <= ParsedLength(s) <= |s|
    ensures EchoOf(EncodeAll(fs)) == EncodeAll(fs)
    ensures EchoOf(EchoOf(s)) == EchoOf(s)
  {
    ReencodingShrinks(s);
    UniquelyDecodable(fs);
    EchoKeepsFrames(s);
  }
}
