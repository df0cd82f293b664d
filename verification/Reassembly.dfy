/** Reassembling frames from a file descriptor that delivers a byte stream in
    chunks of any size: what the child-output reader and the echo child share. */
module Reassembly {
  import opened Bytes
  import opened Frames
  import opened Streams

  /** How the system answers one read: with up to n bytes, with EINTR, or with
      another error. */
  datatype ReadStep = Give(n: nat) | Interrupt | Fail

  datatype ReadResult = Got(n: nat) | Interrupted | Failed

  /** An open file descriptor: the bytes still to come and the answers the
      system will give, whatever they are. When the answers run out it gives
      all it can. */
  class Source {
    var data: seq<byte>
    var script: seq<ReadStep>

    constructor (data: seq<byte>, script: seq<ReadStep>)
      ensures this.data == data && this.script == script
    {
      this.data, this.script := data, script;
    }

    /** Reads into buf[at..at + space]. It returns no bytes only at the end. */
    method Read(buf: array<byte>, at: nat, space: nat) returns (r: ReadResult)
      requires 0 < space && at + space <= buf.Length
      modifies this, buf
      ensures r.Got? ==> r.n <= space && r.n <= |old(data)| && (r.n == 0 <==> old(data) == [])
      ensures r.Got? ==> buf[..at + r.n] == old(buf[..at]) + old(data)[..r.n] && data == old(data)[r.n..]
      ensures !r.Got? ==> data == old(data) && buf[..] == old(buf[..])
      ensures r.Failed? ==> Fail in old(script)
      ensures Fail in script ==> Fail in old(script)
      ensures r != Got(0) ==> |data| + |script| < |old(data)| + |old(script)|
    {
      var want := space;
      if |script| > 0 {
        var step := script[0];
        script := script[1..];
        match step {
          case Interrupt => return Interrupted;
          case Fail => return Failed;
          case Give(n) => want := if n == 0 then 1 else if n < space then n else space;
        }
      }
      var n := if want <= |data| then want else |data|;
      CopyInto(buf, at, data[..n]);
      data := data[n..];
      r := Got(n);
    }
  }

  /** Moves the bytes after the first n of buf[..used] to its front. */
  method Discard(buf: array<byte>, n: nat, used: nat)
    requires n <= used <= buf.Length
    modifies buf
    ensures buf[..used - n] == old(buf[n..used])
  {
    forall k | 0 <= k < used - n { buf[k] := buf[n + k]; }
  }

  /** How reading stands with these bytes left in the buffer. */
  ghost function Held(rest: seq<byte>): End {
    if |rest| >= CAP then Full else Waiting(rest)
  }

  /** What the inner loop keeps: the frames taken so far and the parse of the
      buffer make up the parse of what was in it at the start. */
  ghost predicate Taking(whole: Parsed, done: seq<Frame>, buf: seq<byte>) {
    whole == Parsed(done + Parse(buf).frames, Parse(buf).end)
  }

  lemma StartTaking(buf: seq<byte>)
    ensures Taking(Parse(buf), [], buf)
  {
    ConcatEmpty(Parse(buf).frames);
  }

  lemma StopTaking(whole: Parsed, done: seq<Frame>, buf: seq<byte>)
    requires Taking(whole, done, buf) && |buf| <= CAP && !Decode(buf).Ok?
    ensures whole == Parsed(done, if Decode(buf).Incomplete? then Held(buf) else Malformed)
  {
    ConcatEmpty(done);
  }

  /** A complete frame at the front of the buffer. */
  lemma TakeFrame(whole: Parsed, done: seq<Frame>, buf: seq<byte>, n: nat, f: Frame)
    requires |buf| <= CAP && Decode(buf) == Ok(n, f) && Taking(whole, done, buf)
    ensures 2 <= n <= |buf| && f.flag <= 1
    ensures Taking(whole, done + [f], buf[n..])
  {
    DecodedFrame(buf);
    ParseFirst(buf, n, f);
    ConcatAssoc(done, [f], Parse(buf[n..]).frames);
  }

  /** What the outer loop keeps: the bytes seen so far parse to the frames
      delivered, and the buffer holds the rest. */
  ghost predicate Reading(total: seq<byte>, seen: seq<byte>, coming: seq<byte>, frames: seq<Frame>, end: End) {
    total == seen + coming && Parse(seen) == Parsed(frames, end)
  }

  lemma StartReading(total: seq<byte>)
    ensures Reading(total, [], total, [], Held([]))
  {
    ParseEmpty();
    ConcatEmpty(total);
  }

  /** A chunk read into the buffer and delivered. */
  lemma {:induction false} ReadChunk(total: seq<byte>, seen: seq<byte>, coming: seq<byte>, n: nat,
                                     frames: seq<Frame>, held: seq<byte>)
    requires Reading(total, seen, coming, frames, Held(held)) && |held| < CAP && n <= |coming|
    ensures var p := Parse(held + coming[..n]);
            Reading(total, seen + coming[..n], coming[n..], frames + p.frames, p.end)
  {
    ParseAppend(seen, coming[..n]);
    Rejoin(coming, n);
    ConcatAssoc(seen, coming[..n], coming[n..]);
  }

  /** What the reader makes of some bytes behind those it held: nothing, if none
      came, and otherwise the parse of both. */
  ghost predicate Extends(held: seq<byte>, bytes: seq<byte>, fs: seq<Frame>, end: End) {
    if bytes == [] then fs == [] && end == Held(held) else Parse(held + bytes) == Parsed(fs, end)
  }

  /** A round with such a result. */
  lemma ReadMore(total: seq<byte>, seen: seq<byte>, coming: seq<byte>, n: nat, frames: seq<Frame>, held: seq<byte>,
                 added: seq<Frame>, end: End)
    requires Reading(total, seen, coming, frames, Held(held)) && |held| < CAP && n <= |coming|
    requires Extends(held, coming[..n], added, end)
    ensures Reading(total, seen + coming[..n], coming[n..], frames + added, end)
  {
    if n == 0 {
      ConcatEmpty(frames);
      ConcatEmpty(seen);
      assert coming[..0] == [] && coming[0..] == coming;
    } else {
      ReadChunk(total, seen, coming, n, frames, held);
    }
  }

  /** What a reader delivers: the greedy parse of the bytes it has taken, which
      is that of the whole stream unless a read failed. */
  ghost predicate Delivered(total: seq<byte>, coming: seq<byte>, failed: bool, frames: seq<Frame>) {
    && |coming| <= |total|
    && frames == Parse(total[..|total| - |coming|]).frames
    && (!failed ==> frames == Parse(total).frames)
  }

  /** Where reading stops: with nothing more to come, for good, or at an error. */
  lemma {:induction false} StopReading(total: seq<byte>, seen: seq<byte>, coming: seq<byte>, frames: seq<Frame>,
                                       end: End, failed: bool)
    requires Reading(total, seen, coming, frames, end)
    requires coming == [] || !end.Waiting? || failed
    ensures Delivered(total, coming, failed, frames)
  {
    DropPrefix(seen, coming);
    ParseAppend(seen, coming);
    ConcatEmpty(seen);
  }
}
