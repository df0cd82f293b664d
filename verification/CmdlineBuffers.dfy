/** The command-line printer writing into a caller's buffer. */
module CmdlineBuffers {
  import opened Bytes
  import opened Cmdline

  datatype Argv = Null | Args(list: seq<string>)

  /** Whether text of this length can be put at pos: each character needs one
      more place behind it, for the NUL. */
  predicate Fits(pos: nat, len: nat, cap: nat) {
    len == 0 || pos + len + 1 <= cap
  }

  /** Writes one character, or nothing if it does not fit. */
  method Put(out: array<char>, cap: nat, pos: nat, c: char) returns (ok: bool, end: nat)
    requires cap <= out.Length && pos <= out.Length
    modifies out
    ensures ok <==> Fits(pos, 1, cap)
    ensures end == pos + (if ok then 1 else 0) && end <= out.Length
    ensures out[..end] == old(out[..pos]) + (if ok then [c] else [])
    ensures forall k :: cap <= k < out.Length ==> out[k] == old(out[k])
  {
    if pos + 1 >= cap { return false, pos; }
    out[pos] := c;
    return true, pos + 1;
  }

  /** Writes a run of backslashes. */
  method PutSlashes(out: array<char>, cap: nat, pos: nat, count: nat) returns (ok: bool, end: nat)
    requires cap <= out.Length && pos <= out.Length
    modifies out
    ensures ok <==> Fits(pos, count, cap)
    ensures ok ==> end == pos + count && end <= out.Length && out[..end] == old(out[..pos]) + Slashes(count)
    ensures forall k :: cap <= k < out.Length ==> out[k] == old(out[k])
  {
    ok, end := true, pos;
    var j := 0;
    assert old(out[..pos]) + Slashes(0) == out[..pos];
    while j < count
      invariant 0 <= j <= count && end == pos + j <= out.Length && ok && Fits(pos, j, cap)
      invariant out[..end] == old(out[..pos]) + Slashes(j)
      invariant forall k :: cap <= k < out.Length ==> out[k] == old(out[k])
    {
      ok, end := Put(out, cap, end, '\\');
      if !ok { return; }
      assert Slashes(j) + ['\\'] == Slashes(j + 1);
      ConcatAssoc(old(out[..pos]), Slashes(j), ['\\']);
      j := j + 1;
    }
  }

  /** Writes a backslash and a quote. */
  method PutEscape(out: array<char>, cap: nat, pos: nat) returns (ok: bool, end: nat)
    requires cap <= out.Length && pos <= out.Length
    modifies out
    ensures ok <==> Fits(pos, 2, cap)
    ensures ok ==> end == pos + 2 && end <= out.Length && out[..end] == old(out[..pos]) + ['\\', '"']
    ensures forall k :: cap <= k < out.Length ==> out[k] == old(out[k])
  {
    ok, end := Put(out, cap, pos, '\\');
    if !ok { return; }
    ok, end := Put(out, cap, end, '"');
    ConcatAssoc(old(out[..pos]), ['\\'], ['"']);
    assert ['\\'] + ['"'] == ['\\', '"'];
  }

  /** The length of the run of backslashes at index j. */
  method CountRun(a: string, j: nat) returns (bs: nat)
    requires j <= |a|
    ensures bs == Run(a[j..])
  {
    bs := 0;
    while j + bs < |a| && a[j + bs] == '\\'
      invariant j + bs <= |a|
      invariant Run(a[j..]) == bs + Run(a[j + bs..])
    {
      assert a[j + bs..][1..] == a[j + bs + 1..];
      bs := bs + 1;
    }
  }

  /** How the printer's text for a run of backslashes starts. */
  ghost function RunChunk(s: string, quoted: bool): string {
    var bs := Run(s);
    if bs == |s| then Slashes(if quoted then 2 * bs else bs)
    else if s[bs] == '"' then Slashes(2 * bs) + ['\\', '"']
    else Slashes(bs)
  }

  /** How many characters of the argument that text stands for. */
  ghost function RunTaken(s: string): (k: nat)
    ensures k <= |s|
  {
    var bs := Run(s);
    if bs < |s| && s[bs] == '"' then bs + 1 else bs
  }

  lemma RunChunkOfBody(a: string, j: nat, quoted: bool)
    requires j < |a| && a[j] == '\\'
    ensures var next := j + RunTaken(a[j..]);
            j < next <= |a| && RunChunk(a[j..], quoted) != ""
            && Body(a[j..], quoted) == RunChunk(a[j..], quoted) + Body(a[next..], quoted)
  {
    assert Body(a[j..], quoted) == RunChunk(a[j..], quoted) + Body(a[j..][RunTaken(a[j..])..], quoted) by {
      var bs := Run(a[j..]);
      if bs == |a[j..]| {
        assert RunChunk(a[j..], quoted) + "" == RunChunk(a[j..], quoted);
      } else if a[j..][bs] == '"' {
        assert a[j..][bs..][1..] == a[j..][bs + 1..];
      }
    }
    assert a[j..][RunTaken(a[j..])..] == a[j + RunTaken(a[j..])..];
  }

  /** The text for the run at index j, by what comes behind it. */
  lemma RunChunkAt(a: string, j: nat, quoted: bool)
    requires j < |a|
    ensures var bs := Run(a[j..]); var next := j + bs;
            next <= |a|
            && (next == |a| ==>
                  RunChunk(a[j..], quoted) == Slashes(if quoted then 2 * bs else bs) && RunTaken(a[j..]) == bs)
            && (next < |a| && a[next] == '"' ==>
                  RunChunk(a[j..], quoted) == Slashes(2 * bs) + ['\\', '"'] && RunTaken(a[j..]) == bs + 1)
            && (next < |a| && a[next] != '"' ==> RunChunk(a[j..], quoted) == Slashes(bs) && RunTaken(a[j..]) == bs)
  {
  }

  /** Writes the backslashes before a quote, doubled, and the escaped quote. */
  method PutBeforeQuote(out: array<char>, cap: nat, pos: nat, bs: nat) returns (ok: bool, end: nat)
    requires cap <= out.Length && pos <= out.Length
    modifies out
    ensures ok <==> Fits(pos, 2 * bs + 2, cap)
    ensures ok ==> end == pos + 2 * bs + 2 && end <= out.Length
    ensures ok ==> out[..end] == old(out[..pos]) + (Slashes(2 * bs) + ['\\', '"'])
    ensures forall k :: cap <= k < out.Length ==> out[k] == old(out[k])
  {
    ok, end := PutSlashes(out, cap, pos, 2 * bs);
    if !ok { return; }
    ok, end := PutEscape(out, cap, end);
    ConcatAssoc(old(out[..pos]), Slashes(2 * bs), ['\\', '"']);
  }

  /** Handles a run of backslashes. */
  method PutRun(a: string, j: nat, quoted: bool, out: array<char>, cap: nat, pos: nat)
    returns (ok: bool, end: nat, next: nat)
    requires j < |a| && a[j] == '\\' && cap <= out.Length && pos <= out.Length
    modifies out
    ensures next == j + RunTaken(a[j..])
    ensures ok <==> Fits(pos, |RunChunk(a[j..], quoted)|, cap)
    ensures ok ==> end == pos + |RunChunk(a[j..], quoted)| && end <= out.Length
    ensures ok ==> out[..end] == old(out[..pos]) + RunChunk(a[j..], quoted)
    ensures forall k :: cap <= k < out.Length ==> out[k] == old(out[k])
  {
    RunChunkAt(a, j, quoted);
    var bs := CountRun(a, j);
    next := j + bs;
    if next == |a| {
      ok, end := PutSlashes(out, cap, pos, if quoted then 2 * bs else bs);
    } else if a[next] == '"' {
      next := next + 1;
      ok, end := PutBeforeQuote(out, cap, pos, bs);
    } else {
      ok, end := PutSlashes(out, cap, pos, bs);
    }
  }

  /** The text for a character that is no backslash. */
  ghost function CharChunk(c: char): string { if c == '"' then ['\\', '"'] else [c] }

  /** The text for the run or the character at the front of s, and how many
      characters of s it stands for. */
  ghost function Chunk(s: string, quoted: bool): string
    requires s != ""
  {
    if s[0] == '\\' then RunChunk(s, quoted) else CharChunk(s[0])
  }

  ghost function Taken(s: string): (k: nat)
    requires s != ""
    ensures k <= |s|
  {
    if s[0] == '\\' then RunTaken(s) else 1
  }

  lemma ChunkOfBody(a: string, j: nat, quoted: bool)
    requires j < |a|
    ensures var next := j + Taken(a[j..]);
            j < next && Chunk(a[j..], quoted) != ""
            && Body(a[j..], quoted) == Chunk(a[j..], quoted) + Body(a[next..], quoted)
  {
    var s := a[j..];
    if s[0] == '\\' {
      RunChunkOfBody(a, j, quoted);
      assert Chunk(s, quoted) == RunChunk(s, quoted) && Taken(s) == RunTaken(s);
    } else {
      assert Body(a[j..], quoted) == CharChunk(a[j]) + Body(a[j + 1..], quoted) by {
        assert a[j..][1..] == a[j + 1..];
      }
      assert Chunk(s, quoted) == CharChunk(s[0]) && Taken(s) == 1;
    }
  }

  /** Handles one run or one character of an argument. */
  method PutNext(a: string, j: nat, quoted: bool, out: array<char>, cap: nat, pos: nat)
    returns (ok: bool, end: nat, next: nat)
    requires j < |a| && cap <= out.Length && pos <= out.Length
    modifies out
    ensures next == j + Taken(a[j..])
    ensures ok <==> Fits(pos, |Chunk(a[j..], quoted)|, cap)
    ensures ok ==> end == pos + |Chunk(a[j..], quoted)| && end <= out.Length
    ensures ok ==> out[..end] == old(out[..pos]) + Chunk(a[j..], quoted)
    ensures forall k :: cap <= k < out.Length ==> out[k] == old(out[k])
  {
    if a[j] == '\\' {
      ok, end, next := PutRun(a, j, quoted, out, cap, pos);
    } else {
      next := j + 1;
      if a[j] == '"' {
        ok, end := PutEscape(out, cap, pos);
      } else {
        ok, end := Put(out, cap, pos, a[j]);
      }
    }
  }

  /** The same, as a step through the text of the argument. */
  method PutChunk(a: string, j: nat, quoted: bool, out: array<char>, cap: nat, pos: nat)
    returns (ok: bool, end: nat, next: nat, ghost chunk: string)
    requires j < |a| && cap <= out.Length && pos <= out.Length
    modifies out
    ensures j < next <= |a| && chunk != "" && Body(a[j..], quoted) == chunk + Body(a[next..], quoted)
    ensures ok <==> Fits(pos, |chunk|, cap)
    ensures ok ==> end == pos + |chunk| && end <= out.Length && out[..end] == old(out[..pos]) + chunk
    ensures forall k :: cap <= k < out.Length ==> out[k] == old(out[k])
  {
    ChunkOfBody(a, j, quoted);
    chunk := Chunk(a[j..], quoted);
    ok, end, next := PutNext(a, j, quoted, out, cap, pos);
  }

  /** Writes an argument without its quotes. */
  method PutBody(a: string, quoted: bool, out: array<char>, cap: nat, pos: nat) returns (ok: bool, end: nat)
    requires cap <= out.Length && pos <= out.Length
    modifies out
    ensures ok <==> Fits(pos, |Body(a, quoted)|, cap)
    ensures ok ==> end == pos + |Body(a, quoted)| && end <= out.Length
    ensures ok ==> out[..end] == old(out[..pos]) + Body(a, quoted)
    ensures forall k :: cap <= k < out.Length ==> out[k] == old(out[k])
  {
    ok, end := true, pos;
    var j := 0;
    ghost var done := "";
    assert a[0..] == a && "" + Body(a, quoted) == Body(a, quoted) && old(out[..pos]) + "" == out[..pos];
    while j < |a|
      invariant 0 <= j <= |a| && ok && end == pos + |done| <= out.Length && Fits(pos, |done|, cap)
      invariant Body(a, quoted) == done + Body(a[j..], quoted)
      invariant out[..end] == old(out[..pos]) + done
      invariant forall k :: cap <= k < out.Length ==> out[k] == old(out[k])
    {
      ghost var chunk;
      ok, end, j, chunk := PutChunk(a, j, quoted, out, cap, end);
      ConcatAssoc(done, chunk, Body(a[j..], quoted));
      if !ok { return; }
      ConcatAssoc(old(out[..pos]), done, chunk);
      done := done + chunk;
    }
    assert a[j..] == "" && done + "" == done;
  }

  /** Writes an argument. */
  method PutArg(a: string, out: array<char>, cap: nat, pos: nat) returns (ok: bool, end: nat)
    requires cap <= out.Length && pos <= out.Length
    modifies out
    ensures ok <==> Fits(pos, |EncodeArg(a)|, cap)
    ensures ok ==> end == pos + |EncodeArg(a)| && end <= out.Length && out[..end] == old(out[..pos]) + EncodeArg(a)
    ensures forall k :: cap <= k < out.Length ==> out[k] == old(out[k])
  {
    var quoted := NeedsQuotes(a);
    end := pos;
    if quoted {
      ok, end := Put(out, cap, end, '"');
      if !ok { return; }
    } else {
      assert old(out[..pos]) + "" == out[..pos];
    }
    ok, end := PutBody(a, quoted, out, cap, end);
    if !ok { return; }
    if quoted {
      ok, end := Put(out, cap, end, '"');
      ConcatAssoc(old(out[..pos]), ['"'], Body(a, true));
      ConcatAssoc(old(out[..pos]), ['"'] + Body(a, true), ['"']);
    }
  }

  /** Prints the command line of argv into out[..cap] with a NUL behind it. It
      succeeds exactly when both are given and the text and its NUL fit. */
  method BuildCmdline(argv: Argv, out: array?<char>, cap: nat) returns (rc: int)
    requires out != null ==> cap <= out.Length
    modifies out
    ensures rc == 0 || rc == -1
    ensures rc == 0 <==> argv.Args? && out != null && |Print(argv.list)| + 1 <= cap
    ensures rc == 0 ==> out[..|Print(argv.list)|] == Print(argv.list) && out[|Print(argv.list)|] == '\0'
    ensures out != null ==> forall k :: cap <= k < out.Length ==> out[k] == old(out[k])
  {
    if argv.Null? || out == null { return -1; }
    var args := argv.list;
    var pos, i := 0, 0;
    ghost var done := "";
    assert out[..0] == "" && args[0..] == args && "" + Print(args) == Print(args);
    while i < |args|
      invariant 0 <= i <= |args| && pos == |done| <= out.Length && out[..pos] == done && Fits(0, pos, cap)
      invariant Print(args) == done + (if i == 0 then Print(args) else After(args[i..]))
      invariant forall k :: cap <= k < out.Length ==> out[k] == old(out[k])
    {
      var ok := true;
      ghost var rest := if i == 0 then Print(args) else Print(args[i..]);
      assert args[i..][0] == args[i] && args[i..][1..] == args[i + 1..];
      if i > 0 {
        ok, pos := Put(out, cap, pos, ' ');
        if !ok { return -1; }
        ConcatAssoc(done, [' '], rest);
        done := done + [' '];
      }
      ok, pos := PutArg(args[i], out, cap, pos);
      ConcatAssoc(done, EncodeArg(args[i]), After(args[i + 1..]));
      if !ok { return -1; }
      done := done + EncodeArg(args[i]);
      i := i + 1;
    }
    assert Print(args) == done;
    if pos >= cap { return -1; }
    out[pos] := '\0';
    return 0;
  }
}
