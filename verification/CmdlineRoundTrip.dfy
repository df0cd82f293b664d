/** Printing a command line into a buffer and splitting it there again. */
module CmdlineRoundTrip {
  import opened Bytes
  import opened Cmdline
  import opened CmdlineBuffers
  import opened CmdlineSplit

  /** An argument as C has it, without a NUL inside. */
  predicate IsCString(a: string) { '\0' !in a }

  predicate AreCStrings(args: seq<string>) {
    forall i :: 0 <= i < |args| ==> IsCString(args[i])
  }

  /** The printer adds no NUL. */
  lemma {:induction false} BodyNoNul(a: string, quoted: bool)
    requires IsCString(a)
    ensures IsCString(Body(a, quoted))
    decreases |a|
  {
    if a != "" {
      if a[0] == '\\' {
        var n := Run(a);
        var rest := a[n..];
        if rest != "" { BodyNoNul(if rest[0] == '"' then rest[1..] else rest, quoted); }
      } else {
        BodyNoNul(a[1..], quoted);
      }
    }
  }

  lemma {:induction false} PrintNoNul(args: seq<string>)
    requires AreCStrings(args)
    ensures IsCString(Print(args))
    decreases |args|
  {
    if |args| > 0 {
      BodyNoNul(args[0], NeedsQuotes(args[0]));
      PrintNoNul(args[1..]);
    }
  }

  /** The text of a buffer that holds a C string. */
  lemma {:induction false} TextOf(s: string, p: nat)
    requires p < |s| && IsCString(s[..p]) && s[p] == '\0'
    ensures Text(s) == s[..p]
    decreases p
  {
    if p > 0 {
      assert s[0] == s[..p][0];
      assert s[1..][..p - 1] == s[..p][1..];
      TextOf(s[1..], p - 1);
      assert s[..p] == [s[0]] + s[..p][1..];
    }
  }

  /** What the tokens of a printed list are to the list. */
  ghost predicate Answers(args: seq<string>, tokens: seq<string>, max: nat) {
    tokens == args <==> |args| <= max && AllSurvive(args)
  }

  /** A printed list in a buffer. */
  ghost predicate Holds(buf: string, args: seq<string>, n: nat) {
    n == |Print(args)| < |buf| && buf[..n] == Print(args) && buf[n] == '\0'
  }

  method BuildString(args: seq<string>, out: array<char>, cap: nat) returns (rc: int, ghost n: nat)
    requires cap <= out.Length
    modifies out
    ensures n == |Print(args)| && (rc == 0 <==> n + 1 <= cap)
    ensures rc == 0 ==> Holds(out[..], args, n)
  {
    n := |Print(args)|;
    rc := BuildCmdline(Args(args), out, cap);
  }

  /** These are the tokens of the text in the first n places of a buffer. */
  ghost predicate TokensIn(buf: string, n: nat, max: nat, tokens: seq<string>) {
    n < |buf| && IsCString(buf[..n]) && buf[n] == '\0' && tokens == Tokens(buf[..n], max)
  }

  /** Splitting a buffer that holds a C string. */
  method SplitString(cmd: array<char>, argv: array<int>, argvCap: nat, ghost n: nat, ghost tokens: seq<string>)
    returns (argc: nat)
    requires 0 < argvCap <= argv.Length && TokensIn(cmd[..], n, argvCap - 1, tokens)
    modifies cmd, argv
    ensures argc == |tokens| < argvCap && argv[argc] == -1 && Found(cmd[..], argv[..], tokens, n, n)
  {
    TextOf(cmd[..], n);
    argc := SplitCmdline(cmd, argv, argvCap);
  }

  lemma PrintedTokens(buf: string, args: seq<string>, n: nat, max: nat) returns (tokens: seq<string>)
    requires AreCStrings(args) && Holds(buf, args, n)
    ensures TokensIn(buf, n, max, tokens) && Answers(args, tokens, max)
  {
    PrintNoNul(args);
    SplitUndoesPrint(args, max);
    tokens := Tokens(Print(args), max);
  }

  /** Splitting a buffer that holds a printed list. */
  method SplitPrinted(args: seq<string>, cmd: array<char>, argv: array<int>, argvCap: nat, ghost n: nat)
    returns (argc: nat, ghost tokens: seq<string>)
    requires AreCStrings(args) && 0 < argvCap <= argv.Length && Holds(cmd[..], args, n)
    modifies cmd, argv
    ensures Found(cmd[..], argv[..], tokens, n, n) && argc == |tokens| < argvCap && argv[argc] == -1
    ensures tokens == args <==> |args| < argvCap && AllSurvive(args)
  {
    tokens := PrintedTokens(cmd[..], args, n, argvCap - 1);
    argc := SplitString(cmd, argv, argvCap, n, tokens);
  }

  /** Building and then splitting in place: the build succeeds if and only if the
      text and its NUL fit. Then the split finds tokens that stand in the buffer,
      each with a NUL behind it, in order and apart; and they are the arguments if
      and only if there is room for them in argv and each of them survives. */
  method BuildThenSplit(args: seq<string>, out: array<char>, cap: nat, argv: array<int>, argvCap: nat)
    returns (rc: int, argc: nat, ghost n: nat, ghost tokens: seq<string>)
    requires AreCStrings(args) && cap <= out.Length && 0 < argvCap <= argv.Length
    modifies out, argv
    ensures n == |Print(args)| && (rc == 0 <==> n + 1 <= cap)
    ensures rc == 0 ==> Found(out[..], argv[..], tokens, n, n)
    ensures rc == 0 ==> argc == |tokens| < argvCap && argv[argc] == -1
    ensures rc == 0 ==> (tokens == args <==> |args| < argvCap && AllSurvive(args))
  {
    argc, tokens := 0, [];
    rc, n := BuildString(args, out, cap);
    if rc == 0 {
      argc, tokens := SplitPrinted(args, out, argv, argvCap, n);
    }
  }
}
