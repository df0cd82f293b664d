/** The in-place command-line tokenizer, and when it undoes the printer. */
module CmdlineSplit {
  import opened Bytes
  import opened Cmdline

  // ---- the tokenizer on text ----

  /** The front of s up to, not including, the first quote. */
  function ToQuote(s: string): (t: string)
    ensures |t| <= |s|
  {
    if s == "" || s[0] == '"' then "" else [s[0]] + ToQuote(s[1..])
  }

  /** The front of s up to, not including, the first space or tab. */
  function ToSpace(s: string): (t: string)
    ensures |t| <= |s|
  {
    if s == "" || Separates(s[0]) then "" else [s[0]] + ToSpace(s[1..])
  }

  /** The text behind a token of n characters and the character that ends it. */
  function Behind(s: string, n: nat): string
    requires n <= |s|
  {
    if n < |s| then s[n + 1..] else ""
  }

  /** The first at most max tokens of s. */
  function Tokens(s: string, max: nat): (ts: seq<string>)
    ensures |ts| <= max
    decreases max
  {
    var t := SkipSpaces(s);
    if max == 0 || t == "" then []
    else if t[0] == '"' then
      var token := ToQuote(t[1..]);
      [token] + Tokens(Behind(t[1..], |token|), max - 1)
    else
      var token := ToSpace(t);
      [token] + Tokens(Behind(t, |token|), max - 1)
  }

  predicate IsBlank(c: char) { c == ' ' || c == '\t' }

  predicate AllBlank(s: string) { forall k :: 0 <= k < |s| ==> IsBlank(s[k]) }

  /** The blanks in front of a text, and what is behind them. */
  ghost predicate BlanksBefore(s: string, i: int, t: string) {
    0 <= i <= |s| && s[i..] == t && AllBlank(s[..i]) && (t != "" ==> !IsBlank(t[0]))
  }

  lemma BlankFirst(s: string, i: int, t: string)
    requires s != "" && IsBlank(s[0]) && BlanksBefore(s[1..], i, t)
    ensures BlanksBefore(s, i + 1, t)
  {
    assert s[..i + 1] == [s[0]] + s[1..][..i];
    assert s[i + 1..] == s[1..][i..];
  }

  lemma {:induction false} SkipSpacesRule(s: string)
    ensures BlanksBefore(s, |s| - |SkipSpaces(s)|, SkipSpaces(s))
  {
    if s != "" && IsBlank(s[0]) {
      SkipSpacesRule(s[1..]);
      BlankFirst(s, |s| - 1 - |SkipSpaces(s[1..])|, SkipSpaces(s[1..]));
    } else {
      assert s[0..] == s;
    }
  }

  lemma {:induction false} ToSpaceRule(s: string)
    ensures var t := ToSpace(s); t <= s && ' ' !in t && '\t' !in t && (|t| < |s| ==> IsBlank(s[|t|]))
  {
    if s != "" { ToSpaceRule(s[1..]); }
  }

  lemma {:induction false} ToQuoteRule(s: string)
    ensures var t := ToQuote(s); t <= s && '"' !in t && (|t| < |s| ==> s[|t|] == '"')
  {
    if s != "" { ToQuoteRule(s[1..]); }
  }

  /** A token in the text: it starts behind the blanks in front. A quoted one goes
      to the next quote or the end, without the quotes; any other to the next blank
      or the end. */
  ghost predicate TokenIn(s: string, start: nat, end: nat, token: string) {
    && start < |s| && AllBlank(s[..start]) && !IsBlank(s[start])
    && if s[start] == '"' then QuotedIn(s, start, end, token) else BareIn(s, start, end, token)
  }

  ghost predicate QuotedIn(s: string, start: nat, end: nat, token: string) {
    start < end <= |s| && token == s[start + 1..end] && '"' !in token && (end < |s| ==> s[end] == '"')
  }

  ghost predicate BareIn(s: string, start: nat, end: nat, token: string) {
    && start <= end <= |s| && token == s[start..end] && ' ' !in token && '\t' !in token
    && (end < |s| ==> IsBlank(s[end]))
  }

  /** What the tokenizer goes on with. */
  function TextBehind(s: string, end: nat): string { if end < |s| then s[end + 1..] else "" }

  lemma QuotedRule(s: string, start: nat, end: nat, t: string)
    requires start < |s| && t == s[start..] && t[0] == '"' && end == start + 1 + |ToQuote(t[1..])|
    ensures QuotedIn(s, start, end, ToQuote(t[1..]))
    ensures Behind(t[1..], |ToQuote(t[1..])|) == TextBehind(s, end)
  {
    var u := t[1..];
    ToQuoteRule(u);
    assert u == s[start + 1..];
  }

  lemma BareRule(s: string, start: nat, end: nat, t: string)
    requires start < |s| && t == s[start..] && end == start + |ToSpace(t)|
    ensures BareIn(s, start, end, ToSpace(t))
    ensures Behind(t, |ToSpace(t)|) == TextBehind(s, end)
  {
    ToSpaceRule(t);
  }

  /** Where the first token of a text stands, if it has one. */
  function TokenStart(s: string): nat { |s| - |SkipSpaces(s)| }

  function TokenEnd(s: string): nat {
    var t := SkipSpaces(s);
    if t == "" then |s|
    else TokenStart(s) + if t[0] == '"' then 1 + |ToQuote(t[1..])| else |ToSpace(t)|
  }

  lemma TokensBy(s: string, t: string, max: nat)
    requires t == SkipSpaces(s) && t != "" && max > 0
    ensures var token := if t[0] == '"' then ToQuote(t[1..]) else ToSpace(t);
            var rest := if t[0] == '"' then Behind(t[1..], |token|) else Behind(t, |token|);
            Tokens(s, max) == [token] + Tokens(rest, max - 1)
  {
  }

  /** The rule of the tokenizer: no token in blank text, and otherwise the first one
      and those of the text behind the character that ends it. */
  lemma TokensRule(s: string, max: nat)
    requires max > 0
    ensures AllBlank(s) ==> Tokens(s, max) == []
    ensures !AllBlank(s) ==> |Tokens(s, max)| > 0 && TokenIn(s, TokenStart(s), TokenEnd(s), Tokens(s, max)[0])
    ensures !AllBlank(s) ==> Tokens(s, max)[1..] == Tokens(TextBehind(s, TokenEnd(s)), max - 1)
  {
    assert (AllBlank(s) <==> SkipSpaces(s) == "") && (SkipSpaces(s) == "" ==> Tokens(s, max) == []) by {
      SkipSpacesRule(s);
      var i := TokenStart(s);
      if i < |s| { assert !IsBlank(s[i]); } else { assert s[..i] == s; }
    }
    var t, start, end := SkipSpaces(s), TokenStart(s), TokenEnd(s);
    if t != "" {
      SkipSpacesRule(s);
      TokensBy(s, t, max);
      assert t[0] == s[start];
      if t[0] == '"' {
        QuotedRule(s, start, end, t);
        assert TokenIn(s, start, end, ToQuote(t[1..]));
      } else {
        BareRule(s, start, end, t);
        assert TokenIn(s, start, end, ToSpace(t));
      }
    }
  }

  // ---- splitting what the printer wrote ----

  /** The arguments that survive printing and splitting: no quote, and no
      backslash at the end of one that has to be quoted for its spaces. */
  predicate Survives(a: string) {
    '"' !in a && (HasSpace(a) ==> a[|a| - 1] != '\\')
  }

  lemma {:induction false} ToQuoteOf(a: string, x: string)
    requires '"' !in a
    ensures ToQuote(a + (['"'] + x)) == a && Behind(a + (['"'] + x), |a|) == x
  {
    if a != "" {
      ToQuoteOf(a[1..], x);
      assert (a + (['"'] + x))[1..] == a[1..] + (['"'] + x);
      assert a == [a[0]] + a[1..];
    }
  }

  lemma {:induction false} ToSpaceOf(a: string, x: string)
    requires !HasSpace(a) && ArgEnds(x)
    ensures ToSpace(a + x) == a && Behind(a + x, |a|) == (if x == "" then "" else x[1..])
  {
    if a == "" {
      assert a + x == x;
    } else {
      assert !Separates(a[0]);
      ToSpaceOf(a[1..], x);
      assert (a + x)[1..] == a[1..] + x;
      assert a == [a[0]] + a[1..];
    }
  }

  /** How the printer writes an argument without quotes in it: unchanged, but for
      the backslashes at its end. */
  lemma {:induction false} BodyWithoutQuotes(a: string)
    requires '"' !in a
    ensures |Body(a, true)| >= |a| && '"' !in Body(a, true)
    ensures Body(a, true) == a <==> a == "" || a[|a| - 1] != '\\'
    decreases |a|
  {
    if a != "" {
      if a[0] == '\\' {
        var n := Run(a);
        var rest := a[n..];
        SplitRun(a);
        if rest == "" {
          assert a[|a| - 1] == Slashes(n)[n - 1];
          assert |Body(a, true)| == 2 * n;
        } else {
          BodyWithoutQuotes(rest);
          assert rest[|rest| - 1] == a[|a| - 1];
          SamePrefix(Slashes(n), Body(rest, true), rest);
        }
      } else {
        var rest := a[1..];
        BodyWithoutQuotes(rest);
        assert a == [a[0]] + rest;
        SamePrefix([a[0]], Body(rest, true), rest);
        if rest != "" { assert rest[|rest| - 1] == a[|a| - 1]; }
      }
    }
  }

  lemma SamePrefix(p: string, x: string, y: string)
    ensures p + x == p + y <==> x == y
  {
    if p + x == p + y {
      assert x == (p + x)[|p|..] == (p + y)[|p|..] == y;
    }
  }

  /** The first token of a quoted argument. */
  lemma QuotedToken(a: string, x: string)
    requires NeedsQuotes(a) && ArgEnds(x)
    ensures var s := EncodeArg(a) + x;
            SkipSpaces(s) == s && s[0] == '"'
            && ToQuote(s[1..]) == (if '"' in a then ToQuote(Body(a, true)) else Body(a, true))
            && ('"' !in a ==> Behind(s[1..], |Body(a, true)|) == x)
  {
    var s, b := EncodeArg(a) + x, Body(a, true);
    ConcatAssoc(['"'], b, ['"']);
    ConcatAssoc(['"'], b + ['"'], x);
    ConcatAssoc(b, ['"'], x);
    assert s == ['"'] + (b + (['"'] + x));
    assert s[1..] == b + (['"'] + x);
    if '"' in a {
      BodyHasQuote(a);
      ToQuotePrefix(b, ['"'] + x);
    } else {
      BodyWithoutQuotes(a);
      ToQuoteOf(b, x);
    }
  }

  lemma {:induction false} BodyHasQuote(a: string)
    requires '"' in a
    ensures '"' in Body(a, true)
    decreases |a|
  {
    if a[0] == '\\' {
      var n := Run(a);
      SplitRun(a);
      if a[n] != '"' { BodyHasQuote(a[n..]); }
    } else if a[0] != '"' {
      BodyHasQuote(a[1..]);
    }
  }

  lemma {:induction false} ToQuoteHasNone(s: string)
    ensures '"' !in ToQuote(s)
  {
    if s != "" { ToQuoteHasNone(s[1..]); }
  }

  lemma {:induction false} ToQuotePrefix(b: string, x: string)
    requires '"' in b
    ensures ToQuote(b + x) == ToQuote(b)
  {
    assert (b + x)[1..] == b[1..] + x;
    if b[0] != '"' { ToQuotePrefix(b[1..], x); }
  }

  /** What is left behind a printed argument. */
  function Rest(x: string): string { if x == "" then "" else x[1..] }

  lemma FirstQuoted(a: string, x: string, max: nat)
    requires ArgEnds(x) && max > 0 && NeedsQuotes(a)
    ensures |Tokens(EncodeArg(a) + x, max)| > 0
    ensures Tokens(EncodeArg(a) + x, max)[0] == a <==> Survives(a)
    ensures Survives(a) ==> Tokens(EncodeArg(a) + x, max) == [a] + Tokens(x, max - 1)
  {
    var s := EncodeArg(a) + x;
    QuotedToken(a, x);
    assert (var t := ToQuote(s[1..]); Tokens(s, max) == [t] + Tokens(Behind(s[1..], |t|), max - 1));
    if '"' !in a { BodyWithoutQuotes(a); } else { ToQuoteHasNone(Body(a, true)); }
  }

  lemma FirstBare(a: string, x: string, max: nat)
    requires ArgEnds(x) && max > 0 && !NeedsQuotes(a)
    ensures Survives(a) && Tokens(EncodeArg(a) + x, max) == [a] + Tokens(Rest(x), max - 1)
  {
    var s := EncodeArg(a) + x;
    BareBody(a);
    ToSpaceOf(a, x);
    assert s[0] == a[0] && !Separates(a[0]);
    assert (var t := ToSpace(s); Tokens(s, max) == [t] + Tokens(Behind(s, |t|), max - 1));
  }

  /** The first token of a printed argument is the argument exactly when it
      survives, and then the rest of the tokens are those of what follows. */
  lemma FirstToken(a: string, x: string, max: nat)
    requires ArgEnds(x) && max > 0
    ensures |Tokens(EncodeArg(a) + x, max)| > 0
    ensures Tokens(EncodeArg(a) + x, max)[0] == a <==> Survives(a)
    ensures Survives(a) ==> Tokens(EncodeArg(a) + x, max) == [a] + Tokens(Rest(x), max - 1)
  {
    if NeedsQuotes(a) {
      FirstQuoted(a, x, max);
      assert Tokens(x, max - 1) == Tokens(Rest(x), max - 1);
    } else {
      FirstBare(a, x, max);
    }
  }

  predicate AllSurvive(args: seq<string>) {
    forall i :: 0 <= i < |args| ==> Survives(args[i])
  }

  /** The tokens give the first argument back if and only if it survives, and then
      go on with these. */
  predicate FirstBack(tokens: seq<string>, arg: string, more: seq<string>) {
    && |tokens| > 0 && (tokens[0] == arg <==> Survives(arg))
    && (Survives(arg) ==> tokens == [arg] + more)
  }

  /** The first step of a way to print and split. */
  ghost predicate TakesFirst(split: (seq<string>, nat) -> seq<string>, args: seq<string>, max: nat) {
    |args| > 0 && max > 0 ==> FirstBack(split(args, max), args[0], split(args[1..], max - 1))
  }

  function SplitPrinted(args: seq<string>, max: nat): seq<string> {
    Tokens(Print(args), max)
  }

  lemma FirstPrinted(args: seq<string>, max: nat)
    requires |args| > 0 && max > 0
    ensures FirstBack(SplitPrinted(args, max), args[0], SplitPrinted(args[1..], max - 1))
  {
    assert Print(args) == EncodeArg(args[0]) + After(args[1..]);
    assert ArgEnds(After(args[1..])) && Rest(After(args[1..])) == Print(args[1..]);
    FirstToken(args[0], After(args[1..]), max);
  }

  lemma FirstAndRest(args: seq<string>)
    requires |args| > 0
    ensures args == [args[0]] + args[1..]
  {
  }

  /** Whatever takes its steps in this way gives a list back exactly when there is
      room for it and each argument survives. */
  lemma {:induction false} GivesBackIff(split: (seq<string>, nat) -> seq<string>, args: seq<string>, max: nat)
    requires forall list, m :: TakesFirst(split, list, m)
    requires forall list, m :: |split(list, m)| <= m && (list == [] ==> split(list, m) == [])
    ensures split(args, max) == args <==> |args| <= max && AllSurvive(args)
    decreases |args|
  {
    if |args| > 0 && max > 0 {
      assert TakesFirst(split, args, max);
      assert AllSurvive(args) <==> Survives(args[0]) && AllSurvive(args[1..]) by {
        assert forall i :: 1 <= i < |args| ==> args[i] == args[1..][i - 1];
      }
      FirstAndRest(args);
      GivesBackIff(split, args[1..], max - 1);
      DropPrefix([args[0]], split(args[1..], max - 1));
    }
  }

  /** Splitting undoes printing exactly when there is room for the arguments and
      each of them survives. */
  lemma SplitUndoesPrint(args: seq<string>, max: nat)
    ensures Tokens(Print(args), max) == args <==> |args| <= max && AllSurvive(args)
  {
    forall list, m
      ensures TakesFirst(SplitPrinted, list, m)
    {
      assert TakesFirst(SplitPrinted, list, m) by {
        if |list| > 0 && m > 0 { FirstPrinted(list, m); }
      }
    }
    forall list, m
      ensures |SplitPrinted(list, m)| <= m && (list == [] ==> SplitPrinted(list, m) == [])
    {
      assert |SplitPrinted(list, m)| <= m && (list == [] ==> SplitPrinted(list, m) == []);
    }
    GivesBackIff(SplitPrinted, args, max);
  }

  // ---- the tokenizer in place ----

  /** The text of a NUL-terminated buffer. */
  function Text(s: string): (t: string)
    ensures t <= s && '\0' !in t && (|t| < |s| ==> s[|t|] == '\0')
  {
    if s == "" || s[0] == '\0' then "" else [s[0]] + Text(s[1..])
  }

  lemma {:induction false} TextEnds(s: string)
    requires '\0' in s
    ensures |Text(s)| < |s|
  {
    if s[0] != '\0' { TextEnds(s[1..]); }
  }

  /** The token t stands at index p of the buffer, with a NUL behind it. */
  ghost predicate TokenAt(s: string, p: int, t: string) {
    0 <= p && p + |t| < |s| && s[p..p + |t|] == t && s[p + |t|] == '\0'
  }

  /** Passes over spaces and tabs; n is the index of the NUL. */
  method SkipBlanks(cmd: array<char>, p: nat, ghost n: nat) returns (q: nat)
    requires p <= n < cmd.Length && cmd[n] == '\0'
    ensures p <= q <= n && cmd[q..n] == SkipSpaces(cmd[p..n])
  {
    q := p;
    while Separates(cmd[q])
      invariant p <= q <= n
      invariant SkipSpaces(cmd[q..n]) == SkipSpaces(cmd[p..n])
      decreases n - q
    {
      assert cmd[q..n][1..] == cmd[q + 1..n];
      q := q + 1;
    }
  }

  /** The front of s that a token takes, quoted or not. */
  function Token(s: string, quoted: bool): (t: string)
    ensures |t| <= |s|
  {
    if quoted then ToQuote(s) else ToSpace(s)
  }

  predicate EndsToken(c: char, quoted: bool) {
    if quoted then c == '"' else Separates(c)
  }

  lemma {:induction false} TokenIs(s: string, k: nat, quoted: bool)
    requires k <= |s| && (forall i :: 0 <= i < k ==> !EndsToken(s[i], quoted))
    requires k < |s| ==> EndsToken(s[k], quoted)
    ensures Token(s, quoted) == s[..k]
    decreases k
  {
    if k > 0 {
      assert !EndsToken(s[0], quoted);
      TokenIs(s[1..], k - 1, quoted);
      assert s[..k] == [s[0]] + s[1..][..k - 1];
    }
  }

  /** Passes over a token: to a quote, or to a space or tab. */
  method ScanToken(cmd: array<char>, p: nat, ghost n: nat, quoted: bool) returns (q: nat)
    requires p <= n < cmd.Length && cmd[n] == '\0' && '\0' !in cmd[p..n]
    ensures p <= q <= n && cmd[p..q] == Token(cmd[p..n], quoted)
    ensures q < n ==> cmd[q] != '\0'
  {
    q := p;
    while cmd[q] != '\0' && !EndsToken(cmd[q], quoted)
      invariant p <= q <= n
      invariant forall k :: p <= k < q ==> !EndsToken(cmd[k], quoted)
      decreases n - q
    {
      q := q + 1;
    }
    ghost var s := cmd[p..n];
    assert q < n ==> cmd[q] == s[q - p];
    TokenIs(s, q - p, quoted);
  }

  /** The first token of a text that starts with one. */
  lemma TokensFirst(s: string, body: string, max: nat)
    requires s != "" && !Separates(s[0]) && max > 0
    requires body == if s[0] == '"' then s[1..] else s
    ensures var t := Token(body, s[0] == '"');
            Tokens(s, max) == [t] + Tokens(Behind(body, |t|), max - 1)
  {
  }

  /** The tokens found so far: where they stand, in order and apart. */
  ghost predicate Found(cmd: string, argv: seq<int>, tokens: seq<string>, p: nat, n: nat) {
    && |tokens| <= |argv|
    && (forall i :: 0 <= i < |tokens| ==> TokenAt(cmd, argv[i], tokens[i]))
    && (forall i :: 0 <= i < |tokens| ==> argv[i] + |tokens[i]| < p || argv[i] + |tokens[i]| == p == n)
    && (forall i, j :: 0 <= i < j < |tokens| ==> argv[i] + |tokens[i]| < argv[j])
  }

  /** Ends a token by a NUL, if it is not the last of the text, and records it. */
  lemma FoundMore(cmd: string, cmd': string, argv: seq<int>, argv': seq<int>, tokens: seq<string>,
                  p: nat, start: nat, token: string, n: nat, p': nat)
    requires |cmd| == |cmd'| && |argv| == |argv'| && |tokens| < |argv| && Found(cmd, argv, tokens, p, n)
    requires p <= start && p < n && start + |token| <= n < |cmd|
    requires forall k :: 0 <= k < |cmd| && k != start + |token| ==> cmd'[k] == cmd[k]
    requires cmd[start..start + |token|] == token && cmd'[start + |token|] == '\0'
    requires argv' == argv[|tokens| := start]
    requires p' == if start + |token| < n then start + |token| + 1 else n
    ensures Found(cmd', argv', tokens + [token], p', n)
  {
    var all := tokens + [token];
    forall i | 0 <= i < |all|
      ensures TokenAt(cmd', argv'[i], all[i])
    {
      if i < |tokens| {
        assert TokenAt(cmd, argv[i], tokens[i]);
        assert cmd'[argv[i]..argv[i] + |tokens[i]|] == cmd[argv[i]..argv[i] + |tokens[i]|];
      } else {
        assert cmd'[start..start + |token|] == cmd[start..start + |token|];
      }
    }
  }

  /** Ends the token between start and end by a NUL and records its start. */
  method MarkToken(cmd: array<char>, argv: array<int>, argc: nat, start: nat, end: nat, ghost p: nat, ghost n: nat,
                   ghost tokens: seq<string>)
    returns (next: nat)
    requires p <= start <= end <= n < cmd.Length && p < n && cmd[n] == '\0' && (end < n ==> cmd[end] != '\0')
    requires argc == |tokens| < argv.Length && Found(cmd[..], argv[..], tokens, p, n)
    modifies cmd, argv
    ensures next == (if end < n then end + 1 else n) && cmd[n] == '\0' && cmd[next..n] == old(cmd[next..n])
    ensures Found(cmd[..], argv[..], tokens + [old(cmd[start..end])], next, n)
  {
    ghost var before, where, token := cmd[..], argv[..], cmd[start..end];
    next := end;
    if cmd[end] != '\0' {
      cmd[end] := '\0';
      next := end + 1;
    }
    argv[argc] := start;
    assert argv[..] == where[argc := start];
    FoundMore(before, cmd[..], where, argv[..], tokens, p, start, token, n, next);
  }

  /** Takes the token at p0, where a character other than a blank stands: finds
      its end, writes the NUL and records its start. */
  method TakeToken(cmd: array<char>, argv: array<int>, argc: nat, p0: nat, ghost p: nat, ghost n: nat,
                   ghost tokens: seq<string>, ghost s: string)
    returns (next: nat, ghost token: string)
    requires p <= p0 < n < cmd.Length && cmd[n] == '\0' && s == cmd[p0..n] && '\0' !in s && !Separates(s[0])
    requires argc == |tokens| < argv.Length && Found(cmd[..], argv[..], tokens, p, n)
    modifies cmd, argv
    ensures p0 < next <= n && cmd[n] == '\0' && cmd[next..n] == s[next - p0..]
    ensures Found(cmd[..], argv[..], tokens + [token], next, n)
    ensures FirstTokenOf(s, token, next - p0)
  {
    var quoted := cmd[p0] == '"';
    var start := if quoted then p0 + 1 else p0;
    ghost var body := cmd[start..n];
    assert body == if quoted then s[1..] else s;
    var end := ScanToken(cmd, start, n, quoted);
    token := cmd[start..end];
    assert !quoted ==> Token(body, false) != "";
    next := MarkToken(cmd, argv, argc, start, end, p, n, tokens);
    assert cmd[next..n] == s[next - p0..];
  }

  /** The token at the front of s takes k characters, with what ends it. */
  ghost predicate FirstTokenOf(s: string, token: string, k: nat) {
    && k <= |s| && s != "" && !Separates(s[0])
    && var quoted := s[0] == '"';
       var skipped := if quoted then 1 else 0;
       var end := skipped + |token|;
       token == Token(s[skipped..], quoted) && k == if end < |s| then end + 1 else end
  }

  /** What the loop keeps: the tokens found so far and those of the text ahead
      are all the tokens. */
  ghost predicate Split(all: seq<string>, tokens: seq<string>, s: string, max: nat) {
    all == tokens + Tokens(s, max)
  }

  lemma Advance(all: seq<string>, tokens: seq<string>, s: string, token: string, s': string, max: nat)
    requires Split(all, tokens, s, max) && Follows(s, token, s') && max > 0
    ensures Split(all, tokens + [token], s', max - 1)
  {
    var t := SkipSpaces(s);
    assert Tokens(s, max) == [token] + Tokens(t[|t| - |s'|..], max - 1) by {
      assert SkipSpaces(t) == t;
      assert Tokens(t, max) == [token] + Tokens(t[|t| - |s'|..], max - 1) by {
        var quoted := t[0] == '"';
        var body := if quoted then t[1..] else t;
        assert t[0..] == t;
        TokensFirst(t, body, max);
        if |token| < |body| {
          assert body[|token| + 1..] == t[|t| - |s'|..];
        } else {
          assert t[|t| - |s'|..] == "";
        }
      }
    }
    ConcatAssoc(tokens, [token], Tokens(s', max - 1));
  }

  lemma SplitDone(all: seq<string>, tokens: seq<string>, s: string, max: nat)
    requires Split(all, tokens, s, max) && (max == 0 || SkipSpaces(s) == "")
    ensures all == tokens
  {
  }

  /** Splits cmd in place. The tokens are those of the text, each NUL-terminated
      where it stood, in order and without overlap; argv gets their indices and a
      closing null, written -1 here. */
  method SplitCmdline(cmd: array?<char>, argv: array?<int>, argvCap: nat) returns (argc: nat)
    requires argv != null ==> argvCap <= argv.Length
    requires cmd != null ==> '\0' in cmd[..]
    modifies cmd, argv
    ensures cmd == null || argv == null || argvCap == 0 ==> argc == 0
    ensures cmd != null && argv != null && argvCap > 0 ==>
              var n, tokens := |Text(old(cmd[..]))|, Tokens(Text(old(cmd[..])), argvCap - 1);
              Found(cmd[..], argv[..], tokens, n, n) && argc == |tokens| < argvCap && argv[argc] == -1
  {
    if cmd == null || argv == null || argvCap == 0 { return 0; }
    ghost var text := Text(cmd[..]);
    ghost var all := Tokens(text, argvCap - 1);
    ScanStart(cmd[..], argv[..], argvCap - 1);
    argc := SplitText(cmd, argv, argvCap, text, all);
    CloseArgv(cmd, argv, argc, all, |text|);
  }

  /** Writes the closing null. */
  method CloseArgv(cmd: array<char>, argv: array<int>, argc: nat, ghost tokens: seq<string>, ghost n: nat)
    requires argc == |tokens| < argv.Length && Found(cmd[..], argv[..], tokens, n, n)
    modifies argv
    ensures Found(cmd[..], argv[..], tokens, n, n) && argv[argc] == -1
  {
    argv[argc] := -1;
  }

  lemma ScanStart(cmd: string, argv: seq<int>, max: nat)
    requires '\0' in cmd
    ensures Scan(cmd, argv, Tokens(Text(cmd), max), [], 0, |Text(cmd)|, Text(cmd), max)
  {
    TextEnds(cmd);
    assert cmd[0..|Text(cmd)|] == Text(cmd);
    ConcatEmpty(Tokens(Text(cmd), max));
  }

  /** Behind the first token of s, s' is left. */
  ghost predicate Follows(s: string, token: string, s': string) {
    var t := SkipSpaces(s);
    |s'| <= |t| && FirstTokenOf(t, token, |t| - |s'|) && s' == t[|t| - |s'|..]
  }

  /** The text ahead of the loop, between p and the NUL at n. */
  ghost predicate Ahead(cmd: string, p: nat, n: nat, s: string) {
    p <= n < |cmd| && cmd[n] == '\0' && s == cmd[p..n] && '\0' !in s
  }

  lemma AheadLater(cmd: string, p: nat, n: nat, s: string, q: nat)
    requires Ahead(cmd, p, n, s) && p <= q <= n
    ensures Ahead(cmd, q, n, cmd[q..n]) && (cmd[q] == '\0' <==> q == n)
  {
    assert cmd[q..n] == s[q - p..];
    if q < n { assert cmd[q] == s[q - p]; }
  }

  /** One round of the loop: passes over blanks and takes a token, if there is
      one. */
  method NextToken(cmd: array<char>, argv: array<int>, argc: nat, p: nat, ghost n: nat, ghost tokens: seq<string>,
                   ghost s: string)
    returns (found: bool, next: nat, ghost token: string, ghost s': string)
    requires Ahead(cmd[..], p, n, s)
    requires argc == |tokens| < argv.Length && Found(cmd[..], argv[..], tokens, p, n)
    modifies cmd, argv
    ensures found ==> Ahead(cmd[..], next, n, s') && Found(cmd[..], argv[..], tokens + [token], next, n)
    ensures found ==> Follows(s, token, s')
    ensures !found ==> SkipSpaces(s) == "" && Found(cmd[..], argv[..], tokens, p, n)
  {
    ghost var t := SkipSpaces(s);
    var q := SkipBlanks(cmd, p, n);
    AheadLater(cmd[..], p, n, s, q);
    token, s' := "", "";
    found, next := cmd[q] != '\0', q;
    if found {
      next, token := TakeToken(cmd, argv, argc, q, p, n, tokens, t);
      s' := t[next - q..];
      assert Follows(s, token, t[next - q..]);
    }
  }

  /** Where the loop stands: the tokens found, and the text ahead. */
  ghost predicate Scan(cmd: string, argv: seq<int>, all: seq<string>, tokens: seq<string>, p: nat, n: nat, s: string,
                       max: nat)
  {
    Ahead(cmd, p, n, s) && Found(cmd, argv, tokens, p, n) && Split(all, tokens, s, max)
  }

  /** One round, with what it means for the tokens of the whole text. */
  method Round(cmd: array<char>, argv: array<int>, argc: nat, p: nat, ghost n: nat, ghost all: seq<string>,
               ghost tokens: seq<string>, ghost s: string, ghost left: nat)
    returns (found: bool, next: nat, ghost token: string, ghost s': string)
    requires argc == |tokens| < argv.Length && left > 0 && Scan(cmd[..], argv[..], all, tokens, p, n, s, left)
    modifies cmd, argv
    ensures found ==> Scan(cmd[..], argv[..], all, tokens + [token], next, n, s', left - 1)
    ensures !found ==> tokens == all && Found(cmd[..], argv[..], tokens, n, n)
  {
    found, next, token, s' := NextToken(cmd, argv, argc, p, n, tokens, s);
    if found {
      Advance(all, tokens, s, token, s', left);
    } else {
      SplitDone(all, tokens, s, left);
      FoundAtEnd(cmd[..], argv[..], tokens, p, n);
    }
  }

  lemma ScanDone(cmd: string, argv: seq<int>, all: seq<string>, tokens: seq<string>, p: nat, n: nat, s: string)
    requires Scan(cmd, argv, all, tokens, p, n, s, 0)
    ensures tokens == all && Found(cmd, argv, tokens, n, n)
  {
    FoundAtEnd(cmd, argv, tokens, p, n);
  }

  /** The loop of the tokenizer; all are the tokens of the text. */
  method SplitText(cmd: array<char>, argv: array<int>, argvCap: nat, ghost text: string, ghost all: seq<string>)
    returns (argc: nat)
    requires 0 < argvCap <= argv.Length && Scan(cmd[..], argv[..], all, [], 0, |text|, text, argvCap - 1)
    modifies cmd, argv
    ensures argc == |all| < argvCap && Found(cmd[..], argv[..], all, |text|, |text|)
  {
    ghost var n, s, tokens: seq<string>, left: nat := |text|, text, [], argvCap - 1;
    argc := 0;
    var p: nat := 0;
    while argc + 1 < argvCap
      invariant argc == |tokens| < argvCap && left == argvCap - 1 - argc
      invariant Scan(cmd[..], argv[..], all, tokens, p, n, s, left)
      decreases argvCap - argc
    {
      ghost var token, s';
      var found, next;
      found, next, token, s' := Round(cmd, argv, argc, p, n, all, tokens, s, left);
      if !found {
        return;
      }
      p, s, tokens, left := next, s', tokens + [token], left - 1;
      argc := argc + 1;
    }
    ScanDone(cmd[..], argv[..], all, tokens, p, n, s);
  }

  lemma FoundAtEnd(cmd: string, argv: seq<int>, tokens: seq<string>, p: nat, n: nat)
    requires Found(cmd, argv, tokens, p, n) && p <= n
    ensures Found(cmd, argv, tokens, n, n)
  {
  }
}
