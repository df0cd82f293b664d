/** Printing an argument list as a Windows command line, and reading it back by
    the rules of the Microsoft C runtime. */
module Cmdline {
  import opened Bytes

  predicate IsSpace(c: char) { c == ' ' || c == '\t' }

  predicate HasSpace(a: string) {
    exists i :: 0 <= i < |a| && IsSpace(a[i])
  }

  predicate NeedsQuotes(a: string) {
    a == "" || HasSpace(a) || '"' in a
  }

  /** n backslashes. */
  function Slashes(n: nat): string { seq(n, _ => '\\') }

  /** The number of backslashes at the front of s. */
  function Run(s: string): (n: nat)
    ensures n <= |s| && s[..n] == Slashes(n)
    ensures n < |s| ==> s[n] != '\\'
  {
    if s == "" || s[0] != '\\' then 0 else 1 + Run(s[1..])
  }

  /** What the printer emits for an argument, or for the rest of one, between
      the quotes if it has any. */
  function Body(s: string, quoted: bool): string
    decreases |s|
  {
    if s == "" then ""
    else if s[0] == '\\' then
      var bs := Run(s);
      var rest := s[bs..];
      if rest == "" then Slashes(if quoted then 2 * bs else bs)
      else if rest[0] == '"' then Slashes(2 * bs) + ['\\', '"'] + Body(rest[1..], quoted)
      else Slashes(bs) + Body(rest, quoted)
    else if s[0] == '"' then ['\\', '"'] + Body(s[1..], quoted)
    else [s[0]] + Body(s[1..], quoted)
  }

  function EncodeArg(a: string): string {
    if NeedsQuotes(a) then ['"'] + Body(a, true) + ['"'] else Body(a, false)
  }

  /** The command line of an argument list. */
  function Print(args: seq<string>): string
    decreases |args|, 0
  {
    if |args| == 0 then ""
    else EncodeArg(args[0]) + After(args[1..])
  }

  /** What follows an argument on the command line. */
  function After(args: seq<string>): string
    decreases |args|, 1
  {
    if |args| == 0 then "" else [' '] + Print(args)
  }

  // ---- the reader of the Microsoft rules ----

  /** What separates arguments for a reader. */
  predicate Separates(c: char) { c == ' ' || c == '\t' }

  /** The text from its first character on that is neither a space nor a tab. */
  function SkipSpaces(s: string): (t: string)
    ensures |t| <= |s| && (t != "" ==> !Separates(t[0]))
  {
    if s != "" && Separates(s[0]) then SkipSpaces(s[1..]) else s
  }

  /** Reads the rest of one argument; the result is the characters read and the
      text that follows. N backslashes before a quote give N / 2 backslashes; an
      odd N makes the quote a character, an even one makes it a delimiter. Other
      backslashes stand for themselves. With pairs set, two quotes inside a
      quoted part are one quote character, as in later runtimes. */
  function ReadArg(s: string, inQuotes: bool, pairs: bool): (r: (string, string))
    ensures |r.1| <= |s|
    decreases |s|
  {
    if s == "" || (Separates(s[0]) && !inQuotes) then ("", s)
    else
      var n := Run(s);
      if n < |s| && s[n] == '"' then
        if n % 2 == 1 then
          var r := ReadArg(s[n + 1..], inQuotes, pairs);
          (Slashes(n / 2) + ['"'] + r.0, r.1)
        else if inQuotes && pairs && n + 1 < |s| && s[n + 1] == '"' then
          var r := ReadArg(s[n + 2..], inQuotes, pairs);
          (Slashes(n / 2) + ['"'] + r.0, r.1)
        else
          var r := ReadArg(s[n + 1..], !inQuotes, pairs);
          (Slashes(n / 2) + r.0, r.1)
      else if n > 0 then
        var r := ReadArg(s[n..], inQuotes, pairs);
        (Slashes(n) + r.0, r.1)
      else
        var r := ReadArg(s[1..], inQuotes, pairs);
        ([s[0]] + r.0, r.1)
  }

  /** Reads a whole command line. */
  function ReadArgs(s: string, pairs: bool): seq<string>
    decreases |s|
  {
    var t := SkipSpaces(s);
    if t == "" then []
    else
      var r := ReadArg(t, false, pairs);
      assert |ReadArg(t, false, pairs).1| < |t|;
      [r.0] + ReadArgs(r.1, pairs)
  }

  // ---- the round trip ----

  /** An argument ends here: at the end of the text or at a space. */
  predicate ArgEnds(t: string) {
    t == "" || t[0] == ' '
  }

  lemma {:induction false} RunOf(n: nat, x: string)
    requires x == "" || x[0] != '\\'
    ensures Run(Slashes(n) + x) == n && (Slashes(n) + x)[n..] == x
  {
    var s := Slashes(n) + x;
    if n > 0 {
      assert s[1..] == Slashes(n - 1) + x;
      RunOf(n - 1, x);
    } else {
      assert s == x;
    }
  }

  /** Reading literal backslashes. */
  lemma ReadSlashes(n: nat, x: string, inQuotes: bool, pairs: bool)
    requires n > 0 && (x == "" || (x[0] != '\\' && x[0] != '"'))
    ensures var r := ReadArg(x, inQuotes, pairs);
            ReadArg(Slashes(n) + x, inQuotes, pairs) == (Slashes(n) + r.0, r.1)
  {
    RunOf(n, x);
  }

  /** The text after a run of backslashes and a quote. */
  lemma QuoteAfterRun(n: nat, x: string)
    ensures var s := Slashes(n) + (['"'] + x);
            Run(s) == n && |s| > n && s[n] == '"' && s[n + 1..] == x
  {
    RunOf(n, ['"'] + x);
    var s := Slashes(n) + (['"'] + x);
    assert s[n..] == ['"'] + x;
    assert s[n + 1..] == s[n..][1..] == x;
  }

  /** Reading 2n + 1 backslashes and a quote: n backslashes and a quote. */
  lemma ReadEscapedQuote(n: nat, x: string, inQuotes: bool, pairs: bool)
    ensures var r := ReadArg(x, inQuotes, pairs);
            ReadArg(Slashes(2 * n + 1) + (['"'] + x), inQuotes, pairs) == (Slashes(n) + ['"'] + r.0, r.1)
  {
    QuoteAfterRun(2 * n + 1, x);
    assert (2 * n + 1) / 2 == n && (2 * n + 1) % 2 == 1;
  }

  /** With pairs, reading 2n backslashes and two quotes inside a quoted part: n
      backslashes and a quote, and the part goes on. */
  lemma ReadPair(n: nat, x: string)
    ensures var r := ReadArg(x, true, true);
            ReadArg(Slashes(2 * n) + (['"'] + (['"'] + x)), true, true) == (Slashes(n) + ['"'] + r.0, r.1)
  {
    TwoQuotes(2 * n, x);
    ReadPairAt(Slashes(2 * n) + (['"'] + (['"'] + x)), n, x);
  }

  lemma TwoQuotes(n: nat, x: string)
    ensures var s := Slashes(n) + (['"'] + (['"'] + x));
            Run(s) == n && n + 1 < |s| && s[n] == '"' && s[n + 1] == '"' && s[n + 2..] == x
  {
    var s := Slashes(n) + (['"'] + (['"'] + x));
    QuoteAfterRun(n, ['"'] + x);
    assert s[n + 2..] == s[n + 1..][1..];
  }

  lemma ReadPairAt(s: string, n: nat, x: string)
    requires Run(s) == 2 * n && 2 * n + 1 < |s| && s[2 * n] == '"' && s[2 * n + 1] == '"' && s[2 * n + 2..] == x
    ensures var r := ReadArg(x, true, true); ReadArg(s, true, true) == (Slashes(n) + ['"'] + r.0, r.1)
  {
    assert (2 * n) / 2 == n && (2 * n) % 2 == 0;
  }

  /** A backslash run at the front of an argument. */
  lemma SplitRun(a: string)
    ensures a == Slashes(Run(a)) + a[Run(a)..]
  {
    Rejoin(a, Run(a));
  }

  /** This text and a closing quote are read back as the argument. */
  predicate ReadsAs(printed: string, a: string, t: string, pairs: bool) {
    ReadArg(printed + (['"'] + t), true, pairs) == (a, t)
  }

  /** An escaped quote in the printed text. */
  lemma EscapedBody(n: nat, b: string, end: string)
    ensures (Slashes(2 * n) + ['\\', '"'] + b) + end == Slashes(2 * n + 1) + (['"'] + (b + end))
  {
    assert Slashes(2 * n) + ['\\', '"'] == Slashes(2 * n + 1) + ['"'];
    ConcatAssoc(Slashes(2 * n + 1), ['"'], b);
    ConcatAssoc(Slashes(2 * n + 1), ['"'] + b, end);
    ConcatAssoc(['"'], b, end);
  }

  /** n backslashes and a quote, then an argument already known to be read back. */
  lemma QuotedEscape(n: nat, tail: string, b: string, t: string, pairs: bool)
    requires ReadsAs(b, tail, t, pairs)
    ensures ReadsAs(Slashes(2 * n) + ['\\', '"'] + b, Slashes(n) + (['"'] + tail), t, pairs)
  {
    EscapedBody(n, b, ['"'] + t);
    ReadEscapedQuote(n, b + (['"'] + t), true, pairs);
    ConcatAssoc(Slashes(n), ['"'], tail);
  }

  lemma QuotedPlain(c: char, tail: string, b: string, t: string, pairs: bool)
    requires c != '\\' && c != '"' && ReadsAs(b, tail, t, pairs)
    ensures ReadsAs([c] + b, [c] + tail, t, pairs)
  {
    ConcatAssoc([c], b, ['"'] + t);
    ReadPlain(c, b + (['"'] + t), true, pairs);
  }

  lemma QuotedEnd(n: nat, t: string, pairs: bool)
    requires ArgEnds(t)
    ensures ReadsAs(Slashes(2 * n), Slashes(n), t, pairs)
  {
    assert ReadArg(Slashes(2 * n) + (['"'] + t), true, pairs) == (Slashes(n), t) by {
      QuoteAfterRun(2 * n, t);
      assert (2 * n) / 2 == n && (2 * n) % 2 == 0;
      assert ReadArg(t, false, pairs) == ("", t);
      assert Slashes(n) + "" == Slashes(n);
    }
  }

  /** Reading back a quoted argument. */
  lemma {:induction false} ReadQuoted(a: string, t: string, pairs: bool)
    requires ArgEnds(t)
    ensures ReadsAs(Body(a, true), a, t, pairs)
    decreases |a|
  {
    if a == "" {
      QuotedEnd(0, t, pairs);
      assert Slashes(2 * 0) == "";
    } else if a[0] == '\\' {
      ReadQuotedRun(a, t, pairs);
    } else if a[0] == '"' {
      ReadQuoted(a[1..], t, pairs);
      QuotedEscape(0, a[1..], Body(a[1..], true), t, pairs);
      assert Slashes(2 * 0) + ['\\', '"'] == ['\\', '"'];
      assert a == Slashes(0) + (['"'] + a[1..]);
    } else {
      ReadQuoted(a[1..], t, pairs);
      QuotedPlain(a[0], a[1..], Body(a[1..], true), t, pairs);
      assert a == [a[0]] + a[1..];
    }
  }

  /** How the printer writes a run of backslashes in a quoted argument. */
  lemma RunBody(a: string, n: nat, rest: string)
    requires a != "" && a[0] == '\\' && n == Run(a) && rest == a[n..]
    ensures n > 0 && (rest != "" ==> rest[0] != '\\')
    ensures Body(a, true) ==
            if rest == "" then Slashes(2 * n)
            else if rest[0] == '"' then Slashes(2 * n) + ['\\', '"'] + Body(rest[1..], true)
            else Slashes(n) + Body(rest, true)
  {
  }

  lemma {:induction false} ReadQuotedRun(a: string, t: string, pairs: bool)
    requires ArgEnds(t) && a != "" && a[0] == '\\'
    ensures ReadsAs(Body(a, true), a, t, pairs)
    decreases |a|, 0
  {
    var n := Run(a);
    var rest := a[n..];
    SplitRun(a);
    RunBody(a, n, rest);
    if rest == "" {
      QuotedEnd(n, t, pairs);
      ConcatEmpty(Slashes(n));
    } else if rest[0] == '"' {
      ReadQuoted(rest[1..], t, pairs);
      QuotedEscape(n, rest[1..], Body(rest[1..], true), t, pairs);
      assert rest == ['"'] + rest[1..];
    } else {
      assert Body(rest, true) != "" && Body(rest, true)[0] == rest[0];
      ReadQuoted(rest, t, pairs);
      assert ReadsAs(Slashes(n) + Body(rest, true), Slashes(n) + rest, t, pairs) by {
        ConcatAssoc(Slashes(n), Body(rest, true), ['"'] + t);
        ReadSlashes(n, Body(rest, true) + (['"'] + t), true, pairs);
      }
    }
  }

  /** Reading an ordinary character. */
  lemma ReadPlain(c: char, x: string, inQuotes: bool, pairs: bool)
    requires c != '\\' && c != '"' && (inQuotes || !Separates(c))
    ensures var r := ReadArg(x, inQuotes, pairs);
            ReadArg([c] + x, inQuotes, pairs) == ([c] + r.0, r.1)
  {
    assert ([c] + x)[1..] == x;
  }

  /** An argument printed without quotes is printed as it is. */
  lemma {:induction false} BareBody(a: string)
    requires '"' !in a
    ensures Body(a, false) == a
    decreases |a|
  {
    if a != "" {
      if a[0] == '\\' {
        var n := Run(a);
        SplitRun(a);
        if a[n..] != "" { BareBody(a[n..]); }
      } else {
        BareBody(a[1..]);
        assert a == [a[0]] + a[1..];
      }
    }
  }

  lemma {:induction false} BodyLength(a: string, quoted: bool)
    ensures |Body(a, quoted)| >= |a|
    decreases |a|
  {
    if a != "" {
      if a[0] == '\\' {
        var rest := a[Run(a)..];
        if rest != "" { if rest[0] == '"' { BodyLength(rest[1..], quoted); } else { BodyLength(rest, quoted); } }
      } else {
        BodyLength(a[1..], quoted);
      }
    }
  }

  /** Which arguments are printed bare: those that are not empty and have no space,
      no tab and no quote, and they are printed as they are. All others stand
      between quotes. */
  lemma BareIff(a: string)
    ensures EncodeArg(a) == a <==> a != "" && ' ' !in a && '\t' !in a && '"' !in a
    ensures EncodeArg(a) != a ==> |EncodeArg(a)| >= |a| + 2 && EncodeArg(a)[0] == '"'
                                  && EncodeArg(a)[|EncodeArg(a)| - 1] == '"'
  {
    assert HasSpace(a) <==> ' ' in a || '\t' in a;
    if NeedsQuotes(a) { BodyLength(a, true); } else { BareBody(a); }
  }

  /** The text starts with a backslash, and its first character that is none is a
      quote, or there is none. */
  ghost predicate SlashesBeforeQuote(s: string) {
    exists n :: 0 < n <= |s| && s[..n] == Slashes(n) && (n == |s| || s[n] == '"')
  }

  /** The rule of the printer inside quotes, character by character: a quote gets a
      backslash, and so does every backslash of a run before a quote or at the end. */
  ghost function Escaped(s: string): string {
    if s == "" then ""
    else (if s[0] == '"' || SlashesBeforeQuote(s) then ['\\', s[0]] else [s[0]]) + Escaped(s[1..])
  }

  lemma RunDecides(s: string)
    requires s != "" && s[0] == '\\'
    ensures SlashesBeforeQuote(s) <==> Run(s) == |s| || s[Run(s)] == '"'
  {
    if SlashesBeforeQuote(s) {
      var n :| 0 < n <= |s| && s[..n] == Slashes(n) && (n == |s| || s[n] == '"');
      Rejoin(s, n);
      RunOf(n, s[n..]);
    } else {
      assert s[..Run(s)] == Slashes(Run(s));
    }
  }

  lemma EscapedFirst(s: string)
    requires s != "" && s[0] == '\\'
    ensures var doubled := Run(s) == |s| || s[Run(s)] == '"';
            Escaped(s) == Slashes(if doubled then 2 else 1) + Escaped(s[1..])
  {
    RunDecides(s);
    assert Slashes(2) == ['\\', '\\'] && Slashes(1) == ['\\'];
  }

  lemma SlashesAdd(j: nat, k: nat, x: string)
    ensures Slashes(j) + (Slashes(k) + x) == Slashes(j + k) + x
  {
  }

  lemma {:induction false} EscapedRun(s: string, n: nat)
    requires n == Run(s)
    ensures var doubled := n == |s| || s[n] == '"';
            Escaped(s) == Slashes(if doubled then 2 * n else n) + Escaped(s[n..])
    decreases n
  {
    if n == 0 {
      assert s[0..] == s && Slashes(0) + Escaped(s) == Escaped(s);
    } else {
      var doubled := n == |s| || s[n] == '"';
      EscapedFirst(s);
      EscapedRun(s[1..], n - 1);
      assert s[1..][n - 1..] == s[n..];
      SlashesAdd(if doubled then 2 else 1, if doubled then 2 * (n - 1) else n - 1, Escaped(s[n..]));
    }
  }

  lemma EscapedRest(s: string)
    ensures s == "" ==> Escaped(s) == ""
    ensures s != "" && s[0] == '"' ==> Escaped(s) == ['\\', '"'] + Escaped(s[1..])
    ensures s != "" && s[0] != '"' && s[0] != '\\' ==> Escaped(s) == [s[0]] + Escaped(s[1..])
  {
    if s != "" && SlashesBeforeQuote(s) { assert s[0] == '\\'; }
  }

  /** The printer follows the rule. */
  lemma {:induction false} BodyIsEscaped(s: string)
    ensures Body(s, true) == Escaped(s)
    decreases |s|, 1
  {
    if s == "" {
      EscapedRest(s);
    } else if s[0] == '\\' {
      RunIsEscaped(s, Run(s), s[Run(s)..]);
    } else {
      BodyIsEscaped(s[1..]);
      EscapedRest(s);
    }
  }

  lemma {:induction false} RunIsEscaped(s: string, n: nat, rest: string)
    requires s != "" && s[0] == '\\' && n == Run(s) && rest == s[n..]
    ensures Body(s, true) == Escaped(s)
    decreases |s|, 0
  {
    RunBody(s, n, rest);
    EscapedRun(s, n);
    EscapedRest(rest);
    if rest == "" {
      ConcatEmpty(Slashes(2 * n));
    } else if rest[0] == '"' {
      BodyIsEscaped(rest[1..]);
      ConcatAssoc(Slashes(2 * n), ['\\', '"'], Escaped(rest[1..]));
    } else {
      BodyIsEscaped(rest);
    }
  }

  /** So an argument that is not printed bare is printed by that rule. */
  lemma QuotedIsEscaped(a: string)
    requires a == "" || ' ' in a || '\t' in a || '"' in a
    ensures EncodeArg(a) == ['"'] + Escaped(a) + ['"']
  {
    BodyIsEscaped(a);
    BareIff(a);
    if ' ' in a || '\t' in a { assert HasSpace(a); }
  }

  /** The arguments stand on the command line in order, with one space between. */
  lemma PrintRule(args: seq<string>, a: string)
    ensures Print([]) == "" && Print([a]) == EncodeArg(a)
    ensures args != [] ==> Print([a] + args) == EncodeArg(a) + " " + Print(args)
  {
    assert [a][1..] == [] && ([a] + args)[1..] == args;
    ConcatEmpty(EncodeArg(a));
    ConcatAssoc(EncodeArg(a), " ", Print(args));
  }

  /** Reading back a bare argument. */
  lemma {:induction false} ReadBare(a: string, t: string, pairs: bool)
    requires ArgEnds(t) && '"' !in a && !HasSpace(a)
    ensures ReadArg(a + t, false, pairs) == (a, t)
    decreases |a|
  {
    if a == "" {
      assert a + t == t;
    } else if a[0] == '\\' {
      var n := Run(a);
      SplitRun(a);
      ConcatAssoc(Slashes(n), a[n..], t);
      ReadBare(a[n..], t, pairs);
      ReadSlashes(n, a[n..] + t, false, pairs);
    } else {
      ConcatAssoc([a[0]], a[1..], t);
      assert a == [a[0]] + a[1..];
      assert !IsSpace(a[0]);
      ReadBare(a[1..], t, pairs);
      ReadPlain(a[0], a[1..] + t, false, pairs);
    }
  }

  lemma ReadOpeningQuote(x: string, pairs: bool)
    ensures ReadArg(['"'] + x, false, pairs) == ReadArg(x, true, pairs)
  {
    var s := ['"'] + x;
    assert s[1..] == x && Run(s) == 0;
    var r := ReadArg(x, true, pairs);
    assert Slashes(0) + r.0 == r.0;
  }

  /** One argument is read back exactly, and reading stops behind it. */
  lemma ReadEncoded(a: string, t: string, pairs: bool)
    requires ArgEnds(t)
    ensures ReadArg(EncodeArg(a) + t, false, pairs) == (a, t)
    ensures EncodeArg(a) != "" && !Separates(EncodeArg(a)[0])
  {
    if NeedsQuotes(a) {
      var b := Body(a, true);
      ConcatAssoc(['"'], b, ['"']);
      ConcatAssoc(['"'], b + ['"'], t);
      ConcatAssoc(b, ['"'], t);
      ReadQuoted(a, t, pairs);
      ReadOpeningQuote(b + (['"'] + t), pairs);
    } else {
      BareBody(a);
      ReadBare(a, t, pairs);
    }
  }

  /** Every argument list is read back from its command line, by the older and
      by the newer rule for doubled quotes. */
  lemma {:induction false} RoundTrip(args: seq<string>, pairs: bool)
    ensures ReadArgs(Print(args), pairs) == args
    ensures ReadArgs(After(args), pairs) == args
    ensures |args| > 0 ==> Print(args) != "" && !Separates(Print(args)[0])
    decreases |args|
  {
    if |args| > 0 {
      ReadEncoded(args[0], After(args[1..]), pairs);
      RoundTrip(args[1..], pairs);
      assert SkipSpaces(Print(args)) == Print(args) && SkipSpaces([' '] + Print(args)) == Print(args) by {
        assert ([' '] + Print(args))[1..] == Print(args);
      }
      assert args == [args[0]] + args[1..];
    }
  }

  /** Different argument lists have different command lines. */
  lemma Injective(args: seq<string>, args': seq<string>)
    requires Print(args) == Print(args')
    ensures args == args'
  {
    RoundTrip(args, false);
    RoundTrip(args', false);
  }
}
