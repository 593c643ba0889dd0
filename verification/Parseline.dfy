/** `parseline` of ASSN5/tsh.c: a command line is cut into arguments inside its own buffer.
    A C string is a sequence of characters other than NUL; a pointer into the buffer is an
    index, and NULL is -1. */
module Parseline {
  const MAXLINE := 1024
  const MAXARGS := 128
  const NUL := '\0'
  const NULL := -1

  predicate NulFree(s: string) {
    NUL !in s
  }

  // ---------------------------------------------------------------- what parseline computes

  /** The number of spaces at the front */
  function Spaces(s: string): (n: nat)
    ensures n <= |s|
  {
    if s != "" && s[0] == ' ' then 1 + Spaces(s[1..]) else 0
  }

  /** The first position of c, or |s| where there is none */
  function IndexOf(s: string, c: char): (n: nat)
    ensures n <= |s|
  {
    if s == "" || s[0] == c then 0 else 1 + IndexOf(s[1..], c)
  }

  /** An argument is the text between start and its delimiter. */
  datatype Cut = NoCut | Cut(start: nat, delim: nat)

  function NextCut(s: string): (cut: Cut)
    ensures cut.Cut? ==> cut.start <= cut.delim < |s|
  {
    var k := Spaces(s);
    if k < |s| && s[k] == '\'' then
      var d := k + 1 + IndexOf(s[k + 1..], '\'');
      if d == |s| then NoCut else Cut(k + 1, d)
    else
      var d := k + IndexOf(s[k..], ' ');
      if d == |s| then NoCut else Cut(k, d)
  }

  function Tokens(s: string): seq<string> {
    match NextCut(s)
    case NoCut => []
    case Cut(start, delim) => [s[start..delim]] + Tokens(s[delim + 1..])
  }

  datatype Command = Command(args: seq<string>, background: bool)

  predicate Ampersand(arg: string) {
    arg != "" && arg[0] == '&'
  }

  function Dispatch(tokens: seq<string>): Command {
    if tokens == [] then Command([], true)
    else if Ampersand(tokens[|tokens| - 1]) then Command(tokens[..|tokens| - 1], true)
    else Command(tokens, false)
  }

  /** The line with its last character, the newline, replaced by a space */
  function Prepared(cmdline: string): string
    requires cmdline != ""
  {
    cmdline[..|cmdline| - 1] + " "
  }

  // ---------------------------------------------------------------- round trip

  /** An argument as it can be typed: bare, or between single quotes */
  datatype Word = Plain(text: string) | Quoted(text: string)

  predicate CanBePlain(text: string) {
    text != "" && ' ' !in text && text[0] != '\''
  }

  predicate CanBeQuoted(text: string) {
    '\'' !in text
  }

  predicate Printable(w: Word) {
    NulFree(w.text) && if w.Plain? then CanBePlain(w.text) else CanBeQuoted(w.text)
  }

  function Show(w: Word): string {
    match w
    case Plain(text) => text
    case Quoted(text) => "'" + text + "'"
  }

  function Blank(n: nat): (s: string)
    ensures |s| == n && forall i :: 0 <= i < n ==> s[i] == ' '
  {
    seq(n, _ => ' ')
  }

  /** A word and the number of spaces typed after it */
  datatype Typed = Typed(word: Word, gap: nat)

  function Texts(line: seq<Typed>): seq<string> {
    seq(|line|, i requires 0 <= i < |line| => line[i].word.text)
  }

  function Print(line: seq<Typed>): string {
    if line == [] then "" else Show(line[0].word) + Blank(line[0].gap) + Print(line[1..])
  }

  /** Words are kept apart by at least one space. The newline will do for the last one, since
      it is replaced by a space, and a closing quote needs no space at all. */
  predicate WellTyped(line: seq<Typed>) {
    forall i :: 0 <= i < |line| ==> Printable(line[i].word) && (line[i].gap > 0 || line[i].word.Quoted?)
  }

  lemma {:induction false} SpacesOfBlank(n: nat, s: string)
    ensures Spaces(Blank(n) + s) == n + Spaces(s)
  {
    if n == 0 {
      assert Blank(n) + s == s;
    } else {
      assert (Blank(n) + s)[1..] == Blank(n - 1) + s;
      SpacesOfBlank(n - 1, s);
    }
  }

  lemma {:induction false} IndexOfFirst(s: string, c: char, rest: string)
    requires c !in s
    ensures IndexOf(s + [c] + rest, c) == |s|
  {
    var t := s + [c] + rest;
    if s != "" {
      assert t[1..] == s[1..] + [c] + rest;
      IndexOfFirst(s[1..], c, rest);
    }
  }

  lemma CutSkipBlank(n: nat, s: string)
    ensures NextCut(Blank(n) + s)
         == match NextCut(s) { case NoCut => NoCut case Cut(b, d) => Cut(n + b, n + d) }
  {
    var t := Blank(n) + s;
    SpacesOfBlank(n, s);
    var k := Spaces(s);
    assert t[n + k..] == s[k..];
    if k < |s| && s[k] == '\'' {
      assert t[n + k] == s[k];
      assert t[n + k + 1..] == s[k + 1..];
    }
  }

  /** Spaces in front of the first word change nothing. */
  lemma TokensSkipBlank(n: nat, s: string)
    ensures Tokens(Blank(n) + s) == Tokens(s)
  {
    hide NextCut;
    var t := Blank(n) + s;
    CutSkipBlank(n, s);
    if NextCut(s).Cut? {
      var b, d := NextCut(s).start, NextCut(s).delim;
      assert t[n + b..n + d] == s[b..d];
      assert t[n + d + 1..] == s[d + 1..];
    }
  }

  /** A bare word up to a space is the first token. */
  lemma TokensOfPlain(text: string, rest: string)
    requires CanBePlain(text)
    ensures Tokens(text + " " + rest) == [text] + Tokens(rest)
  {
    var s := text + " " + rest;
    IndexOfFirst(text, ' ', rest);
    assert Spaces(s) == 0;
    assert s[0..] == s;
    assert NextCut(s) == Cut(0, |text|);
    assert s[0..|text|] == text && s[|text| + 1..] == rest;
  }

  /** So is the text between two quotes, spaces and all. */
  lemma TokensOfQuoted(text: string, rest: string)
    requires CanBeQuoted(text)
    ensures Tokens("'" + text + "'" + rest) == [text] + Tokens(rest)
  {
    var s := "'" + text + "'" + rest;
    assert s[1..] == text + "'" + rest;
    IndexOfFirst(text, '\'', rest);
    assert Spaces(s) == 0;
    assert NextCut(s) == Cut(1, 1 + |text|);
    assert s[1..1 + |text|] == text && s[1 + |text| + 1..] == rest;
  }

  lemma TokensOfShown(w: Word, gap: nat, rest: string)
    requires Printable(w) && (gap > 0 || w.Quoted?)
    ensures Tokens(Show(w) + Blank(gap) + rest) == [w.text] + Tokens(rest)
  {
    hide Tokens, NulFree, CanBePlain, CanBeQuoted;
    match w
    case Plain(text) =>
      TokensSkipBlank(gap - 1, rest);
      assert text + Blank(gap) + rest == text + " " + (Blank(gap - 1) + rest);
      TokensOfPlain(text, Blank(gap - 1) + rest);
    case Quoted(text) =>
      TokensSkipBlank(gap, rest);
      assert "'" + text + "'" + Blank(gap) + rest == "'" + text + "'" + (Blank(gap) + rest);
      TokensOfQuoted(text, Blank(gap) + rest);
  }

  lemma {:induction false} TokensOfPrint(line: seq<Typed>)
    requires WellTyped(line)
    ensures Tokens(Print(line)) == Texts(line)
  {
    hide Printable, Show, Blank;
    if line == [] {
      assert Spaces("") == 0;
    } else {
      TokensOfPrint(line[1..]);
      TokensOfShown(line[0].word, line[0].gap, Print(line[1..]));
      assert Texts(line) == [line[0].word.text] + Texts(line[1..]);
    }
  }

  /** A command line as typed: leading spaces, words with the spaces after them, and a newline.
      The last word's final space is the one that replaces the newline. */
  function CommandLine(lead: nat, line: seq<Typed>): (s: string)
    ensures s != "" && s[|s| - 1] == '\n'
  {
    Blank(lead) + Print(line) + "\n"
  }

  /** Print puts the words of a line side by side. */
  lemma {:induction false} PrintAppend(line: seq<Typed>, last: Typed)
    ensures Print(line + [last]) == Print(line) + Show(last.word) + Blank(last.gap)
  {
    hide Show, Blank;
    if line == [] {
      assert line + [last] == [last];
      assert Print([last][1..]) == "";
    } else {
      assert (line + [last])[1..] == line[1..] + [last];
      PrintAppend(line[1..], last);
    }
  }

  lemma BlankJoin(m: nat, n: nat)
    ensures Blank(m) + Blank(n) == Blank(m + n)
  {
  }

  /** The space that replaces the newline, counted with the spaces after the last word */
  lemma NewlineIsGap(lead: nat, line: seq<Typed>, last: Typed)
    ensures Prepared(CommandLine(lead, line + [last]))
         == Blank(lead) + Print(line + [Typed(last.word, last.gap + 1)])
  {
    hide Print, Show, Blank;
    PrintAppend(line, last);
    PrintAppend(line, Typed(last.word, last.gap + 1));
    BlankJoin(last.gap, 1);
    BlankOne();
  }

  lemma BlankOne()
    ensures Blank(1) == " "
  {
  }

  lemma {:induction false} PrintNulFree(line: seq<Typed>)
    requires forall i :: 0 <= i < |line| ==> Printable(line[i].word)
    ensures NulFree(Print(line))
  {
    if line != [] {
      PrintNulFree(line[1..]);
    }
  }

  lemma CommandLineNulFree(lead: nat, line: seq<Typed>, last: Typed)
    requires WellTyped(line) && Printable(last.word)
    ensures NulFree(CommandLine(lead, line + [last]))
  {
    hide Print, Printable;
    PrintNulFree(line + [last]);
  }

  /** `parseline` inverts printing: the words come back in order, whatever the spacing, and the
      command goes to the background exactly when its last word starts with '&', which is then
      dropped. Only the last word may do without a space after it. */
  lemma ParseInvertsPrint(lead: nat, line: seq<Typed>, last: Typed)
    requires WellTyped(line) && Printable(last.word)
    ensures NulFree(CommandLine(lead, line + [last]))
    ensures Tokens(Prepared(CommandLine(lead, line + [last]))) == Texts(line) + [last.word.text]
    ensures Dispatch(Tokens(Prepared(CommandLine(lead, line + [last]))))
         == if last.word.text != "" && last.word.text[0] == '&' then Command(Texts(line), true)
            else Command(Texts(line) + [last.word.text], false)
  {
    hide Printable, Tokens, Print, Prepared, CommandLine;
    var spaced := line + [Typed(last.word, last.gap + 1)];
    CommandLineNulFree(lead, line, last);
    NewlineIsGap(lead, line, last);
    TokensSkipBlank(lead, Print(spaced));
    TokensOfPrint(spaced);
    assert Texts(spaced) == Texts(line) + [last.word.text];
    assert Texts(spaced)[..|line|] == Texts(line);
  }

  lemma {:induction false} NoneBefore(s: string, c: char)
    ensures c !in s[..IndexOf(s, c)]
    ensures IndexOf(s, c) < |s| ==> s[IndexOf(s, c)] == c
  {
    if s != "" && s[0] != c {
      NoneBefore(s[1..], c);
      assert s[..IndexOf(s, c)] == [s[0]] + s[1..][..IndexOf(s[1..], c)];
    }
  }

  lemma {:induction false} AfterSpaces(s: string)
    ensures Spaces(s) < |s| ==> s[Spaces(s)] != ' '
  {
    if s != "" && s[0] == ' ' {
      AfterSpaces(s[1..]);
    }
  }

  lemma FirstTokenIsPrintable(s: string)
    requires NextCut(s).Cut?
    ensures var t := s[NextCut(s).start..NextCut(s).delim]; CanBePlain(t) || CanBeQuoted(t)
  {
    hide IndexOf, Spaces;
    var k := Spaces(s);
    AfterSpaces(s);
    if s[k] == '\'' {
      var rest := s[k + 1..];
      NoneBefore(rest, '\'');
      assert s[k + 1..k + 1 + IndexOf(rest, '\'')] == rest[..IndexOf(rest, '\'')];
    } else {
      var rest := s[k..];
      NoneBefore(rest, ' ');
      assert s[k..k + IndexOf(rest, ' ')] == rest[..IndexOf(rest, ' ')];
    }
  }

  /** Conversely no line, however malformed, yields an argument that could not be typed bare or
      quoted: the words of the round trip are all the words there are. */
  lemma {:induction false} EveryTokenIsPrintable(s: string)
    ensures forall t :: t in Tokens(s) ==> CanBePlain(t) || CanBeQuoted(t)
  {
    hide CanBePlain, CanBeQuoted, NextCut;
    if NextCut(s).Cut? {
      FirstTokenIsPrintable(s);
      EveryTokenIsPrintable(s[NextCut(s).delim + 1..]);
    }
  }

  /** An opening quote without its partner ends the parse. */
  lemma UnclosedQuoteEndsParse(n: nat, text: string)
    requires CanBeQuoted(text)
    ensures Tokens(Blank(n) + "'" + text) == []
  {
    var s := "'" + text;
    assert Blank(n) + "'" + text == Blank(n) + s;
    TokensSkipBlank(n, s);
    assert s[1..] == text;
    NoneBefore(text, '\'');
    assert Spaces(s) == 0;
  }

  // ---------------------------------------------------------------- the buffer

  /** The C string s stands at index p of a buffer, ended by a NUL. */
  predicate Holds(a: seq<char>, p: nat, s: string) {
    NulFree(s) && p + |s| < |a| && a[p..p + |s|] == s && a[p + |s|] == NUL
  }

  /** A line has no arguments if and only if it is blank or its first character that is no space is
      a quote without a partner; then the answer is 1, as for a command in the background. */
  lemma NoArgumentsIff(text: string)
    ensures var tokens := Tokens(Prepared(text + "\n"));
            && (tokens == [] <==>
                  (forall i :: 0 <= i < |text| ==> text[i] == ' ')
                  || exists k :: 0 <= k < |text| && (forall i :: 0 <= i < k ==> text[i] == ' ')
                                 && text[k] == '\'' && '\'' !in text[k + 1..])
            && (tokens == [] ==> Dispatch(tokens) == Command([], true))
  {
    hide Spaces, IndexOf;
    var s := Prepared(text + "\n");
    assert s == text + " ";
    var k := Spaces(s);
    SpacesBefore(s);
    AfterSpaces(s);
    assert s[|text|] == ' ' && forall i :: 0 <= i < |text| ==> s[i] == text[i];
    if k < |s| {
      assert text[k] != ' ' && s[k..][|text| - k] == ' ';
      assert s[k + 1..] == text[k + 1..] + " ";
      FindsIff(s[k + 1..], '\'');
      FindsIff(s[k..], ' ');
    }
  }

  lemma FindsIff(s: string, c: char)
    ensures IndexOf(s, c) < |s| <==> c in s
  {
    NoneBefore(s, c);
    assert IndexOf(s, c) == |s| ==> s[..IndexOf(s, c)] == s;
  }

  lemma {:induction false} SpacesBefore(s: string)
    ensures forall i :: 0 <= i < Spaces(s) ==> s[i] == ' '
  {
    if s != "" && s[0] == ' ' {
      SpacesBefore(s[1..]);
    }
  }

  lemma HoldsTail(a: seq<char>, p: nat, s: string, k: nat)
    requires Holds(a, p, s) && k <= |s|
    ensures Holds(a, p + k, s[k..])
  {
  }

  lemma HoldsAt(a: seq<char>, p: nat, s: string, i: nat)
    requires Holds(a, p, s) && i <= |s|
    ensures a[p + i] == if i < |s| then s[i] else NUL
  {
  }

  /** Cutting a string with a NUL leaves its front part. */
  lemma HoldsCut(a: seq<char>, p: nat, s: string, b: nat, d: nat)
    requires Holds(a, p, s) && b <= d < |s|
    ensures Holds(a[p + d := NUL], p + b, s[b..d])
    ensures Holds(a[p + d := NUL], p + d + 1, s[d + 1..])
  {
    var a' := a[p + d := NUL];
    forall i | b <= i < d
      ensures a[p + i] == s[i]
    {
      assert a[p..p + |s|][i] == a[p + i];
    }
    assert a'[p + b..p + d] == s[b..d];
    assert a'[p + d + 1..p + |s|] == a[p..p + |s|][d + 1..];
  }

  lemma HoldsElsewhere(a: seq<char>, p: nat, s: string, q: nat)
    requires Holds(a, p, s) && p + |s| < q < |a|
    ensures Holds(a[q := NUL], p, s)
  {
  }

  lemma HoldsPrepared(a: seq<char>, s: string)
    requires Holds(a, 0, s) && s != ""
    ensures Holds(a[|s| - 1 := ' '], 0, Prepared(s))
  {
  }

  /** `strcpy` */
  method StrCpy(buf: array<char>, s: string)
    requires NulFree(s) && |s| < buf.Length
    modifies buf
    ensures Holds(buf[..], 0, s)
  {
    var i := 0;
    while i < |s|
      invariant 0 <= i <= |s| && buf[..i] == s[..i]
    {
      buf[i] := s[i];
      i := i + 1;
    }
    buf[i] := NUL;
    assert buf[..][0..|s|] == s;
  }

  /** `strchr`; -1 stands for NULL. */
  method StrChr(buf: array<char>, p: nat, c: char, ghost s: string) returns (q: int)
    requires Holds(buf[..], p, s) && c != NUL
    ensures q == if IndexOf(s, c) == |s| then NULL else p + IndexOf(s, c)
  {
    var i := p;
    while buf[i] != c && buf[i] != NUL
      invariant p <= i <= p + |s| && IndexOf(s, c) == i - p + IndexOf(s[i - p..], c)
      decreases p + |s| - i
    {
      HoldsAt(buf[..], p, s, i - p);
      assert s[i - p..][1..] == s[i + 1 - p..];
      i := i + 1;
    }
    HoldsAt(buf[..], p, s, i - p);
    q := if buf[i] == c then i else NULL;
  }

  method SkipSpaces(buf: array<char>, p: nat, ghost s: string) returns (q: nat)
    requires Holds(buf[..], p, s)
    ensures q == p + Spaces(s)
  {
    q := p;
    HoldsAt(buf[..], p, s, 0);
    while buf[q] != NUL && buf[q] == ' '
      invariant p <= q <= p + |s| && Spaces(s) == q - p + Spaces(s[q - p..])
      decreases p + |s| - q
    {
      HoldsAt(buf[..], p, s, q - p);
      assert s[q - p..][1..] == s[q + 1 - p..];
      q := q + 1;
    }
    HoldsAt(buf[..], p, s, q - p);
  }

  /** The step that the code writes out before its loop and again inside it: skip spaces, look
      for an opening quote, and find the delimiter. */
  method NextArg(buf: array<char>, p: nat, ghost s: string) returns (start: nat, delim: int)
    requires Holds(buf[..], p, s)
    ensures match NextCut(s)
            case NoCut => delim == NULL
            case Cut(b, d) => start == p + b && delim == p + d
  {
    start := SkipSpaces(buf, p, s);
    ghost var k := start - p;
    HoldsAt(buf[..], p, s, k);
    if buf[start] == '\'' {
      start := start + 1;
      HoldsTail(buf[..], p, s, k + 1);
      delim := StrChr(buf, start, '\'', s[k + 1..]);
    } else {
      HoldsTail(buf[..], p, s, k);
      delim := StrChr(buf, start, ' ', s[k..]);
    }
  }

  /** The arguments recorded so far lie in the buffer, all of them before index p. */
  ghost predicate Recorded(a: seq<char>, argv: seq<int>, args: seq<string>, p: nat) {
    |args| <= |argv| &&
    forall i :: 0 <= i < |args| ==>
      0 <= argv[i] && argv[i] + |args[i]| < p && Holds(a, argv[i], args[i])
  }

  lemma RecordOne(a: seq<char>, argv: seq<int>, args: seq<string>, p: nat, s: string, b: nat, d: nat)
    requires Recorded(a, argv, args, p) && |args| < |argv|
    requires Holds(a, p, s) && b <= d < |s|
    ensures Recorded(a[p + d := NUL], argv[|args| := p + b], args + [s[b..d]], p + d + 1)
  {
    HoldsCut(a, p, s, b, d);
    forall i | 0 <= i < |args|
      ensures Holds(a[p + d := NUL], argv[i], args[i])
    {
      HoldsElsewhere(a, argv[i], args[i], p + d);
    }
  }

  /** Ending the list after k entries with NULL */
  lemma RecordEnd(a: seq<char>, argv: seq<int>, args: seq<string>, p: nat, k: nat, q: nat)
    requires Recorded(a, argv, args, p) && k <= |args| && k < |argv| && p <= q
    ensures Recorded(a, argv[k := NULL], args[..k], q)
  {
  }

  lemma RecordMore(a: seq<char>, argv: seq<int>, args: seq<string>, p: nat, q: nat)
    requires Recorded(a, argv, args, p) && p <= q
    ensures Recorded(a, argv, args, q)
  {
  }

  /** The character an entry points at tells whether the argument starts with '&'. */
  lemma RecordedFirst(a: seq<char>, argv: seq<int>, args: seq<string>, p: nat, i: nat)
    requires Recorded(a, argv, args, p) && i < |args|
    ensures 0 <= argv[i] < |a| && (a[argv[i]] == '&' <==> Ampersand(args[i]))
  {
  }

  /** `*p = c` */
  method WriteAt(buf: array<char>, i: nat, c: char)
    requires i < buf.Length
    modifies buf
    ensures buf[..] == old(buf[..])[i := c]
  {
    buf[i] := c;
  }

  lemma NoArguments(a: seq<char>, argv: seq<int>)
    ensures Recorded(a, argv, [], 0)
  {
  }

  lemma TokensStep(s: string)
    ensures Tokens(s) == match NextCut(s) { case NoCut => [] case Cut(b, d) => [s[b..d]] + Tokens(s[d + 1..]) }
  {
  }

  lemma TokensAfterCut(args: seq<string>, s: string, all: seq<string>, b: nat, d: nat)
    requires NextCut(s) == Cut(b, d) && args + Tokens(s) == all
    ensures |args| < |all| && args + [s[b..d]] + Tokens(s[d + 1..]) == all
  {
    hide Tokens, NextCut;
    TokensStep(s);
  }

  /** The loop that builds the argv list */
  method BuildArgv(buf: array<char>, argv: array<int>, ghost line: string) returns (argc: nat)
    requires Holds(buf[..], 0, line) && |line| < buf.Length && |Tokens(line)| < argv.Length
    modifies buf, argv
    ensures argc == |Tokens(line)| && Recorded(buf[..], argv[..], Tokens(line), |line| + 1)
  {
    hide Tokens, NextCut, Holds, Recorded;
    NoArguments(buf[..], argv[..]);
    ghost var p, args := 0, [];
    assert line[0..] == line;
    argc := 0;
    var start, delim := NextArg(buf, 0, line);
    while delim != NULL
      invariant p <= |line| && argc == |args| && args + Tokens(line[p..]) == Tokens(line)
      invariant Holds(buf[..], p, line[p..])
      invariant Recorded(buf[..], argv[..], args, p)
      invariant match NextCut(line[p..])
                case NoCut => delim == NULL
                case Cut(b, d) => start == p + b && delim == p + d
      decreases |line| - p
    {
      ghost var s, b, d := line[p..], start - p, delim - p;
      TokensAfterCut(args, s, Tokens(line), b, d);
      assert s[d + 1..] == line[delim + 1..];
      RecordOne(buf[..], argv[..], args, p, s, b, d);
      HoldsCut(buf[..], p, s, b, d);
      argv[argc] := start;
      argc := argc + 1;
      WriteAt(buf, delim, NUL);
      args := args + [s[b..d]];
      p := delim + 1;
      start, delim := NextArg(buf, delim + 1, line[p..]);
    }
    TokensStep(line[p..]);
    assert args == Tokens(line);
    RecordMore(buf[..], argv[..], args, p, |line| + 1);
  }

  /** For every command line that fits the buffer and has at most 127 arguments: afterwards
      argv points at C strings in the buffer that are exactly the arguments of the command,
      and the entry behind them is NULL. */
  method Parse(cmdline: string, buf: array<char>, argv: array<int>) returns (bg: bool)
    requires cmdline != "" && NulFree(cmdline) && |cmdline| < MAXLINE == buf.Length
    requires |Tokens(Prepared(cmdline))| < MAXARGS == argv.Length
    modifies buf, argv
    ensures var command := Dispatch(Tokens(Prepared(cmdline)));
            && bg == command.background
            && Recorded(buf[..], argv[..], command.args, MAXLINE)
            && argv[|command.args|] == NULL
  {
    hide Tokens, Holds, Recorded;
    StrCpy(buf, cmdline);
    HoldsPrepared(buf[..], cmdline);
    WriteAt(buf, |cmdline| - 1, ' ');
    ghost var line := Prepared(cmdline);
    ghost var args := Tokens(line);
    var argc := BuildArgv(buf, argv, line);
    assert args[..argc] == args;
    RecordEnd(buf[..], argv[..], args, |line| + 1, argc, MAXLINE);
    argv[argc] := NULL;
    if argc == 0 {
      return true;
    }
    RecordedFirst(buf[..], argv[..], args, MAXLINE, argc - 1);
    bg := buf[argv[argc - 1]] == '&';
    if bg {
      RecordEnd(buf[..], argv[..], args, MAXLINE, argc - 1, MAXLINE);
      argc := argc - 1;
      argv[argc] := NULL;
    }
  }
}
