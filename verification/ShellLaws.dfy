/** What the grammar guarantees: words are exactly spans of word characters, and every tree it yields can be written down and parsed again. */
module ShellLaws {
  import opened ShellSpec

  // ---- The words of a parsed command ---------------------------------------------------------------

  /** A whole word of the text. */
  predicate IsWord(text: string, w: Span) {
    && w.q < w.eq <= |text|
    && (forall i :: w.q <= i < w.eq ==> WordChar(text[i]))
    && (w.eq == |text| || !WordChar(text[w.eq]))
  }

  predicate Good(text: string, c: Cmd<Span>) {
    match c
    case Exec(args) => |args| < MAXARGS && forall i :: 0 <= i < |args| ==> IsWord(text, args[i])
    case Redir(d, f, _) => Good(text, d) && IsWord(text, f)
    case Pipe(l, r) => Good(text, l) && Good(text, r)
    case List(l, r) => Good(text, l) && Good(text, r)
    case Back(d) => Good(text, d)
  }

  /** Redirections around one exec node that has n words. */
  ghost predicate Plain(c: Cmd<Span>, n: nat) {
    match c
    case Exec(args) => |args| == n
    case Redir(d, _, _) => Plain(d, n)
    case _ => false
  }

  lemma {:induction false} AddArgGood(text: string, c: Cmd<Span>, n: nat, w: Span)
    requires Good(text, c) && Plain(c, n) && n + 1 < MAXARGS && IsWord(text, w)
    ensures Good(text, AddArg(c, w)) && Plain(AddArg(c, w), n + 1)
  {
    if c.Redir? { AddArgGood(text, c.cmd, n, w); }
  }

  /** A token of kind 'a' is a whole word. */
  lemma TokenIsWord(text: string, q: nat)
    requires q <= |text| && Skip(text, q) == q && Kind(text, q) == 'a'
    ensures IsWord(text, Span(q, TokenEnd(text, q)))
  {
    WordEndStops(text, q);
  }

  lemma {:induction false} WordEndStops(text: string, p: nat)
    requires p <= |text|
    ensures var e := WordEnd(text, p);
            (forall i :: p <= i < e ==> WordChar(text[i])) && (e == |text| || !WordChar(text[e]))
    decreases |text| - p
  {
    if p < |text| && WordChar(text[p]) { WordEndStops(text, p + 1); }
  }

  lemma {:induction false} RedirsGood(text: string, p: nat, c: Cmd<Span>)
    requires p <= |text| && Good(text, c)
    ensures var r := ParseRedirs(text, p, c); r.Ok? ==> Good(text, r.cmd)
    decreases |text| - p
  {
    if Peeks(text, p, REDIRS) {
      var q := Next(text, p);
      if Kind(text, q) == 'a' {
        TokenIsWord(text, q);
        RedirsGood(text, Next(text, q), Redir(c, Span(q, TokenEnd(text, q)), Kind(text, Skip(text, p)) != '<'));
      }
    }
  }

  lemma {:induction false} RedirsPlain(text: string, p: nat, c: Cmd<Span>, n: nat)
    requires p <= |text| && Plain(c, n)
    ensures var r := ParseRedirs(text, p, c); r.Ok? ==> Plain(r.cmd, n)
    decreases |text| - p
  {
    if Peeks(text, p, REDIRS) {
      var q := Next(text, p);
      if Kind(text, q) == 'a' {
        RedirsPlain(text, Next(text, q), Redir(c, Span(q, TokenEnd(text, q)), Kind(text, Skip(text, p)) != '<'), n);
      }
    }
  }

  /** One turn of parseexec's loop. */
  lemma ArgGood(text: string, p: nat, c: Cmd<Span>, argc: nat)
    requires p <= |text| && Good(text, c) && Plain(c, argc)
    ensures var s := ParseArg(text, p, c, argc);
            if s.More? then Good(text, s.cmd) && Plain(s.cmd, argc + 1) else s.parse.Ok? ==> s.parse.cmd == c
  {
    if ParseArg(text, p, c, argc).More? {
      var q := Skip(text, p);
      WordGood(text, q, c, argc);
      var r := ParseRedirs(text, Next(text, q), AddArg(c, Span(q, TokenEnd(text, q))));
      assert ParseArg(text, p, c, argc) == More(r.cmd, r.pos);
    }
  }

  lemma WordGood(text: string, q: nat, c: Cmd<Span>, argc: nat)
    requires q <= |text| && Skip(text, q) == q && Kind(text, q) == 'a' && Good(text, c) && Plain(c, argc)
    requires argc + 1 < MAXARGS
    ensures var r := ParseRedirs(text, Next(text, q), AddArg(c, Span(q, TokenEnd(text, q))));
            r.Ok? ==> Good(text, r.cmd) && Plain(r.cmd, argc + 1)
  {
    var w := Span(q, TokenEnd(text, q));
    TokenIsWord(text, q);
    AddArgGood(text, c, argc, w);
    RedirsGood(text, Next(text, q), AddArg(c, w));
    RedirsPlain(text, Next(text, q), AddArg(c, w), argc + 1);
  }

  lemma {:induction false} ArgsGood(text: string, p: nat, c: Cmd<Span>, argc: nat)
    requires p <= |text| && Good(text, c) && Plain(c, argc)
    ensures var r := ParseArgs(text, p, c, argc); r.Ok? ==> Good(text, r.cmd)
    decreases |text| - p
  {
    ArgGood(text, p, c, argc);
    var s := ParseArg(text, p, c, argc);
    if s.More? { ArgsGood(text, s.pos, s.cmd, argc + 1); }
  }

  lemma {:induction false} ExecGood(text: string, p: nat)
    requires p <= |text|
    ensures var r := ParseExec(text, p); r.Ok? ==> Good(text, r.cmd)
    decreases |text| - p, 1
  {
    if Peeks(text, p, {'('}) {
      var r := ParseLine(text, Next(text, p));
      LineGood(text, Next(text, p));
      if r.Ok? && Peeks(text, r.pos, {')'}) { RedirsGood(text, Next(text, r.pos), r.cmd); }
    } else {
      RedirsGood(text, p, Exec([]));
      var r := ParseRedirs(text, p, Exec([]));
      if r.Ok? {
        RedirsPlain(text, p, Exec([]), 0);
        ArgsGood(text, r.pos, r.cmd, 0);
      }
    }
  }

  lemma {:induction false} PipeGood(text: string, p: nat)
    requires p <= |text|
    ensures var r := ParsePipe(text, p); r.Ok? ==> Good(text, r.cmd)
    decreases |text| - p, 2
  {
    ExecGood(text, p);
    var r := ParseExec(text, p);
    if r.Ok? && Peeks(text, r.pos, {'|'}) { PipeGood(text, Next(text, r.pos)); }
  }

  lemma {:induction false} BackGood(text: string, p: nat, c: Cmd<Span>)
    requires p <= |text| && Good(text, c)
    ensures Good(text, ParseBack(text, p, c).cmd)
    decreases |text| - p
  {
    if Peeks(text, p, {'&'}) { BackGood(text, Next(text, p), Back(c)); }
  }

  /** Every word of a parsed line is a whole word of the text, and no command has MAXARGS of them. */
  lemma {:induction false} LineGood(text: string, p: nat)
    requires p <= |text|
    ensures var r := ParseLine(text, p); r.Ok? ==> Good(text, r.cmd)
    decreases |text| - p, 3
  {
    PipeGood(text, p);
    var r := ParsePipe(text, p);
    if r.Ok? {
      BackGood(text, r.pos, r.cmd);
      var b := ParseBack(text, r.pos, r.cmd);
      if Peeks(text, b.pos, {';'}) { LineGood(text, Next(text, b.pos)); }
    }
  }

  // ---- The NULs after the words ------------------------------------------------------------------

  /** Buffer b' is b but for NULs where the text has no word character. */
  ghost predicate OnlyEnds(b: seq<char>, b': seq<char>, text: string) {
    && |b'| == |b|
    && (forall i {:trigger b'[i]} :: 0 <= i < |b| ==> b'[i] == b[i] || (b'[i] == '\0' && (i < |text| ==> !WordChar(text[i]))))
  }

  /** A NUL follows each word. */
  ghost predicate Terminated(b: seq<char>, text: string, c: Cmd<Span>)
    requires |text| < |b| && Good(text, c)
  {
    match c
    case Exec(args) => forall i :: 0 <= i < |args| ==> IsWord(text, args[i]) && b[args[i].eq] == '\0'
    case Redir(d, f, _) => Terminated(b, text, d) && b[f.eq] == '\0'
    case Pipe(l, r) => Terminated(b, text, l) && Terminated(b, text, r)
    case List(l, r) => Terminated(b, text, l) && Terminated(b, text, r)
    case Back(d) => Terminated(b, text, d)
  }

  /** Later NULs take none away. */
  lemma {:induction false} StillTerminated(b: seq<char>, b': seq<char>, text: string, c: Cmd<Span>)
    requires |text| < |b| && Good(text, c) && Terminated(b, text, c) && OnlyEnds(b, b', text)
    ensures Terminated(b', text, c)
  {
    match c
    case Exec(args) =>
    case Redir(d, f, _) => StillTerminated(b, b', text, d);
    case Pipe(l, r) => StillTerminated(b, b', text, l); StillTerminated(b, b', text, r);
    case List(l, r) => StillTerminated(b, b', text, l); StillTerminated(b, b', text, r);
    case Back(d) => StillTerminated(b, b', text, d);
  }

  /** The C string at q. */
  ghost function CString(b: seq<char>, q: nat): string
    decreases |b| - q
  {
    if q < |b| && b[q] != '\0' then [b[q]] + CString(b, q + 1) else []
  }

  /** The string at a terminated word is the word. */
  lemma {:induction false} WordString(b: seq<char>, text: string, q: nat, eq: nat)
    requires q <= eq <= |text| < |b| && b[eq] == '\0'
    requires forall i :: q <= i < eq ==> b[i] == text[i] != '\0'
    ensures CString(b, q) == text[q..eq]
    decreases eq - q
  {
    if q < eq { WordString(b, text, q + 1, eq); }
  }

  /** Each argv and file string is its word. */
  ghost predicate Reads(b: seq<char>, text: string, c: Cmd<Span>)
    requires Good(text, c)
  {
    match c
    case Exec(args) => forall i :: 0 <= i < |args| ==> IsWord(text, args[i]) && CString(b, args[i].q) == text[args[i].q..args[i].eq]
    case Redir(d, f, _) => Reads(b, text, d) && CString(b, f.q) == text[f.q..f.eq]
    case Pipe(l, r) => Reads(b, text, l) && Reads(b, text, r)
    case List(l, r) => Reads(b, text, l) && Reads(b, text, r)
    case Back(d) => Reads(b, text, d)
  }

  ghost predicate NulFree(text: string) {
    forall i :: 0 <= i < |text| ==> text[i] != '\0'
  }

  /** After nulterminate every string in the tree reads as its word did in the line. */
  lemma {:induction false} StringsKept(b: seq<char>, b': seq<char>, text: string, c: Cmd<Span>)
    requires |text| < |b| && b[..|text|] == text && NulFree(text) && OnlyEnds(b, b', text)
    requires Good(text, c) && Terminated(b', text, c)
    ensures Reads(b', text, c)
  {
    match c
    case Exec(args) =>
      forall k | 0 <= k < |args| ensures IsWord(text, args[k]) && CString(b', args[k].q) == text[args[k].q..args[k].eq] {
        assert IsWord(text, args[k]);
        WordKept(b, b', text, args[k]);
      }
    case Redir(d, f, _) => StringsKept(b, b', text, d); WordKept(b, b', text, f);
    case Pipe(l, r) => StringsKept(b, b', text, l); StringsKept(b, b', text, r);
    case List(l, r) => StringsKept(b, b', text, l); StringsKept(b, b', text, r);
    case Back(d) => StringsKept(b, b', text, d);
  }

  lemma WordKept(b: seq<char>, b': seq<char>, text: string, w: Span)
    requires |text| < |b| && b[..|text|] == text && NulFree(text) && OnlyEnds(b, b', text) && IsWord(text, w)
    requires b'[w.eq] == '\0'
    ensures CString(b', w.q) == text[w.q..w.eq]
  {
    forall i | w.q <= i < w.eq ensures b'[i] == text[i] != '\0' { assert text[i] == b[..|text|][i] == b[i]; }
    WordString(b', text, w.q, w.eq);
  }
}
