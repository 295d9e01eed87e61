/**
 * The language the parser accepts, written down without it: derivation trees, their tokens, and the command that
 * each stands for.
 */
module ShellLanguage {
  import opened ShellSpec
  import opened ShellLaws
  import opened ShellTokens
  import R = ShellRoundTrip

  // ---- Derivation trees ----------------------------------------------------------------------------

  /** < f, > f or, with op +, >> f. */
  datatype Redirection = Into(op: char, f: string)

  /** A word and the redirections between it and the next. */
  datatype Word = Word(w: string, redirs: seq<Redirection>)

  /** A simple command, with redirections before its words too, or a line in parentheses. */
  datatype Atom = Plain(first: seq<Redirection>, words: seq<Word>) | Group(body: Line, redirs: seq<Redirection>)

  datatype Pipeline = Last(atom: Atom) | Then(atom: Atom, next: Pipeline)

  /** A pipeline, some &, and perhaps ; and another line. */
  datatype Line = Only(pipe: Pipeline, amps: nat) | Semi(pipe: Pipeline, amps: nat, next: Line)

  // ---- Their tokens --------------------------------------------------------------------------------

  function RedirToks(rs: seq<Redirection>, n: nat): seq<Tok>
    decreases |rs| - n
  {
    if n >= |rs| then [] else [S(rs[n].op), W(rs[n].f)] + RedirToks(rs, n + 1)
  }

  function WordToks(ws: seq<Word>, n: nat): seq<Tok>
    decreases |ws| - n
  {
    if n >= |ws| then [] else ([W(ws[n].w)] + RedirToks(ws[n].redirs, 0)) + WordToks(ws, n + 1)
  }

  function AmpToks(n: nat): seq<Tok> {
    if n == 0 then [] else [S('&')] + AmpToks(n - 1)
  }

  function AtomToks(a: Atom): seq<Tok>
    decreases a
  {
    match a
    case Plain(first, words) => RedirToks(first, 0) + WordToks(words, 0)
    case Group(body, redirs) => [S('(')] + (LineToks(body) + ([S(')')] + RedirToks(redirs, 0)))
  }

  function PipeToks(p: Pipeline): seq<Tok>
    decreases p
  {
    match p
    case Last(a) => AtomToks(a)
    case Then(a, next) => AtomToks(a) + ([S('|')] + PipeToks(next))
  }

  function LineToks(l: Line): seq<Tok>
    decreases l
  {
    match l
    case Only(p, amps) => PipeToks(p) + AmpToks(amps)
    case Semi(p, amps, next) => PipeToks(p) + (AmpToks(amps) + ([S(';')] + LineToks(next)))
  }

  // ---- What they stand for -------------------------------------------------------------------------

  /** t with the redirections from the n-th on around it, the last outermost. */
  function Over(t: Cmd<string>, rs: seq<Redirection>, n: nat): Cmd<string>
    decreases |rs| - n
  {
    if n >= |rs| then t else Over(Redir(t, rs[n].f, rs[n].op != '<'), rs, n + 1)
  }

  /** The words, in order, and all the redirections, in order. */
  function Names(ws: seq<Word>, n: nat): seq<string>
    requires n <= |ws|
  {
    if n == 0 then [] else Names(ws, n - 1) + [ws[n - 1].w]
  }

  function Redirs(first: seq<Redirection>, ws: seq<Word>, n: nat): seq<Redirection>
    requires n <= |ws|
  {
    if n == 0 then first else Redirs(first, ws, n - 1) + ws[n - 1].redirs
  }

  function Amped(t: Cmd<string>, n: nat): Cmd<string>
    decreases n
  {
    if n == 0 then t else Amped(Back(t), n - 1)
  }

  function AtomMeans(a: Atom): Cmd<string>
    decreases a
  {
    match a
    case Plain(first, words) => Over(Exec(Names(words, |words|)), Redirs(first, words, |words|), 0)
    case Group(body, redirs) => Over(LineMeans(body), redirs, 0)
  }

  function PipeMeans(p: Pipeline): Cmd<string>
    decreases p
  {
    match p
    case Last(a) => AtomMeans(a)
    case Then(a, next) => Pipe(AtomMeans(a), PipeMeans(next))
  }

  function LineMeans(l: Line): Cmd<string>
    decreases l
  {
    match l
    case Only(p, amps) => Amped(PipeMeans(p), amps)
    case Semi(p, amps, next) => List(Amped(PipeMeans(p), amps), LineMeans(next))
  }

  // ---- Which are legal -----------------------------------------------------------------------------

  ghost predicate LegalRedirs(rs: seq<Redirection>) {
    forall n {:trigger rs[n]} :: 0 <= n < |rs| ==> rs[n].op == '<' || rs[n].op == '>' || rs[n].op == '+'
  }

  ghost predicate LegalAtom(a: Atom)
    decreases a
  {
    match a
    case Plain(first, words) => LegalRedirs(first) && LegalWords(words)
    case Group(body, redirs) => LegalLine(body) && LegalRedirs(redirs)
  }

  ghost predicate LegalPipe(p: Pipeline)
    decreases p
  {
    LegalAtom(p.atom) && (p.Then? ==> LegalPipe(p.next))
  }

  ghost predicate LegalLine(l: Line)
    decreases l
  {
    LegalPipe(l.pipe) && (l.Semi? ==> LegalLine(l.next))
  }

  // ---- Tokens by position --------------------------------------------------------------------------

  /** The tokens us are at k. */
  ghost predicate Has(ts: seq<Tok>, k: nat, us: seq<Tok>) {
    k + |us| <= |ts| && forall i {:trigger us[i]} :: 0 <= i < |us| ==> us[i] == ts[k + i]
  }

  lemma HasSplit(ts: seq<Tok>, k: nat, us: seq<Tok>, vs: seq<Tok>)
    requires Has(ts, k, us + vs)
    ensures Has(ts, k, us) && Has(ts, k + |us|, vs)
  {
    var ws := us + vs;
    forall i | 0 <= i < |us| ensures us[i] == ts[k + i] { assert ws[i] == us[i]; }
    forall i | 0 <= i < |vs| ensures vs[i] == ts[k + |us| + i] { assert ws[|us| + i] == vs[i]; }
  }

  lemma HasOne(ts: seq<Tok>, k: nat, t: Tok)
    requires Has(ts, k, [t])
    ensures k < |ts| && ts[k] == t
  {
    assert [t][0] == ts[k + 0];
  }

  lemma HasTwo(ts: seq<Tok>, k: nat, t: Tok, u: Tok)
    requires Has(ts, k, [t, u])
    ensures k + 1 < |ts| && ts[k] == t && ts[k + 1] == u
  {
    assert [t, u][0] == ts[k + 0] && [t, u][1] == ts[k + 1];
  }

  /** The character token k begins with, if it is a symbol. */
  ghost predicate SymbolIn(ts: seq<Tok>, k: nat, toks: set<char>) {
    k < |ts| && ts[k].S? && (if ts[k].c == '+' then '>' else ts[k].c) in toks
  }

  /** What the parser sees of token k. */
  ghost predicate Sees(text: string, ts: seq<Tok>, at: seq<nat>, k: nat)
    requires k <= |ts| && |at| == |ts| + 1
  {
    && at[k] <= |text| && Skip(text, at[k]) == at[k]
    && (k < |ts| ==> Next(text, at[k]) == at[k + 1] && at[k + 1] <= |text| && at[k] < at[k + 1])
    && Kind(text, at[k]) == (if k == |ts| then '\0' else if ts[k].W? then 'a' else ts[k].c)
    && (k == |ts| ==> at[k] == |text|) && (k < |ts| && ts[k].S? ==> ts[k].c != 'a' && ts[k].c != '\0')
    && (k < |ts| && ts[k].W? ==> R.SpanIs(text, Span(at[k], TokenEnd(text, at[k])), ts[k].w))
  }

  lemma TokenSeen(text: string, ts: seq<Tok>, at: seq<nat>, k: nat)
    requires Lexed(text, ts, at) && k <= |ts|
    ensures Sees(text, ts, at, k)
  {
    if k < |ts| { assert LexedAt(text, ts, at, k); }
    if 0 < k { assert LexedAt(text, ts, at, k - 1); }
  }

  lemma PeekIff(text: string, ts: seq<Tok>, at: seq<nat>, k: nat, toks: set<char>)
    requires k <= |ts| && |at| == |ts| + 1 && Sees(text, ts, at, k) && forall c :: c in toks ==> Symbol(c)
    ensures Peeks(text, at[k], toks) <==> SymbolIn(ts, k, toks)
  {
  }

  // ---- Every legal sentence parses to what it stands for ---------------------------------------------

  /** A parse ends at token k with a command that is t. */
  ghost predicate Gives(text: string, at: seq<nat>, r: Parse, k: nat, t: Cmd<string>) {
    k < |at| && r.Ok? && r.pos == at[k] && R.Denotes(text, r.cmd, t)
  }

  /** One redirection. */
  lemma RedirOne(text: string, ts: seq<Tok>, at: seq<nat>, k: nat, op: char, f: string, c: Cmd<Span>,
                 t: Cmd<string>) returns (d: Cmd<Span>)
    requires Lexed(text, ts, at) && k + 2 <= |ts| && ts[k] == S(op) && ts[k + 1] == W(f)
    requires (op == '<' || op == '>' || op == '+') && R.Denotes(text, c, t)
    ensures R.Denotes(text, d, Redir(t, f, op != '<')) && at[k] <= |text| && at[k + 2] <= |text|
    ensures ParseRedirs(text, at[k], c) == ParseRedirs(text, at[k + 2], d)
  {
    TokenSeen(text, ts, at, k);
    TokenSeen(text, ts, at, k + 1);
    PeekIff(text, ts, at, k, REDIRS);
    var q := at[k + 1];
    d := Redir(c, Span(q, TokenEnd(text, q)), op != '<');
  }

  lemma RedirsEnd(text: string, ts: seq<Tok>, at: seq<nat>, k: nat, c: Cmd<Span>)
    requires Lexed(text, ts, at) && k <= |ts| && !SymbolIn(ts, k, REDIRS)
    ensures at[k] <= |text| && ParseRedirs(text, at[k], c) == Ok(c, at[k])
  {
    TokenSeen(text, ts, at, k);
    PeekIff(text, ts, at, k, REDIRS);
  }

  lemma {:induction false} RedirsRound(text: string, ts: seq<Tok>, at: seq<nat>, k: nat, m: nat, rs: seq<Redirection>,
                                       n: nat, c: Cmd<Span>,
                                       t: Cmd<string>)
    requires Lexed(text, ts, at) && Has(ts, k, RedirToks(rs, n)) && n <= |rs| && LegalRedirs(rs) && R.Denotes(text, c, t)
    requires m == k + |RedirToks(rs, n)| && !SymbolIn(ts, m, REDIRS)
    ensures k < |at| && at[k] <= |text| && Gives(text, at, ParseRedirs(text, at[k], c), m, Over(t, rs, n))
    decreases |rs| - n
  {
    if n == |rs| {
      RedirsEnd(text, ts, at, k, c);
    } else {
      var x := rs[n];
      HasSplit(ts, k, [S(x.op), W(x.f)], RedirToks(rs, n + 1));
      HasTwo(ts, k, S(x.op), W(x.f));
      var e := RedirOne(text, ts, at, k, x.op, x.f, c, t);
      RedirsRound(text, ts, at, k + 2, m, rs, n + 1, e, Redir(t, x.f, x.op != '<'));
    }
  }

  lemma {:induction false} DenotesAdd(text: string, c: Cmd<Span>, t: Cmd<string>, s: Span, w: string)
    requires R.Denotes(text, c, t) && R.SpanIs(text, s, w)
    ensures R.Denotes(text, AddArg(c, s), AddArg(t, w))
  {
    if c.Redir? { DenotesAdd(text, c.cmd, t.cmd, s, w); }
  }

  /** The command after the first i words and their redirections, as the parser builds it. */
  function Built(first: seq<Redirection>, ws: seq<Word>, i: nat): Cmd<string>
    requires i <= |ws|
  {
    if i == 0 then Over(Exec([]), first, 0) else Over(AddArg(Built(first, ws, i - 1), ws[i - 1].w), ws[i - 1].redirs, 0)
  }

  /** A word goes to the command inside the redirections. */
  lemma {:induction false} AddOver(t: Cmd<string>, rs: seq<Redirection>, n: nat, w: string)
    requires n <= |rs|
    ensures AddArg(Over(t, rs, n), w) == Over(AddArg(t, w), rs, n)
    decreases |rs| - n
  {
    if n < |rs| { AddOver(Redir(t, rs[n].f, rs[n].op != '<'), rs, n + 1, w); }
  }

  lemma {:induction false} OverMore(t: Cmd<string>, rs: seq<Redirection>, us: seq<Redirection>, n: nat)
    requires n <= |rs|
    ensures Over(Over(t, rs, n), us, 0) == Over(t, rs + us, n)
    decreases |rs| - n
  {
    if n < |rs| {
      OverMore(Redir(t, rs[n].f, rs[n].op != '<'), rs, us, n + 1);
      assert (rs + us)[n] == rs[n];
    } else {
      OverShift(t, rs, us, 0);
    }
  }

  lemma {:induction false} OverShift(t: Cmd<string>, rs: seq<Redirection>, us: seq<Redirection>, n: nat)
    requires n <= |us|
    ensures Over(t, us, n) == Over(t, rs + us, |rs| + n)
    decreases |us| - n
  {
    if n < |us| {
      assert (rs + us)[|rs| + n] == us[n];
      OverShift(Redir(t, us[n].f, us[n].op != '<'), rs, us, n + 1);
    }
  }

  /** What it builds is all the words, with all the redirections around them. */
  lemma {:induction false} BuiltIs(first: seq<Redirection>, ws: seq<Word>, i: nat)
    requires i <= |ws|
    ensures Built(first, ws, i) == Over(Exec(Names(ws, i)), Redirs(first, ws, i), 0)
  {
    if i > 0 {
      BuiltIs(first, ws, i - 1);
      AddOver(Exec(Names(ws, i - 1)), Redirs(first, ws, i - 1), 0, ws[i - 1].w);
      OverMore(Exec(Names(ws, i)), Redirs(first, ws, i - 1), ws[i - 1].redirs, 0);
    }
  }

  /** The tokens after a command: none, or a symbol of sym. */
  ghost predicate Followed(ts: seq<Tok>, k: nat, sym: set<char>) {
    k <= |ts| && (k < |ts| ==> ts[k].S? && ts[k].c in sym)
  }

  /** One word, when what follows it parses to redirections up to token m. */
  lemma ArgOne(text: string, ts: seq<Tok>, at: seq<nat>, k: nat, w: string, c: Cmd<Span>, argc: nat, d: Cmd<Span>, m: nat)
    requires Lexed(text, ts, at) && k < |ts| && ts[k] == W(w) && argc + 1 < MAXARGS && m <= |ts| && at[k] <= |text|
    requires at[k + 1] <= |text|
    requires ParseRedirs(text, at[k + 1], AddArg(c, Span(at[k], TokenEnd(text, Skip(text, at[k]))))) == Ok(d, at[m])
    ensures at[m] <= |text| && ParseArgs(text, at[k], c, argc) == ParseArgs(text, at[m], d, argc + 1)
  {
    TokenSeen(text, ts, at, k);
    TokenSeen(text, ts, at, m);
    PeekIff(text, ts, at, k, STOPS);
    assert ParseArg(text, at[k], c, argc) == More(d, at[m]);
  }

  /** The words end where a symbol follows that ends them. */
  lemma ArgsEnd(text: string, ts: seq<Tok>, at: seq<nat>, k: nat, c: Cmd<Span>, argc: nat)
    requires Lexed(text, ts, at) && Followed(ts, k, {'|', ')', '&', ';'})
    ensures at[k] <= |text| && ParseArgs(text, at[k], c, argc) == Ok(c, at[k])
  {
    TokenSeen(text, ts, at, k);
    PeekIff(text, ts, at, k, STOPS);
    assert ParseArg(text, at[k], c, argc) == Done(Ok(c, at[k]));
  }

  /** A word and its redirections. */
  lemma ArgRound(text: string, ts: seq<Tok>, at: seq<nat>, k: nat, x: Word, c: Cmd<Span>, t: Cmd<string>, argc: nat)
    returns (d: Cmd<Span>, m: nat)
    requires Lexed(text, ts, at) && Has(ts, k, [W(x.w)] + RedirToks(x.redirs, 0)) && LegalRedirs(x.redirs)
    requires R.Denotes(text, c, t)
    requires argc + 1 < MAXARGS && !SymbolIn(ts, k + 1 + |RedirToks(x.redirs, 0)|, REDIRS)
    ensures m == k + 1 + |RedirToks(x.redirs, 0)| && m < |at| && at[k] <= |text| && at[m] <= |text|
    ensures R.Denotes(text, d, Over(AddArg(t, x.w), x.redirs, 0))
    ensures ParseArgs(text, at[k], c, argc) == ParseArgs(text, at[m], d, argc + 1)
  {
    HasSplit(ts, k, [W(x.w)], RedirToks(x.redirs, 0));
    HasOne(ts, k, W(x.w));
    TokenSeen(text, ts, at, k);
    var s := Span(at[k], TokenEnd(text, at[k]));
    DenotesAdd(text, c, t, s, x.w);
    m := k + 1 + |RedirToks(x.redirs, 0)|;
    RedirsRound(text, ts, at, k + 1, m, x.redirs, 0, AddArg(c, s), AddArg(t, x.w));
    var r := ParseRedirs(text, at[k + 1], AddArg(c, s));
    d := r.cmd;
    ArgOne(text, ts, at, k, x.w, c, argc, d, m);
  }

  /** After word i comes another word or the end of the command: no redirection. */
  lemma NoRedirNext(ts: seq<Tok>, k: nat, ws: seq<Word>, i: nat)
    requires Has(ts, k, WordToks(ws, i)) && Followed(ts, k + |WordToks(ws, i)|, {'|', ')', '&', ';'})
    ensures !SymbolIn(ts, k, REDIRS)
  {
    if i < |ws| {
      HasSplit(ts, k, [W(ws[i].w)] + RedirToks(ws[i].redirs, 0), WordToks(ws, i + 1));
      HasSplit(ts, k, [W(ws[i].w)], RedirToks(ws[i].redirs, 0));
      HasOne(ts, k, W(ws[i].w));
    }
  }

  ghost predicate LegalWords(ws: seq<Word>) {
    |ws| < MAXARGS && forall n {:trigger ws[n]} :: 0 <= n < |ws| ==> LegalRedirs(ws[n].redirs)
  }

  ghost predicate ArgsGive(text: string, at: seq<nat>, k: nat, c: Cmd<Span>, argc: nat, m: nat, t: Cmd<string>) {
    k < |at| && at[k] <= |text| && Gives(text, at, ParseArgs(text, at[k], c, argc), m, t)
  }

  lemma {:induction false} ArgsRound(text: string, ts: seq<Tok>, at: seq<nat>, k: nat, m: nat, first: seq<Redirection>,
                                     ws: seq<Word>, i: nat,
                                     c: Cmd<Span>)
    requires Lexed(text, ts, at) && Has(ts, k, WordToks(ws, i)) && i <= |ws| && LegalWords(ws)
    requires R.Denotes(text, c, Built(first, ws, i)) && m == k + |WordToks(ws, i)| && Followed(ts, m, {'|', ')', '&', ';'})
    ensures ArgsGive(text, at, k, c, i, m, Built(first, ws, |ws|))
    decreases |ws| - i
  {
    if i == |ws| {
      ArgsEnd(text, ts, at, k, c, i);
    } else {
      var x := ws[i];
      var us := [W(x.w)] + RedirToks(x.redirs, 0);
      HasSplit(ts, k, us, WordToks(ws, i + 1));
      NoRedirNext(ts, k + |us|, ws, i + 1);
      var d, j := ArgRound(text, ts, at, k, x, c, Built(first, ws, i), i);
      ArgsRound(text, ts, at, j, m, first, ws, i + 1, d);
    }
  }

  /** A simple command does not begin with a parenthesis. */
  lemma PlainBegins(ts: seq<Tok>, k: nat, first: seq<Redirection>, ws: seq<Word>)
    requires Has(ts, k, RedirToks(first, 0) + WordToks(ws, 0)) && LegalRedirs(first)
    requires Followed(ts, k + |RedirToks(first, 0) + WordToks(ws, 0)|, {'|', ')', '&', ';'})
    ensures !SymbolIn(ts, k, {'('})
  {
    HasSplit(ts, k, RedirToks(first, 0), WordToks(ws, 0));
    if first != [] {
      HasSplit(ts, k, [S(first[0].op), W(first[0].f)], RedirToks(first, 1));
      HasTwo(ts, k, S(first[0].op), W(first[0].f));
    } else if ws != [] {
      HasSplit(ts, k, [W(ws[0].w)] + RedirToks(ws[0].redirs, 0), WordToks(ws, 1));
      HasSplit(ts, k, [W(ws[0].w)], RedirToks(ws[0].redirs, 0));
      HasOne(ts, k, W(ws[0].w));
    }
  }

  lemma PlainStep(text: string, ts: seq<Tok>, at: seq<nat>, k: nat, j: nat, c: Cmd<Span>)
    requires Lexed(text, ts, at) && k <= |ts| && !SymbolIn(ts, k, {'('}) && j <= |ts|
    requires at[k] <= |text| && ParseRedirs(text, at[k], Exec([])) == Ok(c, at[j])
    ensures at[j] <= |text| && ParseExec(text, at[k]) == ParseArgs(text, at[j], c, 0)
  {
    TokenSeen(text, ts, at, k);
    PeekIff(text, ts, at, k, {'('});
  }

  ghost predicate ExecGives(text: string, at: seq<nat>, k: nat, m: nat, t: Cmd<string>) {
    k < |at| && at[k] <= |text| && Gives(text, at, ParseExec(text, at[k]), m, t)
  }

  /** The redirections before the words. */
  lemma FirstRedirs(text: string, ts: seq<Tok>, at: seq<nat>, k: nat, j: nat, first: seq<Redirection>) returns (c: Cmd<Span>)
    requires Lexed(text, ts, at) && !SymbolIn(ts, k, {'('}) && LegalRedirs(first)
    requires Has(ts, k, RedirToks(first, 0)) && j == k + |RedirToks(first, 0)| && !SymbolIn(ts, j, REDIRS)
    ensures at[k] <= |text| && at[j] <= |text| && ParseExec(text, at[k]) == ParseArgs(text, at[j], c, 0)
    ensures R.Denotes(text, c, Over(Exec([]), first, 0))
  {
    RedirsRound(text, ts, at, k, j, first, 0, Exec([]), Exec([]));
    c := ParseRedirs(text, at[k], Exec([])).cmd;
    PlainStep(text, ts, at, k, j, c);
  }

  lemma PlainMeans(first: seq<Redirection>, ws: seq<Word>)
    ensures AtomMeans(Plain(first, ws)) == Built(first, ws, |ws|)
  {
    BuiltIs(first, ws, |ws|);
  }

  lemma PlainRound(text: string, ts: seq<Tok>, at: seq<nat>, k: nat, j: nat, m: nat, first: seq<Redirection>, ws: seq<Word>)
    requires Lexed(text, ts, at) && LegalRedirs(first) && LegalWords(ws) && !SymbolIn(ts, k, {'('})
    requires Has(ts, k, RedirToks(first, 0)) && j == k + |RedirToks(first, 0)| && Has(ts, j, WordToks(ws, 0))
    requires m == j + |WordToks(ws, 0)| && Followed(ts, m, {'|', ')', '&', ';'})
    ensures ExecGives(text, at, k, m, Built(first, ws, |ws|))
  {
    NoRedirNext(ts, j, ws, 0);
    var c := FirstRedirs(text, ts, at, k, j, first);
    ArgsRound(text, ts, at, j, m, first, ws, 0, c);
  }

  /** A line in parentheses, when what they enclose parses to c, up to token m. */
  lemma GroupStep(text: string, ts: seq<Tok>, at: seq<nat>, k: nat, m: nat, c: Cmd<Span>)
    requires Lexed(text, ts, at) && k + 1 <= m < |ts| && ts[k] == S('(') && ts[m] == S(')')
    requires at[k + 1] <= |text| && ParseLine(text, at[k + 1]) == Ok(c, at[m])
    ensures at[k] <= |text| && at[m + 1] <= |text| && ParseExec(text, at[k]) == ParseRedirs(text, at[m + 1], c)
  {
    TokenSeen(text, ts, at, k);
    TokenSeen(text, ts, at, m);
    PeekIff(text, ts, at, k, {'('});
    PeekIff(text, ts, at, m, {')'});
    assert ParseBlock(text, at[k]) == ParseRedirs(text, at[m + 1], c);
  }

  lemma GroupHas(ts: seq<Tok>, k: nat, body: Line, redirs: seq<Redirection>, j: nat)
    requires Has(ts, k, AtomToks(Group(body, redirs))) && j == k + 1 + |LineToks(body)|
    ensures j < |ts| && ts[k] == S('(') && Has(ts, k + 1, LineToks(body)) && ts[j] == S(')')
    ensures Has(ts, j + 1, RedirToks(redirs, 0))
    ensures k + |AtomToks(Group(body, redirs))| == j + 1 + |RedirToks(redirs, 0)|
  {
    var us := [S(')')] + RedirToks(redirs, 0);
    HasSplit(ts, k, [S('(')], LineToks(body) + us);
    HasOne(ts, k, S('('));
    HasSplit(ts, k + 1, LineToks(body), us);
    HasSplit(ts, j, [S(')')], RedirToks(redirs, 0));
    HasOne(ts, j, S(')'));
  }

  lemma GroupGives(text: string, ts: seq<Tok>, at: seq<nat>, k: nat, j: nat, m: nat, redirs: seq<Redirection>,
                   t: Cmd<string>)
    requires Lexed(text, ts, at) && k < j < |ts| && ts[k] == S('(') && LineGives(text, at, k + 1, j, t) && ts[j] == S(')')
    requires Has(ts, j + 1, RedirToks(redirs, 0)) && m == j + 1 + |RedirToks(redirs, 0)| && LegalRedirs(redirs)
    requires !SymbolIn(ts, m, REDIRS)
    ensures ExecGives(text, at, k, m, Over(t, redirs, 0))
  {
    var c := ParseLine(text, at[k + 1]).cmd;
    GroupStep(text, ts, at, k, j, c);
    RedirsRound(text, ts, at, j + 1, m, redirs, 0, c, t);
  }

  lemma {:induction false} AtomRound(text: string, ts: seq<Tok>, at: seq<nat>, k: nat, m: nat, a: Atom)
    requires Lexed(text, ts, at) && LegalAtom(a) && Has(ts, k, AtomToks(a))
    requires m == k + |AtomToks(a)| && Followed(ts, m, {'|', ')', '&', ';'})
    ensures ExecGives(text, at, k, m, AtomMeans(a))
    decreases a
  {
    match a
    case Plain(first, ws) =>
      PlainBegins(ts, k, first, ws);
      HasSplit(ts, k, RedirToks(first, 0), WordToks(ws, 0));
      PlainRound(text, ts, at, k, k + |RedirToks(first, 0)|, m, first, ws);
      PlainMeans(first, ws);
    case Group(body, redirs) =>
      var j := k + 1 + |LineToks(body)|;
      GroupHas(ts, k, body, redirs, j);
      LineRound(text, ts, at, k + 1, j, body);
      GroupGives(text, ts, at, k, j, m, redirs, LineMeans(body));
  }

  lemma PipeLast(text: string, ts: seq<Tok>, at: seq<nat>, k: nat, m: nat)
    requires Lexed(text, ts, at) && k <= |ts| && at[k] <= |text| && ParseExec(text, at[k]).Ok?
    requires Followed(ts, m, {')', '&', ';'})
    requires ParseExec(text, at[k]).pos == at[m]
    ensures ParsePipe(text, at[k]) == ParseExec(text, at[k])
  {
    TokenSeen(text, ts, at, m);
    PeekIff(text, ts, at, m, {'|'});
  }

  lemma PipeThen(text: string, ts: seq<Tok>, at: seq<nat>, k: nat, j: nat)
    requires Lexed(text, ts, at) && k <= |ts| && j < |ts| && at[k] <= |text| && ParseExec(text, at[k]).Ok? && ts[j] == S('|')
    requires ParseExec(text, at[k]).pos == at[j] && at[j + 1] <= |text| && ParsePipe(text, at[j + 1]).Ok?
    ensures var r, s := ParseExec(text, at[k]), ParsePipe(text, at[j + 1]);
            ParsePipe(text, at[k]) == Ok(Pipe(r.cmd, s.cmd), s.pos)
  {
    TokenSeen(text, ts, at, j);
    PeekIff(text, ts, at, j, {'|'});
  }

  lemma {:induction false} PipeRound(text: string, ts: seq<Tok>, at: seq<nat>, k: nat, m: nat, p: Pipeline)
    requires Lexed(text, ts, at) && LegalPipe(p) && Has(ts, k, PipeToks(p))
    requires m == k + |PipeToks(p)| && Followed(ts, m, {')', '&', ';'})
    ensures k < |at| && at[k] <= |text| && Gives(text, at, ParsePipe(text, at[k]), m, PipeMeans(p))
    decreases p, 0
  {
    match p
    case Last(a) =>
      AtomRound(text, ts, at, k, m, a);
      PipeLast(text, ts, at, k, m);
    case Then(a, next) =>
      var j := k + |AtomToks(a)|;
      HasSplit(ts, k, AtomToks(a), [S('|')] + PipeToks(next));
      HasSplit(ts, j, [S('|')], PipeToks(next));
      HasOne(ts, j, S('|'));
      AtomRound(text, ts, at, k, j, a);
      PipeRound(text, ts, at, j + 1, m, next);
      PipeThen(text, ts, at, k, j);
  }

  lemma {:induction false} BackRound(text: string, ts: seq<Tok>, at: seq<nat>, k: nat, m: nat, n: nat, c: Cmd<Span>,
                                     t: Cmd<string>)
    requires Lexed(text, ts, at) && Has(ts, k, AmpToks(n)) && m == k + |AmpToks(n)|
    requires Followed(ts, m, {')', ';'}) && R.Denotes(text, c, t)
    ensures k < |at| && at[k] <= |text| && Gives(text, at, ParseBack(text, at[k], c), m, Amped(t, n))
    decreases n
  {
    TokenSeen(text, ts, at, k);
    PeekIff(text, ts, at, k, {'&'});
    if n > 0 {
      HasSplit(ts, k, [S('&')], AmpToks(n - 1));
      HasOne(ts, k, S('&'));
      BackRound(text, ts, at, k + 1, m, n - 1, Back(c), Back(t));
    }
  }

  /** parseline at token k is parsepipe, up to token j, and ampersands, up to token i. */
  ghost predicate Amps(text: string, at: seq<nat>, k: nat, j: nat, i: nat, t: Cmd<string>) {
    && k < |at| && at[k] <= |text| && j < |at| && at[j] <= |text|
    && ParsePipe(text, at[k]).Ok? && ParsePipe(text, at[k]).pos == at[j]
    && Gives(text, at, ParseBack(text, at[j], ParsePipe(text, at[k]).cmd), i, t)
  }

  ghost predicate LineGives(text: string, at: seq<nat>, k: nat, m: nat, t: Cmd<string>) {
    k < |at| && at[k] <= |text| && Gives(text, at, ParseLine(text, at[k]), m, t)
  }

  lemma LineOnly(text: string, ts: seq<Tok>, at: seq<nat>, k: nat, j: nat, m: nat, t: Cmd<string>)
    requires Lexed(text, ts, at) && Amps(text, at, k, j, m, t) && Followed(ts, m, {')'})
    ensures LineGives(text, at, k, m, t)
  {
    TokenSeen(text, ts, at, m);
    PeekIff(text, ts, at, m, {';'});
  }

  lemma LineSemi(text: string, ts: seq<Tok>, at: seq<nat>, k: nat, j: nat, i: nat, m: nat, t: Cmd<string>, u: Cmd<string>)
    requires Lexed(text, ts, at) && Amps(text, at, k, j, i, t) && i < |ts| && ts[i] == S(';')
    requires LineGives(text, at, i + 1, m, u)
    ensures LineGives(text, at, k, m, List(t, u))
  {
    TokenSeen(text, ts, at, i);
    PeekIff(text, ts, at, i, {';'});
  }

  lemma OnlyHas(ts: seq<Tok>, k: nat, p: Pipeline, amps: nat)
    requires Has(ts, k, LineToks(Only(p, amps)))
    ensures Has(ts, k, PipeToks(p)) && Has(ts, k + |PipeToks(p)|, AmpToks(amps))
    ensures |LineToks(Only(p, amps))| == |PipeToks(p)| + |AmpToks(amps)|
  {
    HasSplit(ts, k, PipeToks(p), AmpToks(amps));
  }

  lemma SemiHas(ts: seq<Tok>, k: nat, p: Pipeline, amps: nat, next: Line, i: nat)
    requires Has(ts, k, LineToks(Semi(p, amps, next))) && i == k + |PipeToks(p)| + |AmpToks(amps)|
    ensures Has(ts, k, PipeToks(p)) && Has(ts, k + |PipeToks(p)|, AmpToks(amps)) && i < |ts| && ts[i] == S(';')
    ensures Has(ts, i + 1, LineToks(next)) && k + |LineToks(Semi(p, amps, next))| == i + 1 + |LineToks(next)|
  {
    var us := [S(';')] + LineToks(next);
    HasSplit(ts, k, PipeToks(p), AmpToks(amps) + us);
    HasSplit(ts, k + |PipeToks(p)|, AmpToks(amps), us);
    HasSplit(ts, i, [S(';')], LineToks(next));
    HasOne(ts, i, S(';'));
  }

  lemma {:induction false} LineRound(text: string, ts: seq<Tok>, at: seq<nat>, k: nat, m: nat, l: Line)
    requires Lexed(text, ts, at) && LegalLine(l) && Has(ts, k, LineToks(l))
    requires m == k + |LineToks(l)| && Followed(ts, m, {')'})
    ensures LineGives(text, at, k, m, LineMeans(l))
    decreases l, 2
  {
    var j := k + |PipeToks(l.pipe)|;
    var i := j + |AmpToks(l.amps)|;
    var t := Amped(PipeMeans(l.pipe), l.amps);
    match l
    case Only(p, amps) =>
      OnlyHas(ts, k, p, amps);
      PipeAmps(text, ts, at, k, j, i, p, amps);
      LineOnly(text, ts, at, k, j, m, t);
    case Semi(p, amps, next) =>
      SemiHas(ts, k, p, amps, next, i);
      PipeAmps(text, ts, at, k, j, i, p, amps);
      LineRound(text, ts, at, i + 1, m, next);
      LineSemi(text, ts, at, k, j, i, m, t, LineMeans(next));
  }

  lemma AmpsFollow(ts: seq<Tok>, j: nat, n: nat)
    requires Has(ts, j, AmpToks(n)) && Followed(ts, j + |AmpToks(n)|, {')', ';'})
    ensures Followed(ts, j, {')', '&', ';'})
  {
    if n > 0 {
      HasSplit(ts, j, [S('&')], AmpToks(n - 1));
      HasOne(ts, j, S('&'));
    }
  }

  /** A pipeline and its ampersands. */
  lemma {:induction false} PipeAmps(text: string, ts: seq<Tok>, at: seq<nat>, k: nat, j: nat, i: nat, p: Pipeline, amps: nat)
    requires Lexed(text, ts, at) && LegalPipe(p) && Has(ts, k, PipeToks(p)) && j == k + |PipeToks(p)|
    requires Has(ts, j, AmpToks(amps)) && i == j + |AmpToks(amps)| && Followed(ts, i, {')', ';'})
    ensures Amps(text, at, k, j, i, Amped(PipeMeans(p), amps))
    decreases p, 1
  {
    AmpsFollow(ts, j, amps);
    PipeRound(text, ts, at, k, j, p);
    BackRound(text, ts, at, j, i, amps, ParsePipe(text, at[k]).cmd, PipeMeans(p));
  }

  lemma {:induction false} LeadingWhite(text: string, p: nat)
    requires p <= |text|
    ensures ParseLine(text, p) == ParseLine(text, Skip(text, p))
  {
    RedirsWhite(text, p, Exec([]));
    assert ParseExec(text, p) == ParseExec(text, Skip(text, p));
    assert ParsePipe(text, p) == ParsePipe(text, Skip(text, p));
  }

  lemma RedirsWhite(text: string, p: nat, c: Cmd<Span>)
    requires p <= |text|
    ensures ParseRedirs(text, p, c) == ParseRedirs(text, Skip(text, p), c)
  {
  }

  /**
   * Every legal sentence, however it is spaced, parses to the command it stands for: simple commands end at | & ; )
   * or the end of the text, words keep their order, pipelines and lists nest to the right.
   */
  lemma SentenceParses(text: string, ts: seq<Tok>, at: seq<nat>, l: Line) returns (c: Cmd<Span>)
    requires Lexed(text, ts, at) && ts == LineToks(l) && LegalLine(l)
    ensures ParseCmd(text) == Ok(c, |text|) && R.Denotes(text, c, LineMeans(l))
  {
    LineRound(text, ts, at, 0, |ts|, l);
    TokenSeen(text, ts, at, 0);
    LeadingWhite(text, 0);
    c := ParseLine(text, at[0]).cmd;
  }
}
