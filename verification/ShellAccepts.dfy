/** The other direction: whatever the parser accepts is a legal sentence, so that it accepts exactly those. */
module ShellAccepts {
  import opened ShellSpec
  import opened ShellLaws
  import opened ShellTokens
  import opened ShellLanguage
  import R = ShellRoundTrip

  lemma HasJoin(ts: seq<Tok>, k: nat, us: seq<Tok>, vs: seq<Tok>)
    requires Has(ts, k, us) && Has(ts, k + |us|, vs)
    ensures Has(ts, k, us + vs)
  {
    var ws := us + vs;
    forall i | 0 <= i < |ws| ensures ws[i] == ts[k + i] {
      if i < |us| { assert us[i] == ts[k + i]; } else { assert vs[i - |us|] == ts[k + |us| + (i - |us|)]; }
    }
  }

  lemma HasThis(ts: seq<Tok>, k: nat)
    requires k < |ts|
    ensures Has(ts, k, [ts[k]])
  {
  }

  lemma {:induction false} RedirShift(x: Redirection, rs: seq<Redirection>, n: nat)
    requires n <= |rs|
    ensures RedirToks([x] + rs, n + 1) == RedirToks(rs, n)
    decreases |rs| - n
  {
    if n < |rs| {
      assert ([x] + rs)[n + 1] == rs[n];
      RedirShift(x, rs, n + 1);
    }
  }

  lemma {:induction false} WordShift(x: Word, ws: seq<Word>, n: nat)
    requires n <= |ws|
    ensures WordToks([x] + ws, n + 1) == WordToks(ws, n)
    decreases |ws| - n
  {
    if n < |ws| {
      assert ([x] + ws)[n + 1] == ws[n];
      WordShift(x, ws, n + 1);
    }
  }

  // ---- Redirections ----------------------------------------------------------------------------------

  /** Tokens k to m are the redirections rs. */
  ghost predicate RedirsFrom(ts: seq<Tok>, k: nat, m: nat, rs: seq<Redirection>) {
    LegalRedirs(rs) && Has(ts, k, RedirToks(rs, 0)) && m == k + |RedirToks(rs, 0)|
  }

  lemma RedirMore(ts: seq<Tok>, k: nat, m: nat, op: char, f: string, rs: seq<Redirection>)
    requires k + 1 < |ts| && ts[k] == S(op) && ts[k + 1] == W(f) && (op == '<' || op == '>' || op == '+')
    requires RedirsFrom(ts, k + 2, m, rs)
    ensures RedirsFrom(ts, k, m, [Into(op, f)] + rs)
  {
    var x := Into(op, f);
    RedirShift(x, rs, 0);
    HasThis(ts, k);
    HasThis(ts, k + 1);
    HasJoin(ts, k, [S(op)], [W(f)]);
    assert [S(op)] + [W(f)] == [S(op), W(f)];
    HasJoin(ts, k, [S(op), W(f)], RedirToks(rs, 0));
    assert ([x] + rs)[0] == x;
    assert RedirToks([x] + rs, 0) == [S(op), W(f)] + RedirToks(rs, 0);
  }

  lemma {:induction false} RedirsDerive(text: string, ts: seq<Tok>, at: seq<nat>, k: nat,
                                        c: Cmd<Span>) returns (rs: seq<Redirection>, m: nat)
    requires Lexed(text, ts, at) && k <= |ts| && at[k] <= |text| && ParseRedirs(text, at[k], c).Ok?
    ensures RedirsFrom(ts, k, m, rs) && m <= |ts| && ParseRedirs(text, at[k], c).pos == at[m] && !SymbolIn(ts, m, REDIRS)
    decreases |ts| - k
  {
    TokenSeen(text, ts, at, k);
    PeekIff(text, ts, at, k, REDIRS);
    if SymbolIn(ts, k, REDIRS) {
      TokenSeen(text, ts, at, k + 1);
      var q := at[k + 1];
      var d := Redir(c, Span(q, TokenEnd(text, q)), Kind(text, at[k]) != '<');
      rs, m := RedirsDerive(text, ts, at, k + 2, d);
      RedirMore(ts, k, m, ts[k].c, ts[k + 1].w, rs);
      rs := [Into(ts[k].c, ts[k + 1].w)] + rs;
    } else {
      rs, m := [], k;
    }
  }

  // ---- Simple commands ---------------------------------------------------------------------------------

  ghost predicate WordsFrom(ts: seq<Tok>, k: nat, m: nat, ws: seq<Word>) {
    LegalWords(ws) && Has(ts, k, WordToks(ws, 0)) && m == k + |WordToks(ws, 0)|
  }

  lemma WordMore(ts: seq<Tok>, k: nat, j: nat, m: nat, w: string, rs: seq<Redirection>, ws: seq<Word>)
    requires k < |ts| && ts[k] == W(w) && RedirsFrom(ts, k + 1, j, rs) && WordsFrom(ts, j, m, ws) && |ws| + 1 < MAXARGS
    ensures WordsFrom(ts, k, m, [Word(w, rs)] + ws)
  {
    var x := Word(w, rs);
    var xs := [x] + ws;
    WordShift(x, ws, 0);
    HasThis(ts, k);
    HasJoin(ts, k, [W(w)], RedirToks(rs, 0));
    HasJoin(ts, k, [W(w)] + RedirToks(rs, 0), WordToks(ws, 0));
    assert xs[0] == x && WordToks(xs, 0) == ([W(w)] + RedirToks(rs, 0)) + WordToks(ws, 0);
    forall n | 0 <= n < |xs| ensures LegalRedirs(xs[n].redirs) { if n > 0 { assert xs[n] == ws[n - 1]; } }
  }

  /** One turn of the words. */
  lemma ArgDerives(text: string, ts: seq<Tok>, at: seq<nat>, k: nat, c: Cmd<Span>, argc: nat) returns (w: string,
                   rs: seq<Redirection>, j: nat)
    requires Lexed(text, ts, at) && k <= |ts| && at[k] <= |text| && ParseArg(text, at[k], c, argc).More?
    ensures k < |ts| && ts[k] == W(w) && argc + 1 < MAXARGS && RedirsFrom(ts, k + 1, j, rs) && j <= |ts|
    ensures ParseArg(text, at[k], c, argc).pos == at[j]
  {
    TokenSeen(text, ts, at, k);
    w := ts[k].w;
    rs, j := RedirsDerive(text, ts, at, k + 1, AddArg(c, Span(at[k], TokenEnd(text, at[k]))));
  }

  lemma ArgsStop(text: string, ts: seq<Tok>, at: seq<nat>, k: nat, c: Cmd<Span>, argc: nat)
    requires Lexed(text, ts, at) && k <= |ts| && at[k] <= |text|
    requires ParseArg(text, at[k], c, argc).Done? && ParseArg(text, at[k], c, argc).parse.Ok?
    ensures ParseArg(text, at[k], c, argc).parse.pos == at[k] && Followed(ts, k, {'|', ')', '&', ';'})
  {
    TokenSeen(text, ts, at, k);
    PeekIff(text, ts, at, k, STOPS);
  }

  lemma {:induction false} ArgsDerive(text: string, ts: seq<Tok>, at: seq<nat>, k: nat, c: Cmd<Span>,
                                      argc: nat) returns (ws: seq<Word>, m: nat)
    requires Lexed(text, ts, at) && k <= |ts| && at[k] <= |text| && argc < MAXARGS && ParseArgs(text, at[k], c, argc).Ok?
    ensures WordsFrom(ts, k, m, ws) && argc + |ws| < MAXARGS && m <= |ts| && ParseArgs(text, at[k], c, argc).pos == at[m]
    ensures Followed(ts, m, {'|', ')', '&', ';'})
    decreases |ts| - k
  {
    var s := ParseArg(text, at[k], c, argc);
    if s.Done? {
      ArgsStop(text, ts, at, k, c, argc);
      ws, m := [], k;
    } else {
      var w, rs, j := ArgDerives(text, ts, at, k, c, argc);
      ws, m := ArgsDerive(text, ts, at, j, s.cmd, argc + 1);
      WordMore(ts, k, j, m, w, rs, ws);
      ws := [Word(w, rs)] + ws;
    }
  }

  // ---- Commands --------------------------------------------------------------------------------------------

  ghost predicate AtomFrom(ts: seq<Tok>, k: nat, m: nat, a: Atom) {
    LegalAtom(a) && Has(ts, k, AtomToks(a)) && m == k + |AtomToks(a)|
  }

  ghost predicate PipeFrom(ts: seq<Tok>, k: nat, m: nat, p: Pipeline) {
    LegalPipe(p) && Has(ts, k, PipeToks(p)) && m == k + |PipeToks(p)|
  }

  ghost predicate LineFrom(ts: seq<Tok>, k: nat, m: nat, l: Line) {
    LegalLine(l) && Has(ts, k, LineToks(l)) && m == k + |LineToks(l)|
  }

  lemma PlainFrom(ts: seq<Tok>, k: nat, j: nat, m: nat, first: seq<Redirection>, ws: seq<Word>)
    requires RedirsFrom(ts, k, j, first) && WordsFrom(ts, j, m, ws)
    ensures AtomFrom(ts, k, m, Plain(first, ws))
  {
    HasJoin(ts, k, RedirToks(first, 0), WordToks(ws, 0));
  }

  lemma GroupFrom(ts: seq<Tok>, k: nat, j: nat, m: nat, body: Line, redirs: seq<Redirection>)
    requires k < |ts| && ts[k] == S('(') && LineFrom(ts, k + 1, j, body) && j < |ts| && ts[j] == S(')')
    requires RedirsFrom(ts, j + 1, m, redirs)
    ensures AtomFrom(ts, k, m, Group(body, redirs))
  {
    HasThis(ts, k);
    HasThis(ts, j);
    HasJoin(ts, j, [S(')')], RedirToks(redirs, 0));
    HasJoin(ts, k + 1, LineToks(body), [S(')')] + RedirToks(redirs, 0));
    HasJoin(ts, k, [S('(')], LineToks(body) + ([S(')')] + RedirToks(redirs, 0)));
  }

  lemma ThenFrom(ts: seq<Tok>, k: nat, j: nat, m: nat, a: Atom, p: Pipeline)
    requires AtomFrom(ts, k, j, a) && j < |ts| && ts[j] == S('|') && PipeFrom(ts, j + 1, m, p)
    ensures PipeFrom(ts, k, m, Then(a, p))
  {
    HasThis(ts, j);
    HasJoin(ts, j, [S('|')], PipeToks(p));
    HasJoin(ts, k, AtomToks(a), [S('|')] + PipeToks(p));
  }

  lemma {:induction false} BackDerives(text: string, ts: seq<Tok>, at: seq<nat>, k: nat, c: Cmd<Span>) returns (n: nat,
                                       m: nat)
    requires Lexed(text, ts, at) && k <= |ts| && at[k] <= |text|
    ensures Has(ts, k, AmpToks(n)) && m == k + |AmpToks(n)| && m <= |ts| && ParseBack(text, at[k], c).pos == at[m]
    decreases |ts| - k
  {
    TokenSeen(text, ts, at, k);
    PeekIff(text, ts, at, k, {'&'});
    if SymbolIn(ts, k, {'&'}) {
      n, m := BackDerives(text, ts, at, k + 1, Back(c));
      HasThis(ts, k);
      HasJoin(ts, k, [S('&')], AmpToks(n));
      n := n + 1;
    } else {
      n, m := 0, k;
    }
  }

  lemma OnlyFrom(ts: seq<Tok>, k: nat, j: nat, m: nat, p: Pipeline, n: nat)
    requires PipeFrom(ts, k, j, p) && Has(ts, j, AmpToks(n)) && m == j + |AmpToks(n)|
    ensures LineFrom(ts, k, m, Only(p, n))
  {
    HasJoin(ts, k, PipeToks(p), AmpToks(n));
  }

  lemma SemiFrom(ts: seq<Tok>, k: nat, j: nat, i: nat, m: nat, p: Pipeline, n: nat, next: Line)
    requires PipeFrom(ts, k, j, p) && Has(ts, j, AmpToks(n)) && i == j + |AmpToks(n)|
    requires i < |ts| && ts[i] == S(';') && LineFrom(ts, i + 1, m, next)
    ensures LineFrom(ts, k, m, Semi(p, n, next))
  {
    HasThis(ts, i);
    HasJoin(ts, i, [S(';')], LineToks(next));
    HasJoin(ts, j, AmpToks(n), [S(';')] + LineToks(next));
    HasJoin(ts, k, PipeToks(p), AmpToks(n) + ([S(';')] + LineToks(next)));
  }

  /** Does token k begin with this symbol?  As the parser sees it. */
  lemma Sym(text: string, ts: seq<Tok>, at: seq<nat>, k: nat, c: char)
    requires Lexed(text, ts, at) && k <= |ts| && c in {'(', ')', '|', '&', ';'}
    ensures at[k] <= |text| && Skip(text, at[k]) == at[k] && (Peeks(text, at[k], {c}) <==> k < |ts| && ts[k] == S(c))
    ensures k < |ts| ==> Next(text, at[k]) == at[k + 1] && at[k] < at[k + 1] <= |text|
  {
    TokenSeen(text, ts, at, k);
    PeekIff(text, ts, at, k, {c});
  }

  lemma {:induction false} ExecDerives(text: string, ts: seq<Tok>, at: seq<nat>, k: nat) returns (a: Atom, m: nat)
    requires Lexed(text, ts, at) && k <= |ts| && at[k] <= |text| && ParseExec(text, at[k]).Ok?
    ensures AtomFrom(ts, k, m, a) && m <= |ts| && ParseExec(text, at[k]).pos == at[m]
    decreases |ts| - k, 1
  {
    Sym(text, ts, at, k, '(');
    if k < |ts| && ts[k] == S('(') {
      a, m := BlockDerives(text, ts, at, k);
    } else {
      var first, j := RedirsDerive(text, ts, at, k, Exec([]));
      var ws;
      ws, m := ArgsDerive(text, ts, at, j, ParseRedirs(text, at[k], Exec([])).cmd, 0);
      PlainFrom(ts, k, j, m, first, ws);
      a := Plain(first, ws);
    }
  }

  lemma {:induction false} BlockDerives(text: string, ts: seq<Tok>, at: seq<nat>, k: nat) returns (a: Atom, m: nat)
    requires Lexed(text, ts, at) && k < |ts| && ts[k] == S('(') && at[k] <= |text| && ParseExec(text, at[k]).Ok?
    ensures AtomFrom(ts, k, m, a) && m <= |ts| && ParseExec(text, at[k]).pos == at[m]
    decreases |ts| - k, 0
  {
    Sym(text, ts, at, k, '(');
    assert ParseExec(text, at[k]) == ParseBlock(text, at[k]);
    var body, j := LineDerives(text, ts, at, k + 1);
    Sym(text, ts, at, j, ')');
    var redirs;
    redirs, m := RedirsDerive(text, ts, at, j + 1, ParseLine(text, at[k + 1]).cmd);
    GroupFrom(ts, k, j, m, body, redirs);
    a := Group(body, redirs);
  }

  lemma {:induction false} PipeDerives(text: string, ts: seq<Tok>, at: seq<nat>, k: nat) returns (p: Pipeline, m: nat)
    requires Lexed(text, ts, at) && k <= |ts| && at[k] <= |text| && ParsePipe(text, at[k]).Ok?
    ensures PipeFrom(ts, k, m, p) && m <= |ts| && ParsePipe(text, at[k]).pos == at[m]
    decreases |ts| - k, 2
  {
    var a, j := ExecDerives(text, ts, at, k);
    Sym(text, ts, at, j, '|');
    if j < |ts| && ts[j] == S('|') {
      p, m := PipeDerives(text, ts, at, j + 1);
      ThenFrom(ts, k, j, m, a, p);
      p := Then(a, p);
    } else {
      p, m := Last(a), j;
    }
  }

  lemma {:induction false} LineDerives(text: string, ts: seq<Tok>, at: seq<nat>, k: nat) returns (l: Line, m: nat)
    requires Lexed(text, ts, at) && k <= |ts| && at[k] <= |text| && ParseLine(text, at[k]).Ok?
    ensures LineFrom(ts, k, m, l) && m <= |ts| && ParseLine(text, at[k]).pos == at[m]
    decreases |ts| - k, 3
  {
    var p, j := PipeDerives(text, ts, at, k);
    Sym(text, ts, at, j, ';');
    var n, i := BackDerives(text, ts, at, j, ParsePipe(text, at[k]).cmd);
    Sym(text, ts, at, i, ';');
    if i < |ts| && ts[i] == S(';') {
      l, m := LineDerives(text, ts, at, i + 1);
      SemiFrom(ts, k, j, i, m, p, n, l);
      l := Semi(p, n, l);
    } else {
      OnlyFrom(ts, k, j, i, p, n);
      l, m := Only(p, n), i;
    }
  }

  // ---- Exactly the legal sentences ---------------------------------------------------------------------------

  /** The tokens of the text from p on. */
  lemma {:induction false} ReadFrom(text: string, p: nat) returns (ts: seq<Tok>, at: seq<nat>)
    requires p <= |text| && NulFree(text)
    ensures |at| == |ts| + 1 && at[0] == Skip(text, p) && at[|ts|] == |text|
    ensures forall k: nat :: k < |ts| ==> LexedAt(text, ts, at, k)
    decreases |text| - p
  {
    var q := Skip(text, p);
    if q == |text| {
      ts, at := [], [q];
    } else {
      var e := TokenEnd(text, q);
      var us, bs := ReadFrom(text, e);
      var t := if Kind(text, q) == 'a' then W(text[q..e]) else S(Kind(text, q));
      ts, at := [t] + us, [q] + bs;
      forall k: nat | k < |ts| ensures LexedAt(text, ts, at, k) { if k > 0 { assert LexedAt(text, us, bs, k - 1); } }
    }
  }

  /** Every line has tokens. */
  lemma EveryTextReads(text: string) returns (ts: seq<Tok>, at: seq<nat>)
    requires NulFree(text)
    ensures Lexed(text, ts, at)
  {
    ts, at := ReadFrom(text, 0);
  }

  /** The parser accepts a line exactly if its tokens are those of a legal sentence, and then gives what that stands for. */
  lemma AcceptsExactly(text: string, ts: seq<Tok>, at: seq<nat>)
    requires Lexed(text, ts, at)
    ensures ParseCmd(text).Ok? <==> exists l :: LegalLine(l) && ts == LineToks(l)
    ensures forall l :: LegalLine(l) && ts == LineToks(l) ==> ParseCmd(text).Ok? && R.Denotes(text, ParseCmd(text).cmd, LineMeans(l))
  {
    forall l | LegalLine(l) && ts == LineToks(l) ensures ParseCmd(text).Ok? && R.Denotes(text, ParseCmd(text).cmd, LineMeans(l)) {
      var c := SentenceParses(text, ts, at, l);
    }
    if ParseCmd(text).Ok? { var l := Accepted(text, ts, at); }
  }

  lemma Accepted(text: string, ts: seq<Tok>, at: seq<nat>) returns (l: Line)
    requires Lexed(text, ts, at) && ParseCmd(text).Ok?
    ensures LegalLine(l) && ts == LineToks(l)
  {
    TokenSeen(text, ts, at, 0);
    LeadingWhite(text, 0);
    var m;
    l, m := LineDerives(text, ts, at, 0);
    TokenSeen(text, ts, at, m);
    var us := LineToks(l);
    forall i | 0 <= i < |us| ensures us[i] == ts[i] { assert us[i] == ts[0 + i]; }
  }

  /** However a legal sentence is spaced, it parses to what it stands for. */
  lemma SpacedParses(text: string, l: Line, gaps: seq<string>) returns (c: Cmd<Span>)
    requires LegalLine(l) && Spaced(LineToks(l), gaps) && text == Text(LineToks(l), gaps, 0)
    ensures ParseCmd(text) == Ok(c, |text|) && R.Denotes(text, c, LineMeans(l))
  {
    var at := SpacedReads(text, LineToks(l), gaps);
    c := SentenceParses(text, LineToks(l), at, l);
  }

  // ---- Every tree, with as few parentheses as it needs --------------------------------------------------------

  function Base(t: Cmd<string>): (b: Cmd<string>)
    ensures !b.Redir? && (t.Redir? ==> b < t) && (!t.Redir? ==> b == t)
  {
    if t.Redir? then Base(t.cmd) else t
  }

  function Chain(t: Cmd<string>): seq<Redirection> {
    if t.Redir? then Chain(t.cmd) + [Into(if t.out then '>' else '<', t.file)] else []
  }

  function Backs(t: Cmd<string>): nat {
    if t.Back? then Backs(t.cmd) + 1 else 0
  }

  function Unback(t: Cmd<string>): (b: Cmd<string>)
    ensures !b.Back? && (t.Back? ==> b < t) && (!t.Back? ==> b == t)
  {
    if t.Back? then Unback(t.cmd) else t
  }

  function Bare(args: seq<string>): (ws: seq<Word>)
    ensures |ws| == |args| && forall i {:trigger ws[i]} :: 0 <= i < |ws| ==> ws[i] == Word(args[i], [])
  {
    seq(|args|, i requires 0 <= i < |args| => Word(args[i], []))
  }

  predicate Simple(t: Cmd<string>) {
    t.Exec? || t.Redir?
  }

  /** A command that is part of a pipeline: in parentheses only if it is a pipeline, a list or in the background. */
  function AtomOf(t: Cmd<string>): Atom
    decreases t, if Simple(t) then 0 else 1
  {
    var b := Base(t);
    if b.Exec? then Plain(Chain(t), Bare(b.args)) else Group(LineOf(b), Chain(t))
  }

  function PipeOf(t: Cmd<string>): Pipeline
    decreases t, if Simple(t) then 1 else 2
  {
    if t.Pipe? then Then(AtomOf(t.left), PipeOf(t.right)) else Last(AtomOf(t))
  }

  function LineOf(t: Cmd<string>): Line
    decreases t, if Simple(t) then 2 else 0
  {
    match t
    case List(l, r) => Semi(PipeOf(Unback(l)), Backs(l), LineOf(r))
    case Pipe(l, r) => Only(Then(AtomOf(l), PipeOf(r)), 0)
    case Back(_) => Only(PipeOf(Unback(t)), Backs(t))
    case _ => Only(Last(AtomOf(t)), 0)
  }

  lemma {:induction false} ChainOver(t: Cmd<string>)
    ensures Over(Base(t), Chain(t), 0) == t
  {
    if t.Redir? {
      ChainOver(t.cmd);
      OverMore(Base(t), Chain(t.cmd), [Into(if t.out then '>' else '<', t.file)], 0);
    }
  }

  lemma {:induction false} AmpedMore(t: Cmd<string>, n: nat)
    ensures Amped(t, n + 1) == Back(Amped(t, n))
    decreases n
  {
    if n > 0 { AmpedMore(Back(t), n - 1); }
  }

  lemma {:induction false} BacksAmped(t: Cmd<string>)
    ensures Amped(Unback(t), Backs(t)) == t
  {
    if t.Back? {
      BacksAmped(t.cmd);
      AmpedMore(Unback(t), Backs(t.cmd));
    }
  }

  lemma {:induction false} BareNames(args: seq<string>, n: nat)
    requires n <= |args|
    ensures Names(Bare(args), n) == args[..n]
  {
    if n > 0 { BareNames(args, n - 1); }
  }

  lemma {:induction false} BareRedirs(first: seq<Redirection>, args: seq<string>, n: nat)
    requires n <= |args|
    ensures Redirs(first, Bare(args), n) == first
  {
    if n > 0 { BareRedirs(first, args, n - 1); }
  }

  lemma {:induction false} AtomOfMeans(t: Cmd<string>)
    ensures AtomMeans(AtomOf(t)) == t
    decreases t, if Simple(t) then 0 else 1
  {
    var b := Base(t);
    ChainOver(t);
    if b.Exec? {
      BareNames(b.args, |b.args|);
      assert b.args[..|b.args|] == b.args;
      BareRedirs(Chain(t), b.args, |b.args|);
    } else {
      LineOfMeans(b);
    }
  }

  lemma {:induction false} PipeOfMeans(t: Cmd<string>)
    ensures PipeMeans(PipeOf(t)) == t
    decreases t, if Simple(t) then 1 else 2
  {
    if t.Pipe? {
      AtomOfMeans(t.left);
      PipeOfMeans(t.right);
    } else {
      AtomOfMeans(t);
    }
  }

  /** The sentence of a tree stands for the tree. */
  lemma {:induction false} LineOfMeans(t: Cmd<string>)
    ensures LineMeans(LineOf(t)) == t
    decreases t, if Simple(t) then 2 else 0
  {
    match t
    case List(l, r) =>
      PipeOfMeans(Unback(l));
      BacksAmped(l);
      LineOfMeans(r);
    case Pipe(l, r) =>
      AtomOfMeans(l);
      PipeOfMeans(r);
    case Back(_) =>
      PipeOfMeans(Unback(t));
      BacksAmped(t);
    case _ => AtomOfMeans(t);
  }

  ghost predicate AllLegal(ts: seq<Tok>) {
    forall k {:trigger ts[k]} :: 0 <= k < |ts| ==> LegalTok(ts[k])
  }

  lemma WordLegal(w: string)
    requires R.Word(w)
    ensures LegalTok(W(w))
  {
    forall i | 0 <= i < |w| ensures w[i] !in BLANKS && w[i] !in SYMBOLS && w[i] != '\0' { BlankIsWhite(w[i]); }
  }

  lemma SymLegal(c: char)
    requires Symbol(c)
    ensures AllLegal([S(c)])
  {
    BlankIsWhite(c);
  }

  lemma {:induction false} ChainLegal(t: Cmd<string>)
    requires R.WellFormed(t)
    ensures LegalRedirs(Chain(t)) && R.WellFormed(Base(t)) && forall n :: 0 <= n < |Chain(t)| ==> R.Word(Chain(t)[n].f)
  {
    if t.Redir? { ChainLegal(t.cmd); }
  }

  lemma {:induction false} RedirToksLegal(rs: seq<Redirection>, n: nat)
    requires LegalRedirs(rs) && n <= |rs| && forall i :: 0 <= i < |rs| ==> R.Word(rs[i].f)
    ensures AllLegal(RedirToks(rs, n))
    decreases |rs| - n
  {
    if n < |rs| {
      WordLegal(rs[n].f);
      if rs[n].op != '+' { SymLegal(rs[n].op); assert LegalTok([S(rs[n].op)][0]); }
      RedirToksLegal(rs, n + 1);
    }
  }

  lemma {:induction false} BareLegal(args: seq<string>, n: nat)
    requires R.AllWords(args) && n <= |args|
    ensures AllLegal(WordToks(Bare(args), n))
    decreases |args| - n
  {
    if n < |args| {
      WordLegal(args[n]);
      BareLegal(args, n + 1);
    }
  }

  lemma {:induction false} AmpsLegal(n: nat)
    ensures AllLegal(AmpToks(n))
  {
    SymLegal('&');
    assert LegalTok([S('&')][0]);
    if n > 0 { AmpsLegal(n - 1); }
  }

  lemma {:induction false} UnbackFormed(t: Cmd<string>)
    requires R.WellFormed(t)
    ensures R.WellFormed(Unback(t))
  {
    if t.Back? { UnbackFormed(t.cmd); }
  }

  lemma JoinLegal(us: seq<Tok>, c: char, vs: seq<Tok>)
    requires AllLegal(us) && Symbol(c) && AllLegal(vs)
    ensures AllLegal(us + ([S(c)] + vs)) && AllLegal([S(c)] + vs) && AllLegal(us + vs)
  {
    SymLegal(c);
    assert LegalTok([S(c)][0]);
  }

  lemma {:induction false} AtomOfLegal(t: Cmd<string>)
    requires R.WellFormed(t)
    ensures LegalAtom(AtomOf(t)) && AllLegal(AtomToks(AtomOf(t)))
    decreases t, if Simple(t) then 0 else 1
  {
    var b, rs := Base(t), Chain(t);
    ChainLegal(t);
    RedirToksLegal(rs, 0);
    if b.Exec? {
      BareLegal(b.args, 0);
    } else {
      LineOfLegal(b);
      JoinLegal(LineToks(LineOf(b)), ')', RedirToks(rs, 0));
      JoinLegal([], '(', LineToks(LineOf(b)) + ([S(')')] + RedirToks(rs, 0)));
    }
  }

  lemma {:induction false} PipeOfLegal(t: Cmd<string>)
    requires R.WellFormed(t)
    ensures LegalPipe(PipeOf(t)) && AllLegal(PipeToks(PipeOf(t)))
    decreases t, if Simple(t) then 1 else 2
  {
    if t.Pipe? {
      AtomOfLegal(t.left);
      PipeOfLegal(t.right);
      JoinLegal(AtomToks(AtomOf(t.left)), '|', PipeToks(PipeOf(t.right)));
    } else {
      AtomOfLegal(t);
    }
  }

  lemma {:induction false} LineOfLegal(t: Cmd<string>)
    requires R.WellFormed(t)
    ensures LegalLine(LineOf(t)) && AllLegal(LineToks(LineOf(t)))
    decreases t, if Simple(t) then 2 else 0
  {
    match t
    case List(l, r) =>
      UnbackFormed(l);
      PipeOfLegal(Unback(l));
      AmpsLegal(Backs(l));
      LineOfLegal(r);
      JoinLegal(AmpToks(Backs(l)), ';', LineToks(LineOf(r)));
    case Pipe(l, r) =>
      AtomOfLegal(l);
      PipeOfLegal(r);
      JoinLegal(AtomToks(AtomOf(l)), '|', PipeToks(PipeOf(r)));
    case Back(_) =>
      UnbackFormed(t);
      PipeOfLegal(Unback(t));
      AmpsLegal(Backs(t));
    case _ => AtomOfLegal(t);
  }

  /** The text of a tree with no more parentheses than it needs, and a blank around each token. */
  ghost function Brief(t: Cmd<string>): string {
    Text(LineToks(LineOf(t)), seq(|LineToks(LineOf(t))| + 1, i => " "), 0)
  }

  /** Every well-formed tree, written so, parses to itself. */
  lemma BriefRoundTrip(t: Cmd<string>) returns (c: Cmd<Span>)
    requires R.WellFormed(t)
    ensures ParseCmd(Brief(t)) == Ok(c, |Brief(t)|) && R.Denotes(Brief(t), c, t)
  {
    LineOfLegal(t);
    LineOfMeans(t);
    var ts := LineToks(LineOf(t));
    var gaps := seq(|ts| + 1, i => " ");
    assert BLANKS[0] == ' ';
    c := SpacedParses(Brief(t), LineOf(t), gaps);
  }
}
