/** Every tree the parser yields, written out with parentheses, parses to the same tree. */
module ShellRoundTrip {
  import opened ShellSpec
  import opened ShellLaws

  // ---- Trees of strings and their canonical text -------------------------------------------------

  /** The string w is at p. */
  ghost predicate Here(text: string, p: nat, w: string) {
    p + |w| <= |text| && forall i {:trigger w[i]} :: 0 <= i < |w| ==> w[i] == text[p + i]
  }

  /** The span is the string w. */
  ghost predicate SpanIs(text: string, s: Span, w: string) {
    s.eq == s.q + |w| && Here(text, s.q, w)
  }

  /** The first k words of args are those of ws. */
  ghost predicate Spells(text: string, args: seq<Span>, ws: seq<string>, k: nat) {
    |args| >= k && |ws| >= k && forall i :: 0 <= i < k ==> SpanIs(text, args[i], ws[i])
  }

  /** Parsed command c is the command t. */
  ghost predicate Denotes(text: string, c: Cmd<Span>, t: Cmd<string>)
    decreases c
  {
    match c
    case Exec(args) => t.Exec? && |args| == |t.args| && Spells(text, args, t.args, |args|)
    case Redir(d, f, out) => t.Redir? && Denotes(text, d, t.cmd) && SpanIs(text, f, t.file) && out == t.out
    case Pipe(l, r) => t.Pipe? && Denotes(text, l, t.left) && Denotes(text, r, t.right)
    case List(l, r) => t.List? && Denotes(text, l, t.left) && Denotes(text, r, t.right)
    case Back(d) => t.Back? && Denotes(text, d, t.cmd)
  }

  ghost predicate Word(w: string) {
    |w| > 0 && forall i {:trigger w[i]} :: 0 <= i < |w| ==> WordChar(w[i]) && w[i] != '\0'
  }

  ghost predicate AllWords(ws: seq<string>) {
    forall i :: 0 <= i < |ws| ==> Word(ws[i])
  }

  ghost predicate WellFormed(t: Cmd<string>) {
    match t
    case Exec(args) => |args| < MAXARGS && AllWords(args)
    case Redir(d, f, _) => WellFormed(d) && Word(f)
    case Pipe(l, r) => WellFormed(l) && WellFormed(r)
    case List(l, r) => WellFormed(l) && WellFormed(r)
    case Back(d) => WellFormed(d)
  }

  /** The words from the k-th on, each with a blank after it. */
  ghost function Words(ws: seq<string>, k: nat): string
    decreases |ws| - k
  {
    if k >= |ws| then "" else (ws[k] + " ") + Words(ws, k + 1)
  }

  ghost function Paren(s: string): string {
    ("(" + s) + ")"
  }

  ghost function Render(t: Cmd<string>): string {
    match t
    case Exec(args) => Words(args, 0)
    case Redir(d, f, out) => Paren(Render(d)) + ((if out then ">" else "<") + f)
    case Pipe(l, r) => Paren(Render(l)) + ("|" + Paren(Render(r)))
    case List(l, r) => Paren(Render(l)) + (";" + Paren(Render(r)))
    case Back(d) => Paren(Render(d)) + ("&" + "")
  }

  // ---- The layout of the text, by position ---------------------------------------------------------

  ghost predicate Mark(text: string, p: nat, c: char) {
    p < |text| && text[p] == c
  }

  /** The text has the word w at p. */
  ghost predicate WordHere(text: string, p: nat, w: string) {
    Word(w) && Here(text, p, w)
  }

  ghost predicate WordsHere(text: string, p: nat, ws: seq<string>, k: nat)
    decreases |ws| - k
  {
    k < |ws| ==> WordHere(text, p, ws[k]) && Mark(text, p + |ws[k]|, ' ') && WordsHere(text, p + |ws[k]| + 1, ws, k + 1)
  }

  ghost function WordsLen(ws: seq<string>, k: nat): nat
    decreases |ws| - k
  {
    if k >= |ws| then 0 else |ws[k]| + 1 + WordsLen(ws, k + 1)
  }

  /** The end of the text or a closing parenthesis. */
  ghost predicate Stop(text: string, p: nat) {
    p <= |text| && (p < |text| ==> text[p] == ')')
  }

  // ---- Words ---------------------------------------------------------------------------------------

  lemma {:induction false} WordEndIs(text: string, p: nat, e: nat)
    requires p <= e <= |text| && (forall i :: p <= i < e ==> WordChar(text[i])) && (e == |text| || !WordChar(text[e]))
    ensures WordEnd(text, p) == e
    decreases e - p
  {
    if p < e { WordEndIs(text, p + 1, e); }
  }

  /** A word followed by something else is the next token. */
  lemma WordToken(text: string, p: nat, w: string)
    requires WordHere(text, p, w) && (p + |w| == |text| || !WordChar(text[p + |w|]))
    ensures Skip(text, p) == p && Kind(text, p) == 'a' && TokenEnd(text, p) == p + |w|
    ensures WordChar(text[p]) && text[p] != '\0'
  {
    forall i | p <= i < p + |w| ensures WordChar(text[i]) && text[i] != '\0' { assert w[i - p] == text[i]; }
    assert WordChar(text[p]);
    WordEndIs(text, p, p + |w|);
  }

  /** What a list of words begins with. */
  lemma WordsBegin(text: string, p: nat, ws: seq<string>, k: nat)
    requires WordsHere(text, p, ws, k) && Stop(text, p + WordsLen(ws, k))
    ensures p <= |text| && Skip(text, p) == p && !Peeks(text, p, REDIRS) && !Peeks(text, p, {'('})
  {
    if k < |ws| { WordToken(text, p, ws[k]); }
  }

  /** With argc words in c, one turn of the loop goes on to c' at p'. */
  ghost predicate Leads(text: string, p: nat, c: Cmd<Span>, argc: nat, p': nat, c': Cmd<Span>) {
    p <= |text| && p' <= |text| && ParseArgs(text, p, c, argc) == ParseArgs(text, p', c', argc + 1)
  }

  lemma ArgStep(text: string, p: nat, e: nat, c: Cmd<Span>, argc: nat)
    requires p < e < |text| && Skip(text, p) == p && Kind(text, p) == 'a' && TokenEnd(text, p) == e && argc + 1 < MAXARGS
    requires WordChar(text[p]) && White(text[e]) && Skip(text, e + 1) == e + 1 && !Peeks(text, e + 1, REDIRS)
    ensures Leads(text, p, c, argc, e + 1, AddArg(c, Span(p, e)))
  {
    assert Next(text, p) == e + 1;
    assert ParseArg(text, p, c, argc) == More(AddArg(c, Span(p, e)), e + 1);
  }

  /** One word and the blank after it are consumed. */
  lemma WordStep(text: string, p: nat, c: Cmd<Span>, ws: seq<string>, k: nat)
    requires WordsHere(text, p, ws, k) && Stop(text, p + WordsLen(ws, k)) && k < |ws| && k + 1 < MAXARGS
    ensures SpanIs(text, Span(p, p + |ws[k]|), ws[k])
    ensures Leads(text, p, c, k, p + |ws[k]| + 1, AddArg(c, Span(p, p + |ws[k]|)))
  {
    var e := p + |ws[k]|;
    WordToken(text, p, ws[k]);
    WordsBegin(text, e + 1, ws, k + 1);
    ArgStep(text, p, e, c, k);
  }

  /** A plain command with the first k words of ws. */
  ghost predicate IsExec(text: string, c: Cmd<Span>, ws: seq<string>, k: nat) {
    c.Exec? && |c.args| == k && Spells(text, c.args, ws, k)
  }

  lemma ExecMore(text: string, c: Cmd<Span>, ws: seq<string>, k: nat, s: Span)
    requires IsExec(text, c, ws, k) && k < |ws| && SpanIs(text, s, ws[k])
    ensures IsExec(text, AddArg(c, s), ws, k + 1)
  {
  }

  lemma NoWords(text: string, p: nat, c: Cmd<Span>, argc: nat)
    requires Stop(text, p)
    ensures ParseArgs(text, p, c, argc) == Ok(c, p)
  {
    assert ParseArg(text, p, c, argc) == Done(Ok(c, p));
  }

  lemma {:induction false} WordsRound(text: string, p: nat, c: Cmd<Span>, ws: seq<string>, k: nat) returns (d: Cmd<Span>)
    requires WordsHere(text, p, ws, k) && Stop(text, p + WordsLen(ws, k)) && k <= |ws| < MAXARGS && IsExec(text, c, ws, k)
    ensures p <= |text| && ParseArgs(text, p, c, k) == Ok(d, p + WordsLen(ws, k)) && IsExec(text, d, ws, |ws|)
    decreases |ws| - k
  {
    if k == |ws| {
      NoWords(text, p, c, k);
      d := c;
    } else {
      var s := Span(p, p + |ws[k]|);
      WordStep(text, p, c, ws, k);
      ExecMore(text, c, ws, k, s);
      d := WordsRound(text, s.eq + 1, AddArg(c, s), ws, k + 1);
    }
  }

  // ---- Commands ------------------------------------------------------------------------------------

  /** The length of the canonical text. */
  ghost function Len(t: Cmd<string>): nat {
    match t
    case Exec(ws) => WordsLen(ws, 0)
    case Redir(d, f, _) => Len(d) + 3 + |f|
    case Pipe(l, r) => Len(l) + 3 + Len(r) + 2
    case List(l, r) => Len(l) + 3 + Len(r) + 2
    case Back(d) => Len(d) + 3
  }

  ghost predicate Block(text: string, p: nat, t: Cmd<string>)
    decreases t, 1
  {
    Mark(text, p, '(') && Shows(text, p + 1, t) && Mark(text, p + 1 + Len(t), ')')
  }

  /** The text has the canonical text of t at p. */
  ghost predicate Shows(text: string, p: nat, t: Cmd<string>)
    decreases t, 0
  {
    match t
    case Exec(ws) => |ws| < MAXARGS && WordsHere(text, p, ws, 0)
    case Redir(d, f, out) => Block(text, p, d) && Mark(text, p + Len(d) + 2, if out then '>' else '<') && WordHere(text, p + Len(d) + 3, f)
    case Pipe(l, r) => Block(text, p, l) && Mark(text, p + Len(l) + 2, '|') && Block(text, p + Len(l) + 3, r)
    case List(l, r) => Block(text, p, l) && Mark(text, p + Len(l) + 2, ';') && Block(text, p + Len(l) + 3, r)
    case Back(d) => Block(text, p, d) && Mark(text, p + Len(d) + 2, '&')
  }

  /** What may follow a command without being part of it. */
  ghost predicate Follows(text: string, p: nat) {
    p <= |text| && (p < |text| ==> text[p] == ')' || text[p] == '|' || text[p] == ';' || text[p] == '&')
  }

  /** A parse of t that ends at e. */
  ghost predicate Yields(text: string, r: Parse, t: Cmd<string>, e: nat) {
    r.Ok? && r.pos == e && Denotes(text, r.cmd, t)
  }

  /** If parseexec stops at the end of a line, so does parseline. */
  lemma Finish(text: string, p: nat, e: nat)
    requires p <= |text| && Stop(text, e) && ParseExec(text, p).Ok? && ParseExec(text, p).pos == e
    ensures ParsePipe(text, p) == ParseExec(text, p) == ParseLine(text, p)
  {
  }

  lemma PlainRound(text: string, p: nat, ws: seq<string>)
    requires WordsHere(text, p, ws, 0) && |ws| < MAXARGS && Stop(text, p + WordsLen(ws, 0))
    ensures p <= |text| && Yields(text, ParseExec(text, p), Exec(ws), p + WordsLen(ws, 0))
  {
    WordsBegin(text, p, ws, 0);
    var d := WordsRound(text, p, Exec([]), ws, 0);
  }

  ghost predicate ExecIs(text: string, p: nat, c: Cmd<Span>, e: nat) {
    p <= |text| && ParseExec(text, p) == Ok(c, e)
  }

  ghost predicate LineIs(text: string, p: nat, c: Cmd<Span>, e: nat) {
    p <= |text| && ParseLine(text, p) == Ok(c, e)
  }

  /** What parseexec does at p is to parse redirections of c from e on. */
  ghost predicate ExecRedirs(text: string, p: nat, e: nat, c: Cmd<Span>) {
    p <= |text| && e <= |text| && ParseExec(text, p) == ParseRedirs(text, e, c)
  }

  ghost predicate RedirsIs(text: string, e: nat, c: Cmd<Span>, c': Cmd<Span>, e': nat) {
    e <= |text| && ParseRedirs(text, e, c) == Ok(c', e')
  }

  lemma RedirsDone(text: string, p: nat, e: nat, c: Cmd<Span>, c': Cmd<Span>, e': nat)
    requires ExecRedirs(text, p, e, c) && RedirsIs(text, e, c, c', e')
    ensures ExecIs(text, p, c', e')
  {
  }

  /** A one-character token. */
  lemma MarkToken(text: string, p: nat, c: char)
    requires Mark(text, p, c) && Symbol(c) && (c == '>' ==> Char(text, p + 1) != '>') && Skip(text, p + 1) == p + 1
    ensures Skip(text, p) == p && Kind(text, p) == c && Next(text, p) == p + 1
    ensures forall toks: set<char> :: Peeks(text, p, toks) <==> c in toks
  {
  }

  /** A command in parentheses, when what they enclose parses to c, up to m. */
  lemma BlockStep(text: string, p: nat, m: nat, c: Cmd<Span>)
    requires Mark(text, p, '(') && Skip(text, p + 1) == p + 1 && LineIs(text, p + 1, c, m)
    requires Mark(text, m, ')') && Skip(text, m + 1) == m + 1
    ensures ExecRedirs(text, p, m + 1, c)
  {
    MarkToken(text, p, '(');
    MarkToken(text, m, ')');
    assert ParseBlock(text, p) == ParseRedirs(text, m + 1, c);
  }

  lemma NoRedir(text: string, e: nat, c: Cmd<Span>)
    requires Follows(text, e)
    ensures Skip(text, e) == e && RedirsIs(text, e, c, c, e)
  {
  }

  lemma ExecEnds(text: string, p: nat, c: Cmd<Span>, e: nat)
    requires ExecIs(text, p, c, e) && Stop(text, e)
    ensures LineIs(text, p, c, e)
  {
    Finish(text, p, e);
  }

  lemma PipeStep(text: string, p: nat, e: nat, c: Cmd<Span>, e': nat, c': Cmd<Span>)
    requires ExecIs(text, p, c, e) && Mark(text, e, '|') && Skip(text, e + 1) == e + 1
    requires ExecIs(text, e + 1, c', e') && Stop(text, e')
    ensures LineIs(text, p, Pipe(c, c'), e')
  {
    MarkToken(text, e, '|');
    Finish(text, e + 1, e');
    assert ParsePipe(text, p) == Ok(Pipe(c, c'), e');
    LineEnds(text, p, Pipe(c, c'), e');
  }

  lemma LineEnds(text: string, p: nat, c: Cmd<Span>, e: nat)
    requires p <= |text| && ParsePipe(text, p) == Ok(c, e) && Stop(text, e)
    ensures ParseLine(text, p) == Ok(c, e)
  {
  }

  lemma ListStep(text: string, p: nat, e: nat, c: Cmd<Span>, e': nat, c': Cmd<Span>)
    requires ExecIs(text, p, c, e) && Mark(text, e, ';') && Skip(text, e + 1) == e + 1
    requires ExecIs(text, e + 1, c', e') && Stop(text, e')
    ensures LineIs(text, p, List(c, c'), e')
  {
    MarkToken(text, e, ';');
    Finish(text, e + 1, e');
    assert ParsePipe(text, p) == Ok(c, e);
    LineGoesOn(text, p, e, c, Ok(c', e'));
  }

  lemma LineGoesOn(text: string, p: nat, e: nat, c: Cmd<Span>, r: Parse)
    requires p <= |text| && ParsePipe(text, p) == Ok(c, e) && Mark(text, e, ';') && Skip(text, e + 1) == e + 1
    requires r.Ok? && r == ParseLine(text, e + 1)
    ensures ParseLine(text, p) == Ok(List(c, r.cmd), r.pos)
  {
    MarkToken(text, e, ';');
    assert ParseBack(text, e, c) == Ok(c, e);
  }

  lemma BackStep(text: string, p: nat, e: nat, c: Cmd<Span>)
    requires ExecIs(text, p, c, e) && Mark(text, e, '&') && Stop(text, e + 1)
    ensures LineIs(text, p, Back(c), e + 1)
  {
    MarkToken(text, e, '&');
    assert ParsePipe(text, p) == Ok(c, e);
    assert ParseBack(text, e + 1, Back(c)) == Ok(Back(c), e + 1);
    assert ParseBack(text, e, c) == Ok(Back(c), e + 1);
  }

  lemma RedirStep(text: string, e: nat, c: Cmd<Span>, out: bool, w: string)
    requires Mark(text, e, if out then '>' else '<') && WordHere(text, e + 1, w) && Stop(text, e + 1 + |w|)
    ensures RedirsIs(text, e, c, Redir(c, Span(e + 1, e + 1 + |w|), out), e + 1 + |w|)
  {
    WordToken(text, e + 1, w);
    MarkToken(text, e, if out then '>' else '<');
    var d := Redir(c, Span(e + 1, e + 1 + |w|), out);
    assert ParseRedirs(text, e + 1 + |w|, d) == Ok(d, e + 1 + |w|);
  }

  lemma Begins(text: string, p: nat, t: Cmd<string>)
    requires Shows(text, p, t) && Stop(text, p + Len(t))
    ensures p <= |text| && Skip(text, p) == p
  {
    if t.Exec? { WordsBegin(text, p, t.args, 0); }
  }

  /** A command in parentheses, followed by something that is not a redirection. */
  lemma {:induction false} ExecRound(text: string, p: nat, t: Cmd<string>, e: nat) returns (c: Cmd<Span>)
    requires Block(text, p, t) && e == p + Len(t) + 2 && Follows(text, e)
    ensures ExecIs(text, p, c, e) && Denotes(text, c, t)
    decreases t, 1
  {
    c := BlockRound(text, p, t, e);
    NoRedir(text, e, c);
    RedirsDone(text, p, e, c, c, e);
  }

  lemma {:induction false} BlockRound(text: string, p: nat, t: Cmd<string>, e: nat) returns (c: Cmd<Span>)
    requires Block(text, p, t) && e == p + Len(t) + 2 <= |text| && Skip(text, e) == e
    ensures ExecRedirs(text, p, e, c) && Denotes(text, c, t)
    decreases t, 1, 0
  {
    c := LineRound(text, p + 1, t);
    Begins(text, p + 1, t);
    BlockStep(text, p, p + 1 + Len(t), c);
  }

  /** The canonical text of t parses to t. */
  lemma {:induction false} LineRound(text: string, p: nat, t: Cmd<string>) returns (c: Cmd<Span>)
    requires Shows(text, p, t) && Stop(text, p + Len(t))
    ensures LineIs(text, p, c, p + Len(t)) && Denotes(text, c, t)
    decreases t, 0, 2
  {
    match t
    case Exec(_) =>
      PlainRound(text, p, t.args);
      c := ParseExec(text, p).cmd;
      ExecEnds(text, p, c, p + Len(t));
    case Redir(_, _, _) => c := RedirRound(text, p, t);
    case Pipe(_, _) => c := PipeRound(text, p, t);
    case List(_, _) => c := ListRound(text, p, t);
    case Back(_) => c := BackRound(text, p, t);
  }

  lemma {:induction false} RedirRound(text: string, p: nat, t: Cmd<string>) returns (c: Cmd<Span>)
    requires t.Redir? && Shows(text, p, t) && Stop(text, p + Len(t))
    ensures LineIs(text, p, c, p + Len(t)) && Denotes(text, c, t)
    decreases t, 0, 1
  {
    var e := p + Len(t.cmd) + 2;
    var b := RedirExec(text, p, t.cmd, t.file, t.out, e);
    c := Redir(b, Span(e + 1, e + 1 + |t.file|), t.out);
    ExecEnds(text, p, c, p + Len(t));
  }

  lemma {:induction false} RedirExec(text: string, p: nat, d: Cmd<string>, f: string, out: bool,
                                     e: nat) returns (b: Cmd<Span>)
    requires Block(text, p, d) && e == p + Len(d) + 2 && Mark(text, e, if out then '>' else '<') && WordHere(text, e + 1, f)
    requires Stop(text, e + 1 + |f|)
    ensures ExecIs(text, p, Redir(b, Span(e + 1, e + 1 + |f|), out), e + 1 + |f|) && Denotes(text, b, d)
    decreases d, 2
  {
    b := BlockRound(text, p, d, e);
    RedirStep(text, e, b, out, f);
    RedirsDone(text, p, e, b, Redir(b, Span(e + 1, e + 1 + |f|), out), e + 1 + |f|);
  }

  /** Two commands in parentheses with a symbol between them. */
  lemma {:induction false} TwoBlocks(text: string, p: nat, t: Cmd<string>, l: Cmd<string>, r: Cmd<string>, e: nat,
                                     e': nat) returns (b: Cmd<Span>, b': Cmd<Span>)
    requires (t.Pipe? || t.List?) && l == t.left && r == t.right
    requires Block(text, p, l) && e == p + Len(l) + 2 && Follows(text, e) && e < |text|
    requires Block(text, e + 1, r) && e' == e + 1 + Len(r) + 2 && Stop(text, e')
    ensures ExecIs(text, p, b, e) && Denotes(text, b, l) && Skip(text, e + 1) == e + 1
    ensures ExecIs(text, e + 1, b', e') && Denotes(text, b', r)
    decreases t, 0, 0
  {
    b := ExecRound(text, p, l, e);
    b' := ExecRound(text, e + 1, r, e');
  }

  lemma {:induction false} PipeRound(text: string, p: nat, t: Cmd<string>) returns (c: Cmd<Span>)
    requires t.Pipe? && Shows(text, p, t) && Stop(text, p + Len(t))
    ensures LineIs(text, p, c, p + Len(t)) && Denotes(text, c, t)
    decreases t, 0, 1
  {
    var e := p + Len(t.left) + 2;
    var b, b' := TwoBlocks(text, p, t, t.left, t.right, e, p + Len(t));
    PipeStep(text, p, e, b, p + Len(t), b');
    c := Pipe(b, b');
  }

  lemma {:induction false} ListRound(text: string, p: nat, t: Cmd<string>) returns (c: Cmd<Span>)
    requires t.List? && Shows(text, p, t) && Stop(text, p + Len(t))
    ensures LineIs(text, p, c, p + Len(t)) && Denotes(text, c, t)
    decreases t, 0, 1
  {
    var e := p + Len(t.left) + 2;
    var b, b' := TwoBlocks(text, p, t, t.left, t.right, e, p + Len(t));
    ListStep(text, p, e, b, p + Len(t), b');
    c := List(b, b');
  }

  lemma {:induction false} BackRound(text: string, p: nat, t: Cmd<string>) returns (c: Cmd<Span>)
    requires t.Back? && Shows(text, p, t) && Stop(text, p + Len(t))
    ensures LineIs(text, p, c, p + Len(t)) && Denotes(text, c, t)
    decreases t, 0, 1
  {
    var e := p + Len(t.cmd) + 2;
    var b := ExecRound(text, p, t.cmd, e);
    BackStep(text, p, e, b);
    c := Back(b);
  }

  // ---- The canonical text has the layout -------------------------------------------------------------

  lemma HereSplit(text: string, p: nat, a: string, b: string)
    requires Here(text, p, a + b)
    ensures Here(text, p, a) && Here(text, p + |a|, b)
  {
    var w := a + b;
    forall i | 0 <= i < |a| ensures a[i] == text[p + i] { assert w[i] == a[i]; }
    forall i | 0 <= i < |b| ensures b[i] == text[p + |a| + i] { assert w[|a| + i] == b[i]; }
  }

  lemma HereMark(text: string, p: nat, c: char)
    requires Here(text, p, [c])
    ensures Mark(text, p, c)
  {
    assert [c][0] == text[p];
  }

  lemma {:induction false} RenderWords(text: string, p: nat, ws: seq<string>, k: nat)
    requires Here(text, p, Words(ws, k)) && AllWords(ws)
    ensures |Words(ws, k)| == WordsLen(ws, k) && WordsHere(text, p, ws, k)
    decreases |ws| - k
  {
    if k < |ws| {
      HereSplit(text, p, ws[k] + " ", Words(ws, k + 1));
      HereSplit(text, p, ws[k], " ");
      HereMark(text, p + |ws[k]|, ' ');
      RenderWords(text, p + |ws[k]| + 1, ws, k + 1);
    }
  }

  lemma {:induction false} RenderBlock(text: string, p: nat, t: Cmd<string>)
    requires Here(text, p, Paren(Render(t))) && WellFormed(t)
    ensures |Paren(Render(t))| == Len(t) + 2 && Block(text, p, t)
    decreases t, 1
  {
    HereSplit(text, p, "(" + Render(t), ")");
    HereSplit(text, p, "(", Render(t));
    HereMark(text, p, '(');
    RenderShows(text, p + 1, t);
    HereMark(text, p + 1 + Len(t), ')');
  }

  /** A command in parentheses, a symbol and more text. */
  lemma {:induction false} RenderTail(text: string, p: nat, d: Cmd<string>, m: string, rest: string)
    requires WellFormed(d) && |m| == 1 && Here(text, p, Paren(Render(d)) + (m + rest))
    ensures Block(text, p, d) && Mark(text, p + Len(d) + 2, m[0]) && Here(text, p + Len(d) + 3, rest)
    ensures |Paren(Render(d)) + (m + rest)| == Len(d) + 3 + |rest|
    decreases d, 2
  {
    HereSplit(text, p, Paren(Render(d)), m + rest);
    RenderBlock(text, p, d);
    HereSplit(text, p + Len(d) + 2, m, rest);
    assert m == [m[0]];
    HereMark(text, p + Len(d) + 2, m[0]);
  }

  lemma {:induction false} RenderPair(text: string, p: nat, t: Cmd<string>, l: Cmd<string>, r: Cmd<string>, m: string)
    requires l < t && r < t && WellFormed(l) && WellFormed(r) && |m| == 1
    requires Here(text, p, Paren(Render(l)) + (m + Paren(Render(r))))
    ensures Block(text, p, l) && Mark(text, p + Len(l) + 2, m[0]) && Block(text, p + Len(l) + 3, r)
    ensures |Paren(Render(l)) + (m + Paren(Render(r)))| == Len(l) + 3 + Len(r) + 2
    decreases t, 0, 0
  {
    RenderTail(text, p, l, m, Paren(Render(r)));
    RenderBlock(text, p + Len(l) + 3, r);
  }

  lemma {:induction false} RenderRedir(text: string, p: nat, d: Cmd<string>, f: string, out: bool)
    requires WellFormed(d) && Word(f) && Here(text, p, Paren(Render(d)) + ((if out then ">" else "<") + f))
    ensures Block(text, p, d) && Mark(text, p + Len(d) + 2, if out then '>' else '<') && WordHere(text, p + Len(d) + 3, f)
    ensures |Paren(Render(d)) + ((if out then ">" else "<") + f)| == Len(d) + 3 + |f|
    decreases d, 3
  {
    RenderTail(text, p, d, if out then ">" else "<", f);
  }

  lemma {:induction false} RenderShows(text: string, p: nat, t: Cmd<string>)
    requires Here(text, p, Render(t)) && WellFormed(t)
    ensures |Render(t)| == Len(t) && Shows(text, p, t)
    decreases t, 0
  {
    match t
    case Exec(ws) => RenderWords(text, p, ws, 0);
    case Redir(d, f, out) => RenderRedir(text, p, d, f, out);
    case Pipe(l, r) => RenderPair(text, p, t, l, r, "|");
    case List(l, r) => RenderPair(text, p, t, l, r, ";");
    case Back(d) => RenderTail(text, p, d, "&", "");
  }

  // ---- The round trip ----------------------------------------------------------------------------------

  /** Every well-formed tree, written out and parsed, comes back. */
  lemma RoundTrip(t: Cmd<string>) returns (c: Cmd<Span>)
    requires WellFormed(t)
    ensures ParseCmd(Render(t)) == Ok(c, |Render(t)|) && Denotes(Render(t), c, t)
  {
    RenderShows(Render(t), 0, t);
    c := LineRound(Render(t), 0, t);
  }

  ghost function Slice(text: string, w: Span): string {
    if w.q <= w.eq <= |text| then text[w.q..w.eq] else ""
  }

  ghost function Strings(text: string, args: seq<Span>): (ws: seq<string>)
    ensures |ws| == |args| && forall i {:trigger ws[i]} :: 0 <= i < |ws| ==> ws[i] == Slice(text, args[i])
  {
    seq(|args|, i requires 0 <= i < |args| => Slice(text, args[i]))
  }

  /** The tree that a parsed command is. */
  ghost function Tree(text: string, c: Cmd<Span>): Cmd<string> {
    match c
    case Exec(args) => Exec(Strings(text, args))
    case Redir(d, f, out) => Redir(Tree(text, d), Slice(text, f), out)
    case Pipe(l, r) => Pipe(Tree(text, l), Tree(text, r))
    case List(l, r) => List(Tree(text, l), Tree(text, r))
    case Back(d) => Back(Tree(text, d))
  }

  lemma SliceIsWord(text: string, w: Span)
    requires NulFree(text) && IsWord(text, w)
    ensures Word(Slice(text, w)) && SpanIs(text, w, Slice(text, w))
  {
  }

  lemma {:induction false} TreeIsWellFormed(text: string, c: Cmd<Span>)
    requires NulFree(text) && Good(text, c)
    ensures WellFormed(Tree(text, c)) && Denotes(text, c, Tree(text, c))
  {
    match c
    case Exec(args) =>
      var ws := Strings(text, args);
      forall i | 0 <= i < |args| ensures Word(ws[i]) && SpanIs(text, args[i], ws[i]) { SliceIsWord(text, args[i]); }
    case Redir(d, f, _) => TreeIsWellFormed(text, d); SliceIsWord(text, f);
    case Pipe(l, r) => TreeIsWellFormed(text, l); TreeIsWellFormed(text, r);
    case List(l, r) => TreeIsWellFormed(text, l); TreeIsWellFormed(text, r);
    case Back(d) => TreeIsWellFormed(text, d);
  }

  /** A parsed command is only one tree. */
  lemma {:induction false} DenotesOne(text: string, c: Cmd<Span>, t: Cmd<string>, u: Cmd<string>)
    requires Denotes(text, c, t) && Denotes(text, c, u)
    ensures t == u
  {
    match c
    case Exec(args) =>
      forall i | 0 <= i < |args| ensures t.args[i] == u.args[i] {
        assert SpanIs(text, args[i], t.args[i]) && SpanIs(text, args[i], u.args[i]);
        SpanOne(text, args[i], t.args[i], u.args[i]);
      }
    case Redir(d, f, _) => DenotesOne(text, d, t.cmd, u.cmd); SpanOne(text, f, t.file, u.file);
    case Pipe(l, r) => DenotesOne(text, l, t.left, u.left); DenotesOne(text, r, t.right, u.right);
    case List(l, r) => DenotesOne(text, l, t.left, u.left); DenotesOne(text, r, t.right, u.right);
    case Back(d) => DenotesOne(text, d, t.cmd, u.cmd);
  }

  lemma SpanOne(text: string, s: Span, w: string, x: string)
    requires SpanIs(text, s, w) && SpanIs(text, s, x)
    ensures w == x
  {
    forall i | 0 <= i < |w| ensures w[i] == x[i] { assert w[i] == text[s.q + i]; }
  }

  /**
   * Whatever line was parsed, the tree it gave, written out in canonical form, parses to the
   * same tree.
   */
  lemma ParseRenderParse(line: string, c: Cmd<Span>, e: nat)
    requires NulFree(line) && ParseCmd(line) == Ok(c, e)
    ensures var again := Render(Tree(line, c)); var r := ParseCmd(again);
            r.Ok? && NulFree(again) && Tree(again, r.cmd) == Tree(line, c)
  {
    LineGood(line, 0);
    var t := Tree(line, c);
    TreeIsWellFormed(line, c);
    var d := RoundTrip(t);
    var again := Render(t);
    LineGood(again, 0);
    RenderNulFree(t);
    TreeIsWellFormed(again, d);
    DenotesOne(again, d, t, Tree(again, d));
  }

  lemma {:induction false} WordsNulFree(ws: seq<string>, k: nat)
    requires AllWords(ws)
    ensures NulFree(Words(ws, k))
    decreases |ws| - k
  {
    if k < |ws| {
      assert Word(ws[k]);
      WordsNulFree(ws, k + 1);
    }
  }

  lemma {:induction false} RenderNulFree(t: Cmd<string>)
    requires WellFormed(t)
    ensures NulFree(Render(t))
  {
    match t
    case Exec(ws) => WordsNulFree(ws, 0);
    case Redir(d, f, _) => RenderNulFree(d);
    case Pipe(l, r) => RenderNulFree(l); RenderNulFree(r);
    case List(l, r) => RenderNulFree(l); RenderNulFree(r);
    case Back(d) => RenderNulFree(d);
  }
}
