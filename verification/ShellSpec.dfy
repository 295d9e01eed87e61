/**
 * The shell's command language: tokens and the grammar, as functions of the text and a
 * position in it.  A word is the span of its positions.
 */
module ShellSpec {

  const MAXARGS: nat := 10
  const REDIRS: set<char> := {'<', '>'}
  const STOPS: set<char> := {'|', ')', '&', ';'}

  datatype Span = Span(q: nat, eq: nat)

  /** A command tree over words W: spans while parsing, strings once read off. */
  datatype Cmd<W> =
    | Exec(args: seq<W>)
    | Redir(cmd: Cmd<W>, file: W, out: bool)
    | Pipe(left: Cmd<W>, right: Cmd<W>)
    | List(left: Cmd<W>, right: Cmd<W>)
    | Back(cmd: Cmd<W>)

  datatype Error = Syntax | MissingParen | MissingFile | TooManyArgs | Leftovers

  datatype Parse = Ok(cmd: Cmd<Span>, pos: nat) | Fail(error: Error)

  // ---- Tokens ----------------------------------------------------------------------------------

  predicate White(c: char) {
    c == ' ' || c == '\t' || c == '\r' || c == '\n' || c == '\U{0B}'
  }

  predicate Symbol(c: char) {
    c == '<' || c == '|' || c == '>' || c == '&' || c == ';' || c == '(' || c == ')'
  }

  predicate WordChar(c: char) {
    !White(c) && !Symbol(c)
  }

  /** The character at p; the terminating NUL at the end. */
  function Char(text: string, p: nat): char
    requires p <= |text|
  {
    if p < |text| then text[p] else '\0'
  }

  function Skip(text: string, p: nat): (r: nat)
    requires p <= |text|
    ensures p <= r <= |text| && (r == |text| || !White(text[r]))
    decreases |text| - p
  {
    if p < |text| && White(text[p]) then Skip(text, p + 1) else p
  }

  function WordEnd(text: string, p: nat): (r: nat)
    requires p <= |text|
    ensures p <= r <= |text| && (p < |text| && WordChar(text[p]) ==> p < r)
    decreases |text| - p
  {
    if p < |text| && WordChar(text[p]) then WordEnd(text, p + 1) else p
  }

  /** The kind of the token at q: a symbol, '+' for >>, 'a' for a word, NUL at the end. */
  function Kind(text: string, q: nat): char
    requires q <= |text|
  {
    var c := Char(text, q);
    if c == '\0' then c
    else if c == '>' then (if Char(text, q + 1) == '>' then '+' else c)
    else if Symbol(c) then c
    else 'a'
  }

  /** Where it ends. */
  function TokenEnd(text: string, q: nat): (e: nat)
    requires q <= |text| && (q == |text| || !White(text[q]))
    ensures q <= e <= |text| && (Kind(text, q) != '\0' ==> q < e)
  {
    var k := Kind(text, q);
    if k == '\0' then q else if k == '+' then q + 2 else if k == 'a' then WordEnd(text, q) else q + 1
  }

  /** Does one of toks come next? */
  predicate Peeks(text: string, p: nat, toks: set<char>)
    requires p <= |text|
  {
    var c := Char(text, Skip(text, p));
    c != '\0' && c in toks
  }

  /** Past the next token and the white space around it. */
  function Next(text: string, p: nat): (r: nat)
    requires p <= |text|
    ensures p <= r <= |text| && (Kind(text, Skip(text, p)) != '\0' ==> p < r)
  {
    Skip(text, TokenEnd(text, Skip(text, p)))
  }

  // ---- Grammar ---------------------------------------------------------------------------------

  /** A word stored in the exec node inside the redirections. */
  function AddArg<W>(c: Cmd<W>, w: W): Cmd<W> {
    match c
    case Exec(args) => Exec(args + [w])
    case Redir(d, f, out) => Redir(AddArg(d, w), f, out)
    case _ => c
  }

  function ParseRedirs(text: string, p: nat, c: Cmd<Span>): (r: Parse)
    requires p <= |text|
    ensures r.Ok? ==> p <= r.pos <= |text|
    decreases |text| - p
  {
    if !Peeks(text, p, REDIRS) then Ok(c, Skip(text, p))
    else
      var q := Next(text, p);
      if Kind(text, q) != 'a' then Fail(MissingFile)
      else ParseRedirs(text, Next(text, q), Redir(c, Span(q, TokenEnd(text, q)), Kind(text, Skip(text, p)) != '<'))
  }

  datatype Step = Done(parse: Parse) | More(cmd: Cmd<Span>, pos: nat)

  /** One word and the redirections after it, or the end of the words. */
  function ParseArg(text: string, p: nat, c: Cmd<Span>, argc: nat): (r: Step)
    requires p <= |text|
    ensures r.More? ==> p < r.pos <= |text|
    ensures r.Done? && r.parse.Ok? ==> p <= r.parse.pos <= |text|
  {
    var q := Skip(text, p);
    if Peeks(text, p, STOPS) then Done(Ok(c, q))
    else if Kind(text, q) == '\0' then Done(Ok(c, Next(text, q)))
    else if Kind(text, q) != 'a' then Done(Fail(Syntax))
    else if argc + 1 >= MAXARGS then Done(Fail(TooManyArgs))
    else
      var r := ParseRedirs(text, Next(text, q), AddArg(c, Span(q, TokenEnd(text, q))));
      if r.Fail? then Done(r) else More(r.cmd, r.pos)
  }

  function ParseArgs(text: string, p: nat, c: Cmd<Span>, argc: nat): (r: Parse)
    requires p <= |text|
    ensures r.Ok? ==> p <= r.pos <= |text|
    decreases |text| - p
  {
    var s := ParseArg(text, p, c, argc);
    if s.Done? then s.parse else ParseArgs(text, s.pos, s.cmd, argc + 1)
  }

  function ParseExec(text: string, p: nat): (r: Parse)
    requires p <= |text|
    ensures r.Ok? ==> p <= r.pos <= |text|
    decreases |text| - p, 1
  {
    if Peeks(text, p, {'('}) then ParseBlock(text, p)
    else
      var r := ParseRedirs(text, p, Exec([]));
      if r.Fail? then r else ParseArgs(text, r.pos, r.cmd, 0)
  }

  function ParseBlock(text: string, p: nat): (r: Parse)
    requires p <= |text| && Peeks(text, p, {'('})
    ensures r.Ok? ==> p <= r.pos <= |text|
    decreases |text| - p, 0
  {
    var r := ParseLine(text, Next(text, p));
    if r.Fail? then r
    else if !Peeks(text, r.pos, {')'}) then Fail(MissingParen)
    else ParseRedirs(text, Next(text, r.pos), r.cmd)
  }

  function ParsePipe(text: string, p: nat): (r: Parse)
    requires p <= |text|
    ensures r.Ok? ==> p <= r.pos <= |text|
    decreases |text| - p, 2
  {
    var r := ParseExec(text, p);
    if r.Fail? then r
    else if Peeks(text, r.pos, {'|'}) then
      var s := ParsePipe(text, Next(text, r.pos));
      if s.Fail? then s else Ok(Pipe(r.cmd, s.cmd), s.pos)
    else Ok(r.cmd, Skip(text, r.pos))
  }

  function ParseBack(text: string, p: nat, c: Cmd<Span>): (r: Parse)
    requires p <= |text|
    ensures r.Ok? && p <= r.pos <= |text|
    decreases |text| - p
  {
    if Peeks(text, p, {'&'}) then ParseBack(text, Next(text, p), Back(c)) else Ok(c, Skip(text, p))
  }

  function ParseLine(text: string, p: nat): (r: Parse)
    requires p <= |text|
    ensures r.Ok? ==> p <= r.pos <= |text|
    decreases |text| - p, 3
  {
    var r := ParsePipe(text, p);
    if r.Fail? then r
    else
      var b := ParseBack(text, r.pos, r.cmd);
      if Peeks(text, b.pos, {';'}) then
        var s := ParseLine(text, Next(text, b.pos));
        if s.Fail? then s else Ok(List(b.cmd, s.cmd), s.pos)
      else Ok(b.cmd, Skip(text, b.pos))
  }

  function ParseCmd(text: string): Parse {
    var r := ParseLine(text, 0);
    if r.Ok? && Skip(text, r.pos) != |text| then Fail(Leftovers) else r
  }
}
