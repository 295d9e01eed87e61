/**
 * The shell's parser: each function advances a cursor over the line and equals the grammar's
 * function; then nulterminate overwrites the character after each word in place.
 */
module Shell {
  import opened ShellSpec
  import opened ShellLaws

  method SkipWhite(text: string, p: nat) returns (s: nat)
    requires p <= |text|
    ensures s == Skip(text, p)
  {
    s := p;
    while s < |text| && White(text[s])
      invariant p <= s <= |text| && Skip(text, s) == Skip(text, p)
    {
      s := s + 1;
    }
  }

  method GetToken(text: string, p: nat) returns (ret: char, q: nat, eq: nat, p': nat)
    requires p <= |text|
    ensures q == Skip(text, p) && ret == Kind(text, q) && eq == TokenEnd(text, q) && p' == Next(text, p)
  {
    var s := SkipWhite(text, p);
    q := s;
    ret := Char(text, s);
    match ret {
      case '\0' =>
      case '|' => s := s + 1;
      case '(' => s := s + 1;
      case ')' => s := s + 1;
      case ';' => s := s + 1;
      case '&' => s := s + 1;
      case '<' => s := s + 1;
      case '>' =>
        s := s + 1;
        if Char(text, s) == '>' {
          ret := '+';
          s := s + 1;
        }
      case _ =>
        ret := 'a';
        while s < |text| && WordChar(text[s])
          invariant q <= s <= |text| && WordEnd(text, s) == WordEnd(text, q)
        {
          s := s + 1;
        }
    }
    eq := s;
    p' := SkipWhite(text, s);
  }

  method Peek(text: string, p: nat, toks: set<char>) returns (b: bool, p': nat)
    requires p <= |text|
    ensures b == Peeks(text, p, toks) && p' == Skip(text, p)
  {
    p' := SkipWhite(text, p);
    b := Char(text, p') != '\0' && Char(text, p') in toks;
  }

  method ReadRedirs(text: string, p: nat, cmd: Cmd<Span>) returns (r: Parse)
    requires p <= |text|
    ensures r == ParseRedirs(text, p, cmd)
  {
    var c, s := cmd, p;
    var more;
    more, s := Peek(text, s, REDIRS);
    while more
      invariant s <= |text| && Skip(text, s) == s && more == Peeks(text, s, REDIRS)
      invariant ParseRedirs(text, p, cmd) == ParseRedirs(text, s, c)
      decreases |text| - s
    {
      var tok, kind, q, eq;
      tok, q, eq, s := GetToken(text, s);
      kind, q, eq, s := GetToken(text, s);
      if kind != 'a' { return Fail(MissingFile); }
      c := Redir(c, Span(q, eq), tok != '<');
      more, s := Peek(text, s, REDIRS);
    }
    r := Ok(c, s);
  }

  method ReadExec(text: string, p: nat) returns (r: Parse)
    requires p <= |text|
    ensures r == ParseExec(text, p)
    decreases |text| - p, 1
  {
    var b, s := Peek(text, p, {'('});
    if b {
      r := ReadBlock(text, s);
      return;
    }
    r := ReadRedirs(text, s, Exec([]));
    if r.Fail? { return; }
    r := ReadArgs(text, r.pos, r.cmd);
  }

  /** parseexec's loop over the words. */
  method ReadArgs(text: string, p: nat, cmd: Cmd<Span>) returns (r: Parse)
    requires p <= |text|
    ensures r == ParseArgs(text, p, cmd, 0)
  {
    var c, s, argc := cmd, p, 0;
    while true
      invariant s <= |text| && ParseArgs(text, p, cmd, 0) == ParseArgs(text, s, c, argc)
      decreases |text| - s
    {
      var step := ReadArg(text, s, c, argc);
      if step.Done? { return step.parse; }
      c, s, argc := step.cmd, step.pos, argc + 1;
    }
  }

  /** One turn of the loop. */
  method ReadArg(text: string, p: nat, c: Cmd<Span>, argc: nat) returns (step: Step)
    requires p <= |text|
    ensures step == ParseArg(text, p, c, argc)
  {
    var stop, s := Peek(text, p, STOPS);
    if stop { return Done(Ok(c, s)); }
    var tok, q, eq;
    tok, q, eq, s := GetToken(text, s);
    if tok == '\0' { return Done(Ok(c, s)); }
    if tok != 'a' { return Done(Fail(Syntax)); }
    if argc + 1 >= MAXARGS { return Done(Fail(TooManyArgs)); }
    var r := ReadRedirs(text, s, AddArg(c, Span(q, eq)));
    step := if r.Fail? then Done(r) else More(r.cmd, r.pos);
  }

  method ReadBlock(text: string, p: nat) returns (r: Parse)
    requires p <= |text| && Peeks(text, p, {'('})
    ensures r == ParseBlock(text, p)
    decreases |text| - p, 0
  {
    var b, s := Peek(text, p, {'('});
    var tok, q, eq;
    tok, q, eq, s := GetToken(text, s);
    r := ReadLine(text, s);
    if r.Fail? { return; }
    b, s := Peek(text, r.pos, {')'});
    if !b { return Fail(MissingParen); }
    tok, q, eq, s := GetToken(text, s);
    r := ReadRedirs(text, s, r.cmd);
  }

  method ReadPipe(text: string, p: nat) returns (r: Parse)
    requires p <= |text|
    ensures r == ParsePipe(text, p)
    decreases |text| - p, 2
  {
    r := ReadExec(text, p);
    if r.Fail? { return; }
    var b, s := Peek(text, r.pos, {'|'});
    if b {
      var tok, q, eq;
      tok, q, eq, s := GetToken(text, s);
      var right := ReadPipe(text, s);
      if right.Fail? { return right; }
      return Ok(Pipe(r.cmd, right.cmd), right.pos);
    }
    r := Ok(r.cmd, s);
  }

  method ReadLine(text: string, p: nat) returns (r: Parse)
    requires p <= |text|
    ensures r == ParseLine(text, p)
    decreases |text| - p, 3
  {
    r := ReadPipe(text, p);
    if r.Fail? { return; }
    var c := r.cmd;
    var b, s := Peek(text, r.pos, {'&'});
    while b
      invariant r.pos <= s <= |text| && Skip(text, s) == s && b == Peeks(text, s, {'&'})
      invariant ParseBack(text, r.pos, r.cmd) == ParseBack(text, s, c)
      decreases |text| - s
    {
      var tok, q, eq;
      tok, q, eq, s := GetToken(text, s);
      c := Back(c);
      b, s := Peek(text, s, {'&'});
    }
    b, s := Peek(text, s, {';'});
    if b {
      var tok, q, eq;
      tok, q, eq, s := GetToken(text, s);
      var right := ReadLine(text, s);
      if right.Fail? { return right; }
      return Ok(List(c, right.cmd), right.pos);
    }
    r := Ok(c, s);
  }

  /** nulterminate: a NUL after each word, and nowhere inside one. */
  method NulTerminate(buf: array<char>, c: Cmd<Span>, ghost text: string)
    requires |text| < buf.Length && Good(text, c)
    modifies buf
    ensures OnlyEnds(old(buf[..]), buf[..], text) && Terminated(buf[..], text, c)
    decreases c
  {
    match c {
      case Exec(args) =>
        for i := 0 to |args|
          invariant OnlyEnds(old(buf[..]), buf[..], text)
          invariant forall k :: 0 <= k < i ==> IsWord(text, args[k]) && buf[args[k].eq] == '\0'
        {
          assert IsWord(text, args[i]);
          buf[args[i].eq] := '\0';
        }
      case Redir(d, f, _) =>
        NulTerminate(buf, d, text);
        ghost var b := buf[..];
        buf[f.eq] := '\0';
        StillTerminated(b, buf[..], text, d);
      case Pipe(l, r) =>
        NulTerminate(buf, l, text);
        ghost var b := buf[..];
        NulTerminate(buf, r, text);
        StillTerminated(b, buf[..], text, l);
      case List(l, r) =>
        NulTerminate(buf, l, text);
        ghost var b := buf[..];
        NulTerminate(buf, r, text);
        StillTerminated(b, buf[..], text, l);
      case Back(d) => NulTerminate(buf, d, text);
    }
  }

  /** strlen. */
  method StrLen(buf: array<char>) returns (n: nat)
    requires '\0' in buf[..]
    ensures n < buf.Length && buf[n] == '\0' && NulFree(buf[..n])
  {
    n := 0;
    while buf[n] != '\0'
      invariant n < buf.Length && NulFree(buf[..n]) && '\0' in buf[n..]
      decreases buf.Length - n
    {
      assert buf[n..] == [buf[n]] + buf[n + 1..];
      n := n + 1;
    }
  }

  /**
   * parsecmd, on a NUL-terminated line in a buffer.  It yields what the grammar says, with the
   * tree's strings, once terminated in place, equal to the words of the line; or it panics.
   */
  method ParseCommand(buf: array<char>) returns (r: Parse, ghost text: string)
    requires '\0' in buf[..]
    modifies buf
    ensures |text| < buf.Length && NulFree(text) && old(buf[..])[..|text|] == text && old(buf[|text|]) == '\0'
    ensures r == ParseCmd(text)
    ensures r.Ok? ==> Good(text, r.cmd) && Reads(buf[..], text, r.cmd) && OnlyEnds(old(buf[..]), buf[..], text)
    ensures r.Fail? ==> buf[..] == old(buf[..])
  {
    var n := StrLen(buf);
    var line := buf[..n];
    text := line;
    r := ReadLine(line, 0);
    if r.Fail? { return; }
    var b, s := Peek(line, r.pos, {});
    if s != n { return Fail(Leftovers), line; }
    LineGood(line, 0);
    NulTerminate(buf, r.cmd, line);
    StringsKept(old(buf[..]), buf[..], line, r.cmd);
  }
}
