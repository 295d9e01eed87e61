/**
 * Tokens, the text of a sequence of tokens with any white space between them, and how the parser finds them again.
 */
module ShellTokens {
  import opened ShellSpec
  import opened ShellLaws
  import R = ShellRoundTrip

  // ---- Tokens ----------------------------------------------------------------------------------

  /** A word, or a symbol: one of < | > & ; ( ) or + for >>. */
  datatype Tok = W(w: string) | S(c: char)

  const BLANKS: string := " \t\r\n\U{0B}"
  const SYMBOLS: string := "<|>&;()"

  ghost predicate LegalTok(t: Tok) {
    match t
    case W(w) => w != "" && forall i {:trigger w[i]} :: 0 <= i < |w| ==> w[i] !in BLANKS && w[i] !in SYMBOLS && w[i] != '\0'
    case S(c) => c in SYMBOLS || c == '+'
  }

  function TokText(t: Tok): string {
    match t
    case W(w) => w
    case S(c) => if c == '+' then ">>" else [c]
  }

  /** Would the two read differently without a blank between them? */
  predicate Sticks(t: Tok, u: Tok) {
    (t.W? && u.W?) || (t == S('>') && (u == S('>') || u == S('+')))
  }

  /** Tokens k and on, each after its gap, and the last gap. */
  function Text(ts: seq<Tok>, gaps: seq<string>, k: nat): string
    requires |gaps| == |ts| + 1 && k <= |ts|
    decreases |ts| - k
  {
    if k == |ts| then gaps[k] else gaps[k] + (TokText(ts[k]) + Text(ts, gaps, k + 1))
  }

  ghost predicate Blank(s: string) {
    forall i {:trigger s[i]} :: 0 <= i < |s| ==> s[i] in BLANKS
  }

  ghost predicate Spaced(ts: seq<Tok>, gaps: seq<string>) {
    && |gaps| == |ts| + 1 && (forall k {:trigger gaps[k]} :: 0 <= k < |gaps| ==> Blank(gaps[k]))
    && (forall k {:trigger ts[k]} :: 0 <= k < |ts| ==> LegalTok(ts[k]))
    && (forall k {:trigger ts[k]} :: 0 < k < |ts| && Sticks(ts[k - 1], ts[k]) ==> gaps[k] != "")
  }

  // ---- How the parser finds them -----------------------------------------------------------------

  ghost predicate TokenAt(text: string, q: nat, t: Tok)
    requires q <= |text|
  {
    && Skip(text, q) == q
    && match t
       case W(w) => Kind(text, q) == 'a' && R.SpanIs(text, Span(q, TokenEnd(text, q)), w)
       case S(c) => Kind(text, q) == c && c != 'a' && c != '\0'
  }

  /** Token k of ts is at at[k], and nothing but white space is between them and at the end. */
  ghost predicate Lexed(text: string, ts: seq<Tok>, at: seq<nat>) {
    && |at| == |ts| + 1 && at[0] == Skip(text, 0) && at[|ts|] == |text|
    && (forall k: nat :: k < |ts| ==> LexedAt(text, ts, at, k))
  }

  ghost predicate LexedAt(text: string, ts: seq<Tok>, at: seq<nat>, k: nat)
    requires |at| == |ts| + 1 && k < |ts|
  {
    at[k] <= |text| && TokenAt(text, at[k], ts[k]) && at[k + 1] == Next(text, at[k])
  }

  // ---- Every spaced text reads as its tokens -------------------------------------------------------

  /** Where the gap before token k begins. */
  function Start(ts: seq<Tok>, gaps: seq<string>, k: nat): nat
    requires |gaps| == |ts| + 1 && k <= |ts|
  {
    if k == 0 then 0 else Start(ts, gaps, k - 1) + |gaps[k - 1]| + |TokText(ts[k - 1])|
  }

  /** From there on the text is the rest. */
  ghost predicate RestAt(text: string, ts: seq<Tok>, gaps: seq<string>, k: nat)
    requires |gaps| == |ts| + 1 && k <= |ts|
  {
    R.Here(text, Start(ts, gaps, k), Text(ts, gaps, k)) && Start(ts, gaps, k) + |Text(ts, gaps, k)| == |text|
  }

  lemma RestMore(text: string, ts: seq<Tok>, gaps: seq<string>, k: nat)
    requires |gaps| == |ts| + 1 && k < |ts| && RestAt(text, ts, gaps, k)
    ensures RestAt(text, ts, gaps, k + 1)
  {
    var p := Start(ts, gaps, k);
    R.HereSplit(text, p, gaps[k], TokText(ts[k]) + Text(ts, gaps, k + 1));
    R.HereSplit(text, p + |gaps[k]|, TokText(ts[k]), Text(ts, gaps, k + 1));
  }

  lemma {:induction false} RestHere(text: string, ts: seq<Tok>, gaps: seq<string>, k: nat)
    requires |gaps| == |ts| + 1 && k <= |ts| && text == Text(ts, gaps, 0)
    ensures RestAt(text, ts, gaps, k)
    decreases k
  {
    if k > 0 {
      RestHere(text, ts, gaps, k - 1);
      RestMore(text, ts, gaps, k - 1);
    }
  }

  /** The gap before token k is at its place, and then the token. */
  lemma GapHere(ts: seq<Tok>, gaps: seq<string>, k: nat)
    requires |gaps| == |ts| + 1 && k <= |ts|
    ensures var text, p := Text(ts, gaps, 0), Start(ts, gaps, k);
            && R.Here(text, p, gaps[k]) && (k == |ts| ==> p + |gaps[k]| == |text|)
            && (k < |ts| ==> R.Here(text, p + |gaps[k]|, TokText(ts[k])))
  {
    var text, p := Text(ts, gaps, 0), Start(ts, gaps, k);
    RestHere(text, ts, gaps, k);
    if k < |ts| {
      R.HereSplit(text, p, gaps[k], TokText(ts[k]) + Text(ts, gaps, k + 1));
      R.HereSplit(text, p + |gaps[k]|, TokText(ts[k]), Text(ts, gaps, k + 1));
    }
  }

  lemma BlankIsWhite(c: char)
    ensures White(c) <==> c in BLANKS
    ensures Symbol(c) <==> c in SYMBOLS
  {
    assert BLANKS[0] == ' ' && BLANKS[1] == '\t' && BLANKS[2] == '\r' && BLANKS[3] == '\n' && BLANKS[4] == '\U{0B}';
    assert SYMBOLS[0] == '<' && SYMBOLS[1] == '|' && SYMBOLS[2] == '>' && SYMBOLS[3] == '&' && SYMBOLS[4] == ';';
    assert SYMBOLS[5] == '(' && SYMBOLS[6] == ')';
  }

  /** What the first character of a token can be. */
  lemma TokFirst(t: Tok)
    requires LegalTok(t)
    ensures TokText(t) != "" && !White(TokText(t)[0]) && TokText(t)[0] != '\0'
    ensures if t.W? then !Symbol(TokText(t)[0]) else Symbol(TokText(t)[0])
    ensures TokText(t)[0] == '>' <==> t == S('>') || t == S('+')
  {
    BlankIsWhite(TokText(t)[0]);
  }

  lemma {:induction false} SkipTo(text: string, p: nat, q: nat)
    requires p <= q <= |text| && (forall i :: p <= i < q ==> White(text[i])) && (q == |text| || !White(text[q]))
    ensures Skip(text, p) == q
    decreases q - p
  {
    if p < q { SkipTo(text, p + 1, q); }
  }

  /** White space is skipped. */
  lemma GapSkip(text: string, p: nat, g: string, q: nat)
    requires R.Here(text, p, g) && Blank(g) && q == p + |g| && (q == |text| || !White(text[q]))
    ensures Skip(text, p) == q && Skip(text, q) == q && (g != "" ==> White(text[p]))
  {
    forall i | p <= i < q ensures White(text[i]) {
      assert g[i - p] == text[i];
      BlankIsWhite(text[i]);
    }
    SkipTo(text, p, q);
  }

  /** Token t at q, with c what follows it, or NUL. */
  ghost predicate Placed(text: string, q: nat, t: Tok, e: nat) {
    R.Here(text, q, TokText(t)) && e == q + |TokText(t)| && LegalTok(t)
  }

  /** A token is read as itself if what follows does not stick to it. */
  lemma TokRead(text: string, q: nat, t: Tok, e: nat)
    requires Placed(text, q, t, e)
    requires t.W? ==> e == |text| || White(text[e]) || Symbol(text[e])
    requires t == S('>') ==> e == |text| || text[e] != '>'
    ensures TokenAt(text, q, t) && TokenEnd(text, q) == e
  {
    TokFirst(t);
    assert TokText(t)[0] == text[q + 0];
    SkipTo(text, q, q);
    match t
    case W(w) =>
      forall i | q <= i < e ensures WordChar(text[i]) {
        assert w[i - q] == text[i];
        BlankIsWhite(text[i]);
      }
      R.WordEndIs(text, q, e);
    case S(c) =>
      BlankIsWhite(c);
      if c == '+' { assert TokText(t)[1] == text[q + 1]; }
  }

  function Pos(ts: seq<Tok>, gaps: seq<string>, k: nat): nat
    requires |gaps| == |ts| + 1 && k <= |ts|
  {
    Start(ts, gaps, k) + |gaps[k]|
  }

  /** Gap k and token k are in the text. */
  ghost predicate Laid(text: string, ts: seq<Tok>, gaps: seq<string>, k: nat, p: nat, q: nat)
    requires |gaps| == |ts| + 1 && k <= |ts|
  {
    && R.Here(text, p, gaps[k]) && Blank(gaps[k]) && q == p + |gaps[k]|
    && if k < |ts| then Placed(text, q, ts[k], q + |TokText(ts[k])|) else q == |text|
  }

  lemma LaidAt(ts: seq<Tok>, gaps: seq<string>, k: nat)
    requires Spaced(ts, gaps) && k <= |ts|
    ensures Laid(Text(ts, gaps, 0), ts, gaps, k, Start(ts, gaps, k), Pos(ts, gaps, k))
  {
    GapHere(ts, gaps, k);
    assert Blank(gaps[k]);
    if k < |ts| { assert LegalTok(ts[k]); }
  }

  /** Where gap and token are laid, the gap is skipped. */
  lemma LaidSkip(text: string, ts: seq<Tok>, gaps: seq<string>, k: nat, p: nat, q: nat)
    requires |gaps| == |ts| + 1 && k <= |ts| && Laid(text, ts, gaps, k, p, q)
    ensures q <= |text| && Skip(text, p) == q && Skip(text, q) == q && (gaps[k] != "" ==> White(text[p]))
    ensures k < |ts| ==> q < |text| && TokText(ts[k]) != "" && text[q] == TokText(ts[k])[0]
  {
    if k < |ts| {
      TokFirst(ts[k]);
      assert TokText(ts[k])[0] == text[q + 0];
    }
    GapSkip(text, p, gaps[k], q);
  }

  /** A laid token, and the next after it. */
  lemma LaidRead(text: string, ts: seq<Tok>, gaps: seq<string>, k: nat, p: nat, q: nat, e: nat, q': nat)
    requires |gaps| == |ts| + 1 && k < |ts| && Laid(text, ts, gaps, k, p, q) && e == q + |TokText(ts[k])|
    requires Laid(text, ts, gaps, k + 1, e, q') && (k + 1 < |ts| && Sticks(ts[k], ts[k + 1]) ==> gaps[k + 1] != "")
    ensures q <= |text| && TokenAt(text, q, ts[k]) && Next(text, q) == q'
  {
    LaidSkip(text, ts, gaps, k + 1, e, q');
    if k + 1 < |ts| { TokFirst(ts[k + 1]); }
    TokRead(text, q, ts[k], e);
  }

  ghost predicate At(ts: seq<Tok>, gaps: seq<string>, at: seq<nat>) {
    |gaps| == |ts| + 1 == |at| && forall k {:trigger at[k]} :: 0 <= k <= |ts| ==> at[k] == Pos(ts, gaps, k)
  }

  lemma ReadAt(text: string, ts: seq<Tok>, gaps: seq<string>, at: seq<nat>, k: nat)
    requires Spaced(ts, gaps) && text == Text(ts, gaps, 0) && At(ts, gaps, at) && k < |ts|
    ensures LexedAt(text, ts, at, k)
  {
    LaidAt(ts, gaps, k);
    LaidAt(ts, gaps, k + 1);
    assert k + 1 < |ts| && Sticks(ts[k], ts[k + 1]) ==> gaps[k + 1] != "";
    assert at[k] == Pos(ts, gaps, k) && at[k + 1] == Pos(ts, gaps, k + 1);
    LaidRead(text, ts, gaps, k, Start(ts, gaps, k), at[k], Start(ts, gaps, k + 1), at[k + 1]);
  }

  lemma Ends(text: string, ts: seq<Tok>, gaps: seq<string>, at: seq<nat>)
    requires Spaced(ts, gaps) && text == Text(ts, gaps, 0) && At(ts, gaps, at)
    ensures at[0] == Skip(text, 0) && at[|ts|] == |text|
  {
    LaidAt(ts, gaps, 0);
    LaidSkip(text, ts, gaps, 0, 0, at[0]);
    LaidAt(ts, gaps, |ts|);
  }

  lemma Positions(ts: seq<Tok>, gaps: seq<string>) returns (at: seq<nat>)
    requires |gaps| == |ts| + 1
    ensures At(ts, gaps, at)
  {
    at := seq(|ts| + 1, k requires 0 <= k <= |ts| => Pos(ts, gaps, k));
  }

  lemma AllRead(text: string, ts: seq<Tok>, gaps: seq<string>, at: seq<nat>)
    requires Spaced(ts, gaps) && text == Text(ts, gaps, 0) && At(ts, gaps, at)
    ensures forall k: nat :: k < |ts| ==> LexedAt(text, ts, at, k)
  {
    forall k: nat | k < |ts| ensures LexedAt(text, ts, at, k) { ReadAt(text, ts, gaps, at, k); }
  }

  /** Every text of legal tokens, with any white space that keeps them apart, reads as those tokens. */
  lemma SpacedReads(text: string, ts: seq<Tok>, gaps: seq<string>) returns (at: seq<nat>)
    requires Spaced(ts, gaps) && text == Text(ts, gaps, 0)
    ensures Lexed(text, ts, at)
  {
    at := Positions(ts, gaps);
    AllRead(text, ts, gaps, at);
    Ends(text, ts, gaps, at);
  }
}
