/**
 * grep's pattern matcher.  A pattern is read as a list of items; it matches a text from
 * position s on when the text can be cut up so that each item gets a stretch it accepts.
 */
module Grep {

  /** One(c): a single character; Many(c): any number of them; End: the end of the text. */
  datatype Item = One(c: char) | Many(c: char) | End

  /** c* is looked for before $, and $ is special only as the last character. */
  ghost function Items(re: string): (items: seq<Item>)
    decreases |re|
  {
    if re == [] then []
    else if |re| >= 2 && re[1] == '*' then [Many(re[0])] + Items(re[2..])
    else if re == "$" then [End]
    else [One(re[0])] + Items(re[1..])
  }

  predicate Accepts(c: char, x: char) {
    c == '.' || c == x
  }

  ghost predicate AllAccepted(c: char, text: string, i: nat, j: nat)
    requires i <= j <= |text|
  {
    forall k :: i <= k < j ==> Accepts(c, text[k])
  }

  /** The item accepts the stretch of text from i to j. */
  ghost predicate Takes(item: Item, text: string, i: nat, j: nat) {
    && i <= j <= |text|
    && match item
       case One(c) => j == i + 1 && Accepts(c, text[i])
       case Many(c) => AllAccepted(c, text, i, j)
       case End => i == j == |text|
  }

  /** cuts divides a stretch of text among the items. */
  ghost predicate Divides(items: seq<Item>, text: string, cuts: seq<nat>) {
    && |cuts| == |items| + 1 && cuts[0] <= |text|
    && forall i :: 0 <= i < |items| ==> Takes(items[i], text, cuts[i], cuts[i + 1])
  }

  ghost predicate MatchesFrom(items: seq<Item>, text: string, s: nat) {
    exists cuts :: Divides(items, text, cuts) && cuts[0] == s
  }

  /** What match promises: some stretch of the text fits the pattern, from the start if it begins with ^. */
  ghost predicate Matches(re: string, text: string) {
    if re != [] && re[0] == '^' then MatchesFrom(Items(re[1..]), text, 0)
    else exists s: nat :: s <= |text| && MatchesFrom(Items(re), text, s)
  }

  lemma MatchNil(text: string, s: nat)
    ensures MatchesFrom([], text, s) <==> s <= |text|
  {
    if s <= |text| { assert Divides([], text, [s]); }
  }

  /** The first item takes a stretch, and the others match from its end. */
  lemma MatchCons(item: Item, rest: seq<Item>, text: string, s: nat)
    ensures MatchesFrom([item] + rest, text, s) <==> exists j: nat :: Takes(item, text, s, j) && MatchesFrom(rest, text, j)
  {
    var items := [item] + rest;
    if MatchesFrom(items, text, s) {
      var cuts :| Divides(items, text, cuts) && cuts[0] == s;
      assert Takes(items[0], text, cuts[0], cuts[1]);
      forall i | 0 <= i < |rest| ensures Takes(rest[i], text, cuts[1..][i], cuts[1..][i + 1]) {
        assert Takes(items[i + 1], text, cuts[i + 1], cuts[i + 1 + 1]);
      }
      assert Divides(rest, text, cuts[1..]);
      assert Takes(item, text, s, cuts[1]) && MatchesFrom(rest, text, cuts[1]);
    }
    if j: nat :| Takes(item, text, s, j) && MatchesFrom(rest, text, j) {
      var cuts :| Divides(rest, text, cuts) && cuts[0] == j;
      var all := [s] + cuts;
      forall i | 0 <= i < |items| ensures Takes(items[i], text, all[i], all[i + 1]) {
        if i > 0 { assert Takes(rest[i - 1], text, cuts[i - 1], cuts[i - 1 + 1]); }
      }
      assert Divides(items, text, all);
    }
  }

  /** matchhere, on the pattern and the text from position s on. */
  method MatchHere(re: string, text: string, s: nat) returns (r: bool)
    requires s <= |text|
    ensures r <==> MatchesFrom(Items(re), text, s)
    decreases |re|, 0
  {
    if re == [] {
      MatchNil(text, s);
      return true;
    }
    if |re| >= 2 && re[1] == '*' {
      r := MatchStar(re[0], re[2..], text, s);
      return;
    }
    if re == "$" {
      MatchCons(End, [], text, s);
      MatchNil(text, |text|);
      assert Takes(End, text, |text|, |text|);
      assert [End] + [] == [End];
      return s == |text|;
    }
    MatchCons(One(re[0]), Items(re[1..]), text, s);
    if s < |text| && (re[0] == '.' || re[0] == text[s]) {
      assert Takes(One(re[0]), text, s, s + 1);
      r := MatchHere(re[1..], text, s + 1);
      return;
    }
    r := false;
  }

  /** matchstar: c* then re. */
  method MatchStar(c: char, re: string, text: string, s: nat) returns (r: bool)
    requires s <= |text|
    ensures r <==> MatchesFrom([Many(c)] + Items(re), text, s)
    decreases |re|, 1
  {
    MatchCons(Many(c), Items(re), text, s);
    var j := s;
    while true
      invariant s <= j <= |text| && AllAccepted(c, text, s, j)
      invariant forall k: nat :: s <= k < j ==> !MatchesFrom(Items(re), text, k)
      decreases |text| - j
    {
      r := MatchHere(re, text, j);
      if r {
        assert Takes(Many(c), text, s, j);
        return;
      }
      if !(j < |text| && (text[j] == c || c == '.')) {
        assert forall k: nat :: k > j ==> !Takes(Many(c), text, s, k);
        return;
      }
      j := j + 1;
    }
  }

  /** match: search for the pattern anywhere in the text. */
  method Match(re: string, text: string) returns (r: bool)
    ensures r <==> Matches(re, text)
  {
    if re != [] && re[0] == '^' {
      r := MatchHere(re[1..], text, 0);
      return;
    }
    var s := 0;
    while s <= |text|
      invariant 0 <= s <= |text| + 1
      invariant forall k: nat :: k < s ==> !MatchesFrom(Items(re), text, k)
    {
      r := MatchHere(re, text, s);
      if r { return; }
      s := s + 1;
    }
    r := false;
  }
}
