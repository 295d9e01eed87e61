/**
 * The page replacement policies: the queue of resident pages is a fixed array of slot
 * numbers, filled from the front and padded with -1, edited in place.
 */
module Replacement {

  /** The queue array q holds exactly the list s. */
  ghost predicate Holds(q: seq<int>, s: seq<nat>) {
    && |s| <= |q|
    && (forall i {:trigger q[i]} :: 0 <= i < |q| ==> q[i] == if i < |s| then s[i] else -1)
  }

  /** s without its m-th element. */
  ghost function Without(s: seq<nat>, m: nat): (r: seq<nat>)
    requires m < |s|
    ensures |r| == |s| - 1
    ensures forall i {:trigger r[i]} :: 0 <= i < |r| ==> r[i] == if i < m then s[i] else s[i + 1]
    ensures multiset(s) == multiset(r) + multiset{s[m]}
  {
    assert s == s[..m] + [s[m]] + s[m + 1..];
    s[..m] + s[m + 1..]
  }

  /** fixQueue: close the gap at index. */
  method FixQueue(q: array<int>, index: nat, ghost s: seq<nat>)
    requires Holds(q[..], s) && index < |s|
    modifies q
    ensures Holds(q[..], Without(s, index))
  {
    var i := index;
    while i < q.Length - 1
      invariant index <= i <= q.Length - 1
      invariant forall k {:trigger q[k]} :: 0 <= k < q.Length ==>
        q[k] == if index <= k < i then (if k + 1 < |s| then s[k + 1] else -1) else if k < |s| then s[k] else -1
    {
      q[i] := q[i + 1];
      i := i + 1;
    }
    q[q.Length - 1] := -1;
  }

  /** insert: the first free cell takes x. */
  method Insert(q: array<int>, x: nat, ghost s: seq<nat>)
    requires Holds(q[..], s) && |s| < q.Length
    modifies q
    ensures Holds(q[..], s + [x])
  {
    var i := 0;
    while q[i] != -1
      invariant 0 <= i <= |s|
      decreases |s| - i
    {
      i := i + 1;
    }
    q[i] := x;
  }

  /** removeAQ: first in, first out. */
  method RemoveAQ(q: array<int>, ghost s: seq<nat>) returns (v: nat)
    requires Holds(q[..], s) && 0 < |s|
    modifies q
    ensures v == s[0] && Holds(q[..], Without(s, 0))
  {
    v := q[0];
    FixQueue(q, 0, s);
  }

  /** removeNFUA: the first page of least age. */
  method RemoveNFUA(q: array<int>, age: seq<nat>, ghost s: seq<nat>) returns (v: nat, ghost m: nat)
    requires Holds(q[..], s) && 0 < |s| == q.Length && forall i :: 0 <= i < |s| ==> s[i] < |age|
    modifies q
    ensures m < |s| && v == s[m] && Holds(q[..], Without(s, m))
    ensures forall i :: 0 <= i < |s| ==> age[v] <= age[s[i]] && (i < m ==> age[v] < age[s[i]])
  {
    var best := 0;
    var i := 1;
    while i < q.Length
      modifies {}
      invariant 1 <= i <= q.Length && 0 <= best < i
      invariant forall k :: 0 <= k < i ==> age[s[best]] <= age[s[k]] && (k < best ==> age[s[best]] < age[s[k]])
    {
      assert q[i] == s[i] && q[best] == s[best];
      if age[q[i]] < age[q[best]] { best := i; }
      i := i + 1;
    }
    v, m := q[best], best;
    FixQueue(q, best, s);
  }

  // ---- LAPA -------------------------------------------------------------------------

  ghost function Pow2(j: nat): (p: nat)
    ensures p >= 1
  {
    if j == 0 then 1 else 2 * Pow2(j - 1)
  }

  /** How many of the low j bits of age are set. */
  ghost function Ones(age: nat, j: nat): nat {
    if j == 0 then 0 else Ones(age, j - 1) + (age / Pow2(j - 1)) % 2
  }

  /** The age as the signed int that removeLAPA compares. */
  function Signed(age: nat): (r: int)
    ensures age < 0x1_0000_0000 ==> -0x8000_0000 <= r < 0x8000_0000 && (r == age || r == age - 0x1_0000_0000)
  {
    if age < 0x8000_0000 then age else age - 0x1_0000_0000
  }

  /** Fewer accesses first; among equals the lower signed age. */
  ghost predicate Precedes(a: nat, b: nat) {
    Ones(a, 32) < Ones(b, 32) || (Ones(a, 32) == Ones(b, 32) && Signed(a) < Signed(b))
  }

  method CountOnes(age: nat) returns (n: nat)
    ensures n == Ones(age, 32)
  {
    n := 0;
    var bit := 1;
    var j := 0;
    while j < 32
      invariant 0 <= j <= 32 && n == Ones(age, j) && bit == Pow2(j)
    {
      if (age / bit) % 2 == 1 { n := n + 1; }
      bit, j := 2 * bit, j + 1;
    }
  }

  lemma {:induction false} OnesBound(age: nat, j: nat)
    ensures Ones(age, j) <= j
    decreases j
  {
    if j > 0 { OnesBound(age, j - 1); }
  }

  /** removeLAPA: the first page that no other precedes. */
  method RemoveLAPA(q: array<int>, age: seq<nat>, ghost s: seq<nat>) returns (v: nat, ghost m: nat)
    requires Holds(q[..], s) && 0 < |s| == q.Length && forall i :: 0 <= i < |s| ==> s[i] < |age|
    modifies q
    ensures m < |s| && v == s[m] && Holds(q[..], Without(s, m))
    ensures forall i :: 0 <= i < |s| ==> !Precedes(age[s[i]], age[v]) && (i < m ==> Precedes(age[v], age[s[i]]))
  {
    var best := -1;
    var bestAge: int := -1;
    var bestCount := 33;
    var i := 0;
    while i < q.Length
      modifies {}
      invariant 0 <= i <= q.Length && -1 <= best < i && (best == -1 <==> i == 0)
      invariant best == -1 ==> bestCount == 33
      invariant best >= 0 ==> bestCount == Ones(age[s[best]], 32) && bestAge == Signed(age[s[best]])
      invariant best >= 0 ==> forall k :: 0 <= k < i ==>
        !Precedes(age[s[k]], age[s[best]]) && (k < best ==> Precedes(age[s[best]], age[s[k]]))
    {
      assert q[i] == s[i];
      var a := age[q[i]];
      var n := CountOnes(a);
      OnesBound(a, 32);
      if n < bestCount {
        best, bestAge, bestCount := i, Signed(a), n;
      } else if n == bestCount && Signed(a) < bestAge {
        best, bestAge := i, Signed(a);
      }
      i := i + 1;
    }
    v, m := q[best], best;
    FixQueue(q, best, s);
  }

  // ---- Second chance ------------------------------------------------------------------

  ghost function Trues(acc: seq<bool>, k: nat): nat
    requires k <= |acc|
    decreases k
  {
    if k == 0 then 0 else Trues(acc, k - 1) + if acc[k - 1] then 1 else 0
  }

  lemma {:induction false} TruesCleared(acc: seq<bool>, x: nat, k: nat)
    requires x < |acc| && k <= |acc| && acc[x]
    ensures Trues(acc[x := false], k) == Trues(acc, k) - if x < k then 1 else 0
    decreases k
  {
    if k > 0 { TruesCleared(acc, x, k - 1); }
  }

  datatype Choice = Choice(victim: nat, rest: seq<nat>, acc: seq<bool>)

  /** Pop the head; if it was accessed, clear its bit and push it to the back; else evict it. */
  ghost function SecondChance(s: seq<nat>, acc: seq<bool>): (r: Choice)
    requires |s| > 0 && forall i :: 0 <= i < |s| ==> s[i] < |acc|
    decreases Trues(acc, |acc|)
  {
    if acc[s[0]] then
      TruesCleared(acc, s[0], |acc|);
      SecondChance(s[1..] + [s[0]], acc[s[0] := false])
    else Choice(s[0], s[1..], acc)
  }

  /** s with its first i elements moved to the back. */
  ghost function Rotated(s: seq<nat>, i: nat): (r: seq<nat>)
    requires i <= |s|
    ensures |r| == |s| && forall k {:trigger r[k]} :: 0 <= k < |r| ==> r[k] == if k < |s| - i then s[k + i] else s[k - (|s| - i)]
  {
    s[i..] + s[..i]
  }

  lemma RotateMore(s: seq<nat>, i: nat)
    requires i < |s|
    ensures Rotated(s, i)[1..] + [Rotated(s, i)[0]] == Rotated(s, i + 1)
  {
  }

  lemma SecondChanceTurn(s: seq<nat>, i: nat, acc: seq<bool>)
    requires i < |s| && (forall k :: 0 <= k < |s| ==> s[k] < |acc|) && acc[s[i]]
    ensures SecondChance(Rotated(s, i), acc) == SecondChance(Rotated(s, i + 1), acc[s[i] := false])
  {
    RotateMore(s, i);
  }

  /** What the choice takes from the queue is one occurrence of the victim. */
  lemma {:induction false} SecondChanceTakes(s: seq<nat>, acc: seq<bool>)
    requires |s| > 0 && forall i :: 0 <= i < |s| ==> s[i] < |acc|
    ensures var r := SecondChance(s, acc);
            multiset(s) == multiset(r.rest) + multiset{r.victim} && |r.rest| == |s| - 1 && |r.acc| == |acc|
    decreases Trues(acc, |acc|)
  {
    assert s == [s[0]] + s[1..];
    if acc[s[0]] {
      TruesCleared(acc, s[0], |acc|);
      SecondChanceTakes(s[1..] + [s[0]], acc[s[0] := false]);
    }
  }

  /**
   * removeSCFIFO.  The array code, which finds the first page not accessed and rebuilds the
   * queue from the pages after it and the ones it passed, does what second chance does.
   */
  method RemoveSCFIFO(q: array<int>, acc: array<bool>, ghost s: seq<nat>) returns (v: nat)
    requires Holds(q[..], s) && 0 < |s| == q.Length && forall i :: 0 <= i < |s| ==> s[i] < acc.Length
    modifies q, acc
    ensures var r := old(SecondChance(s, acc[..]));
            v == r.victim && Holds(q[..], r.rest) && acc[..] == r.acc
  {
    var temp := new int[q.Length](k => -1);
    var i := PassAccessed(q, acc, temp, s);
    if i == q.Length {
      assert Rotated(s, i) == s && Without(s, 0) == s[1..];
      v := q[0];
      FixQueue(q, 0, s);
      return;
    }
    assert Rotated(s, i)[0] == s[i];
    v := q[i];
    Refill(q, temp, i, s);
  }

  /** The pages before the first one not accessed go to temp, their accessed bits cleared. */
  method PassAccessed(q: array<int>, acc: array<bool>, temp: array<int>, ghost s: seq<nat>) returns (i: nat)
    requires Holds(q[..], s) && 0 < |s| == q.Length == temp.Length && q != temp
    requires forall k :: 0 <= k < |s| ==> s[k] < acc.Length
    requires forall k :: 0 <= k < temp.Length ==> temp[k] == -1
    modifies acc, temp
    ensures i <= q.Length && SecondChance(Rotated(s, i), acc[..]) == old(SecondChance(s, acc[..]))
    ensures i < q.Length ==> !acc[s[i]]
    ensures i == q.Length ==> !acc[s[0]]
    ensures forall k {:trigger temp[k]} :: 0 <= k < q.Length ==> temp[k] == if k < i then s[k] else -1
  {
    ghost var want := SecondChance(s, acc[..]);
    assert Rotated(s, 0) == s;
    i := 0;
    while i < q.Length && acc[q[i]]
      invariant 0 <= i <= q.Length && Holds(q[..], s)
      invariant SecondChance(Rotated(s, i), acc[..]) == want
      invariant i > 0 ==> !acc[s[0]]
      invariant forall k {:trigger temp[k]} :: 0 <= k < q.Length ==> temp[k] == if k < i then s[k] else -1
    {
      assert q[i] == s[i];
      SecondChanceTurn(s, i, acc[..]);
      acc[q[i]] := false;
      temp[i] := q[i];
      i := i + 1;
    }
  }

  /** The queue becomes what followed index i, then what came before it. */
  method Refill(q: array<int>, temp: array<int>, i: nat, ghost s: seq<nat>)
    requires Holds(q[..], s) && i < |s| == q.Length == temp.Length && q != temp
    requires forall k {:trigger temp[k]} :: 0 <= k < q.Length ==> temp[k] == if k < i then s[k] else -1
    modifies q
    ensures Holds(q[..], Rotated(s, i)[1..])
  {
    var n := 0;
    while i + 1 + n < q.Length && q[i + 1 + n] != -1
      invariant 0 <= n && i + 1 + n <= q.Length
      invariant forall k {:trigger q[k]} :: 0 <= k < q.Length ==> q[k] == if k < n then s[i + 1 + k] else s[k]
    {
      q[n] := q[i + 1 + n];
      n := n + 1;
    }
    ghost var m := n;
    var j := 0;
    while n < q.Length
      invariant m == q.Length - i - 1 && m <= n <= q.Length && j == n - m
      invariant forall k {:trigger q[k]} :: 0 <= k < n ==> q[k] == if k < m then s[i + 1 + k] else temp[k - m]
    {
      q[n] := temp[j];
      j, n := j + 1, n + 1;
    }
  }
}
