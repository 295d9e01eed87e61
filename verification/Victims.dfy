/**
 * Which pages leave memory: the four replacement policies as an abstract machine that knows no frames, no
 * swap file and no page table, only the queue of resident pages, their accessed bits and their ages.
 */
module Victims {
  import opened Basics
  import opened Replacement

  const MAX_PSYC_PAGES: nat := 16
  const MAX_TOTAL_PAGES: nat := 32

  datatype Policy = SCFIFO | NFUA | LAPA | AQ

  ghost predicate InTables(s: seq<nat>, acc: seq<bool>, age: seq<nat>) {
    |s| > 0 && forall i {:trigger s[i]} :: 0 <= i < |s| ==> s[i] < |age| && s[i] < |acc|
  }

  /** Element m of s has the least age, and is the first that has. */
  ghost predicate Youngest(s: seq<nat>, age: seq<nat>, m: nat)
    requires m < |s| && forall i {:trigger s[i]} :: 0 <= i < |s| ==> s[i] < |age|
  {
    forall i {:trigger s[i]} :: 0 <= i < |s| ==> age[s[m]] <= age[s[i]] && (i < m ==> age[s[m]] < age[s[i]])
  }

  /** Element m of s has the fewest accesses, ties by signed age, and is the first that has. */
  ghost predicate Coldest(s: seq<nat>, age: seq<nat>, m: nat)
    requires m < |s| && forall i {:trigger s[i]} :: 0 <= i < |s| ==> s[i] < |age|
  {
    forall i {:trigger s[i]} :: 0 <= i < |s| ==> !Precedes(age[s[i]], age[s[m]]) && (i < m ==> Precedes(age[s[m]], age[s[i]]))
  }

  /** v is the policy's victim, r the queue it leaves and acc' the accessed bits. */
  ghost predicate Chosen(policy: Policy, s: seq<nat>, acc: seq<bool>, age: seq<nat>, v: nat, r: seq<nat>, acc': seq<bool>) {
    && InTables(s, acc, age)
    && match policy
       case SCFIFO => SecondChance(s, acc) == Choice(v, r, acc')
       case NFUA => acc' == acc && exists m: nat :: m < |s| && v == s[m] && r == Without(s, m) && Youngest(s, age, m)
       case LAPA => acc' == acc && exists m: nat :: m < |s| && v == s[m] && r == Without(s, m) && Coldest(s, age, m)
       case AQ => acc' == acc && v == s[0] && r == Without(s, 0)
  }

  lemma YoungestOnce(s: seq<nat>, age: seq<nat>, m: nat, n: nat)
    requires m < |s| && n < |s| && forall i {:trigger s[i]} :: 0 <= i < |s| ==> s[i] < |age|
    requires Youngest(s, age, m) && Youngest(s, age, n)
    ensures m == n
  {
    assert age[s[m]] <= age[s[n]] && age[s[n]] <= age[s[m]];
  }

  lemma ColdestOnce(s: seq<nat>, age: seq<nat>, m: nat, n: nat)
    requires m < |s| && n < |s| && forall i {:trigger s[i]} :: 0 <= i < |s| ==> s[i] < |age|
    requires Coldest(s, age, m) && Coldest(s, age, n)
    ensures m == n
  {
    assert s[m] < |age| && s[n] < |age|;
  }

  /** A policy leaves no choice. */
  lemma ChosenOnce(policy: Policy, s: seq<nat>, acc: seq<bool>, age: seq<nat>, v: nat, r: seq<nat>, acc': seq<bool>,
                   w: nat, q: seq<nat>, bits: seq<bool>)
    requires Chosen(policy, s, acc, age, v, r, acc') && Chosen(policy, s, acc, age, w, q, bits)
    ensures v == w && r == q && acc' == bits
  {
    match policy {
      case NFUA =>
        var m: nat :| m < |s| && v == s[m] && r == Without(s, m) && Youngest(s, age, m);
        var n: nat :| n < |s| && w == s[n] && q == Without(s, n) && Youngest(s, age, n);
        YoungestOnce(s, age, m, n);
      case LAPA =>
        var m: nat :| m < |s| && v == s[m] && r == Without(s, m) && Coldest(s, age, m);
        var n: nat :| n < |s| && w == s[n] && q == Without(s, n) && Coldest(s, age, n);
        ColdestOnce(s, age, m, n);
      case _ =>
    }
  }

  /** The first of the least aged among the first k. */
  ghost function LeastOf(s: seq<nat>, age: seq<nat>, k: nat): (m: nat)
    requires 0 < k <= |s| && forall i {:trigger s[i]} :: 0 <= i < |s| ==> s[i] < |age|
    ensures m < k
    decreases k
  {
    if k == 1 then 0
    else var m := LeastOf(s, age, k - 1); if age[s[k - 1]] < age[s[m]] then k - 1 else m
  }

  lemma {:induction false} LeastOfIs(s: seq<nat>, age: seq<nat>, k: nat)
    requires 0 < k <= |s| && forall i {:trigger s[i]} :: 0 <= i < |s| ==> s[i] < |age|
    ensures var m := LeastOf(s, age, k);
            forall i {:trigger s[i]} :: 0 <= i < k ==> age[s[m]] <= age[s[i]] && (i < m ==> age[s[m]] < age[s[i]])
    decreases k
  {
    if k > 1 { LeastOfIs(s, age, k - 1); }
  }

  /** The first of those that no other of the first k precedes. */
  ghost function ColdestOf(s: seq<nat>, age: seq<nat>, k: nat): (m: nat)
    requires 0 < k <= |s| && forall i {:trigger s[i]} :: 0 <= i < |s| ==> s[i] < |age|
    ensures m < k
    decreases k
  {
    if k == 1 then 0
    else var m := ColdestOf(s, age, k - 1); if Precedes(age[s[k - 1]], age[s[m]]) then k - 1 else m
  }

  lemma {:induction false} ColdestOfIs(s: seq<nat>, age: seq<nat>, k: nat)
    requires 0 < k <= |s| && forall i {:trigger s[i]} :: 0 <= i < |s| ==> s[i] < |age|
    ensures var m := ColdestOf(s, age, k);
            forall i {:trigger s[i]} :: 0 <= i < k ==> !Precedes(age[s[i]], age[s[m]]) && (i < m ==> Precedes(age[s[m]], age[s[i]]))
    decreases k
  {
    if k > 1 { ColdestOfIs(s, age, k - 1); }
  }

  /** The choice itself. */
  ghost function Pick(policy: Policy, s: seq<nat>, acc: seq<bool>, age: seq<nat>): Choice
    requires InTables(s, acc, age)
  {
    match policy
    case SCFIFO => SecondChance(s, acc)
    case NFUA => var m := LeastOf(s, age, |s|); Choice(s[m], Without(s, m), acc)
    case LAPA => var m := ColdestOf(s, age, |s|); Choice(s[m], Without(s, m), acc)
    case AQ => Choice(s[0], Without(s, 0), acc)
  }

  lemma PickChosen(policy: Policy, s: seq<nat>, acc: seq<bool>, age: seq<nat>)
    requires InTables(s, acc, age)
    ensures var c := Pick(policy, s, acc, age); Chosen(policy, s, acc, age, c.victim, c.rest, c.acc)
  {
    match policy {
      case NFUA =>
        LeastOfIs(s, age, |s|);
        assert Youngest(s, age, LeastOf(s, age, |s|));
      case LAPA =>
        ColdestOfIs(s, age, |s|);
        assert Coldest(s, age, ColdestOf(s, age, |s|));
      case _ =>
    }
  }

  // ---- The abstract machine ------------------------------------------------------------------

  /** The resident pages in queue order, and of every page the accessed bit and the age. */
  datatype Pager = Pager(queue: seq<nat>, acc: seq<bool>, age: seq<nat>)

  /** A table with x in each of the MAX_TOTAL_PAGES slots. */
  function Each<T>(x: T): (r: seq<T>)
    ensures |r| == MAX_TOTAL_PAGES && forall i {:trigger r[i]} :: 0 <= i < |r| ==> r[i] == x
  {
    seq(MAX_TOTAL_PAGES, i => x)
  }

  /** The age of a page that has not been aged yet. */
  function FirstAge(policy: Policy): nat {
    if policy == LAPA then 0xFFFF_FFFF else 0
  }

  ghost function Initial(policy: Policy): Pager {
    Pager([], Each(false), Each(FirstAge(policy)))
  }

  function Marked(acc: seq<bool>, i: nat, on: bool): seq<bool> {
    if i < |acc| then acc[i := on] else acc
  }

  /** The policy's victim goes; copying it out sets its accessed bit. */
  ghost function Evict(policy: Policy, m: Pager): Pager {
    if InTables(m.queue, m.acc, m.age)
    then var c := Pick(policy, m.queue, m.acc, m.age); Pager(c.rest, Marked(c.acc, c.victim, true), m.age)
    else m
  }

  /** Page i comes in, last in the queue and not yet accessed. */
  ghost function Admit(m: Pager, i: nat): Pager {
    Pager(m.queue + [i], Marked(m.acc, i, false), m.age)
  }

  /** Page i's accessed bit is set. */
  ghost function Used(m: Pager, i: nat): Pager {
    Pager(m.queue, Marked(m.acc, i, true), m.age)
  }

  /** Page i is accessed; if it is out it comes in for another. */
  ghost function Access(policy: Policy, m: Pager, i: nat): Pager {
    Used(if i in m.queue then m else Admit(Evict(policy, m), i), i)
  }

  lemma AccessIs(policy: Policy, m: Pager, i: nat)
    ensures Access(policy, m, i) == Used(if i in m.queue then m else Admit(Evict(policy, m), i), i)
  {
  }

  /** A process of t pages gets one more. */
  ghost function GrowOne(policy: Policy, m: Pager, t: nat): Pager {
    Admit(if t < MAX_PSYC_PAGES then m else Evict(policy, m), t)
  }

  ghost function Grown(policy: Policy, m: Pager, t: nat, t': nat): Pager
    decreases t'
  {
    if t' <= t then m else GrowOne(policy, Grown(policy, m, t, t' - 1), t' - 1)
  }

  lemma GrownMore(policy: Policy, m: Pager, t: nat, t': nat, n: Pager)
    requires t <= t' && n == Grown(policy, m, t, t')
    ensures GrowOne(policy, n, t') == Grown(policy, m, t, t' + 1)
  {
  }

  /** The ages of the t pages are shifted, their accessed bits moved in at the top. */
  ghost function AgedBy(age: seq<nat>, acc: seq<bool>, t: nat): (r: seq<nat>)
    requires |acc| == |age|
    ensures |r| == |age|
  {
    seq(|age|, i requires 0 <= i < |age| => if i < t then age[i] / 2 + (if acc[i] then 0x8000_0000 else 0) else age[i])
  }

  ghost function ClearedBelow(acc: seq<bool>, t: nat): (r: seq<bool>)
    ensures |r| == |acc|
  {
    seq(|acc|, i requires 0 <= i < |acc| => acc[i] && t <= i)
  }

  /** The process of t pages leaves the processor: only NFUA and LAPA age. */
  ghost function Ticked(policy: Policy, m: Pager, t: nat): Pager {
    if (policy == NFUA || policy == LAPA) && |m.acc| == |m.age|
    then Pager(m.queue, ClearedBelow(m.acc, t), AgedBy(m.age, m.acc, t))
    else m
  }

  /** Whatever is the policy's victim is the one picked. */
  lemma PickIs(policy: Policy, s: seq<nat>, acc: seq<bool>, age: seq<nat>, v: nat, r: seq<nat>, bits: seq<bool>)
    requires Chosen(policy, s, acc, age, v, r, bits)
    ensures Picks(policy, s, acc, age, Choice(v, r, bits))
  {
    var c := Pick(policy, s, acc, age);
    PickChosen(policy, s, acc, age);
    ChosenOnce(policy, s, acc, age, v, r, bits, c.victim, c.rest, c.acc);
  }

  ghost predicate Picks(policy: Policy, s: seq<nat>, acc: seq<bool>, age: seq<nat>, c: Choice) {
    InTables(s, acc, age) && Pick(policy, s, acc, age) == c
  }

  lemma EvictIs(policy: Policy, s: seq<nat>, acc: seq<bool>, age: seq<nat>, v: nat, r: seq<nat>, bits: seq<bool>)
    requires Picks(policy, s, acc, age, Choice(v, r, bits)) && v < |bits|
    ensures Evict(policy, Pager(s, acc, age)) == Pager(r, bits[v := true], age)
  {
  }
}
