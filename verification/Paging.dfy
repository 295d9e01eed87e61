/**
 * The paging layer of one tracked process: at most MAX_PSYC_PAGES of its pages are in
 * memory, the others in its swap file.  The page in slot i of pagesDS is page number i,
 * since growth fills the slots in address order and no slot is given up.
 */
module Paging {
  import opened Basics
  import opened Replacement
  import opened Victims

  /** MAXFILE * BSIZE: the longest file writei will write. */
  const MAXFILEBYTES: nat := (12 + 128) * 512

  const KERNBASE: nat := 0x8000_0000

  datatype ActResult = Went | Broke | Waits

  type Word = x: int | 0 <= x < 0x1_0000_0000

  // ---- The invariant, part by part -------------------------------------------------------

  /** The first t slots are allocated, in address order; the others hold address 0. */
  ghost predicate Slots(vaddr: seq<nat>, alloc: seq<bool>, t: nat) {
    && |vaddr| == MAX_TOTAL_PAGES && |alloc| == MAX_TOTAL_PAGES && t <= MAX_TOTAL_PAGES
    && (forall i {:trigger alloc[i]} :: 0 <= i < |alloc| ==> (alloc[i] <==> i < t))
    && (forall i {:trigger vaddr[i]} :: 0 <= i < |vaddr| ==> vaddr[i] == if i < t then i * PGSIZE else 0)
  }

  /** The queue s has each resident page once and no other. */
  ghost predicate Resident(inRam: seq<bool>, s: seq<nat>, t: nat) {
    && |inRam| == MAX_TOTAL_PAGES
    && (forall i {:trigger inRam[i]} :: 0 <= i < |inRam| ==> multiset(s)[i] == (if inRam[i] then 1 else 0) && (inRam[i] ==> i < t))
    && (forall x :: x in s ==> x < t && x < |inRam|)
  }

  /** Present means resident, paged out means allocated and not resident. */
  ghost predicate Table(present: seq<bool>, paged: seq<bool>, inRam: seq<bool>, t: nat) {
    && |present| == |inRam| && |paged| == |inRam|
    && (forall i {:trigger present[i]} {:trigger paged[i]} :: 0 <= i < |inRam| ==>
          (present[i] <==> inRam[i]) && (paged[i] <==> i < t && !inRam[i]))
  }

  /** Frame f is on the free list once (own -1) or belongs to exactly one resident page. */
  ghost predicate FrameAt(inRam: seq<bool>, frame: seq<nat>, free: seq<nat>, own: map<nat, int>, f: nat)
    requires |frame| == |inRam|
  {
    if f !in own then f !in free
    else if own[f] == -1 then multiset(free)[f] == 1
    else multiset(free)[f] == 0 && 0 <= own[f] < |inRam| && inRam[own[f]] && frame[own[f]] == f
  }

  ghost predicate OwnedAt(inRam: seq<bool>, frame: seq<nat>, own: map<nat, int>, i: nat)
    requires i < |inRam| == |frame|
  {
    inRam[i] ==> frame[i] in own && own[frame[i]] == i
  }

  ghost predicate Frames(inRam: seq<bool>, frame: seq<nat>, free: seq<nat>, own: map<nat, int>) {
    && |frame| == |inRam|
    && (forall f: nat :: FrameAt(inRam, frame, free, own, f))
    && (forall i: nat :: i < |inRam| ==> OwnedAt(inRam, frame, own, i))
  }

  /** Page i, if paged out, is at offset slot[i] * PGSIZE of the swap file, which knows it. */
  ghost predicate OffsetAt(inRam: seq<bool>, off: seq<int>, t: nat, slot: seq<nat>, user: seq<int>, i: nat)
    requires i < |inRam| == |off| == |slot|
  {
    if i < t && !inRam[i] then slot[i] < |user| && off[i] == slot[i] * PGSIZE && user[slot[i]] == i
    else off[i] == -1
  }

  /** Slot k of the swap file holds page user[k], or nothing if it is the hole. */
  ghost predicate UserAt(inRam: seq<bool>, t: nat, slot: seq<nat>, user: seq<int>, hole: int, k: nat)
    requires k < |user| && |inRam| == |slot|
  {
    if k == hole then user[k] == -1
    else 0 <= user[k] < t && user[k] < |inRam| && !inRam[user[k]] && slot[user[k]] == k
  }

  /** Used and free offsets partition the swap file, in page steps. */
  ghost predicate Offsets(inRam: seq<bool>, off: seq<int>, t: nat, slot: seq<nat>, user: seq<int>, hole: int) {
    && |off| == |inRam| && |slot| == |inRam| && -1 <= hole < |user|
    && (forall i: nat :: i < |inRam| ==> OffsetAt(inRam, off, t, slot, user, i))
    && (forall k: nat :: k < |user| ==> UserAt(inRam, t, slot, user, hole, k))
  }

  /** The recycled offsets: at most one. */
  ghost function Recycled(hole: int): (a: seq<nat>)
    requires -1 <= hole
    ensures |a| <= 1
  {
    if hole == -1 then [] else [hole * PGSIZE]
  }

  /** Page i's contents, in its frame if resident and in the swap file otherwise. */
  ghost predicate StoredAt<Page>(memory: seq<Page>, inRam: seq<bool>, frame: seq<nat>, mem: map<nat, Page>,
                                 off: seq<int>, swap: map<int, Page>, i: nat)
    requires i < |memory| <= |inRam| == |frame| == |off|
  {
    if inRam[i] then frame[i] in mem && mem[frame[i]] == memory[i]
    else off[i] in swap && swap[off[i]] == memory[i]
  }

  ghost predicate Stored<Page>(memory: seq<Page>, inRam: seq<bool>, frame: seq<nat>, mem: map<nat, Page>,
                               off: seq<int>, swap: map<int, Page>)
  {
    && |memory| <= |inRam| == |frame| == |off|
    && (forall i: nat :: i < |memory| ==> StoredAt(memory, inRam, frame, mem, off, swap, i))
  }

  /** Victim v leaves the queue. */
  lemma Evicted(inRam: seq<bool>, s: seq<nat>, t: nat, r: seq<nat>, v: nat)
    requires Resident(inRam, s, t) && multiset(s) == multiset(r) + multiset{v}
    ensures v < t && v < |inRam| && inRam[v] && |r| == |s| - 1 && Resident(inRam[v := false], r, t)
  {
    assert v in multiset(s) && v in s;
    assert |multiset(s)| == |multiset(r)| + 1;
    forall x | x in r ensures x < t && x < |inRam| { assert x in multiset(r) && x in multiset(s) && x in s; }
  }

  lemma InQueue(inRam: seq<bool>, s: seq<nat>, t: nat, i: nat)
    requires Resident(inRam, s, t) && i < |inRam|
    ensures i in s <==> inRam[i]
  {
    assert i in s <==> multiset(s)[i] > 0;
  }

  /** Page i joins the queue. */
  lemma Admitted(inRam: seq<bool>, s: seq<nat>, t: nat, i: nat, t': nat)
    requires Resident(inRam, s, t) && i < |inRam| && !inRam[i] && i < t' && t <= t' <= |inRam|
    ensures Resident(inRam[i := true], s + [i], t')
  {
    assert multiset(s + [i]) == multiset(s) + multiset{i};
  }

  /** As many pages are resident as the queue is long. */
  lemma ResidentCount(inRam: seq<bool>, s: seq<nat>, t: nat, R: set<nat>)
    requires Resident(inRam, s, t) && forall i :: i in R <==> 0 <= i < |inRam| && inRam[i]
    ensures |R| == |s|
  {
    assert multiset(R) == multiset(s) by {
      forall i: nat ensures multiset(R)[i] == multiset(s)[i] {
        if i in R { assert inRam[i]; } else if i < |inRam| { assert !inRam[i]; assert multiset(s)[i] == 0; } else { assert i !in s; }
      }
    }
    assert |multiset(R)| == |R|;
    assert |multiset(s)| == |s|;
  }

  /** A page that is out means the queue is shorter than the number of pages. */
  lemma AbsentMeansFull(inRam: seq<bool>, s: seq<nat>, t: nat, p: nat)
    requires Resident(inRam, s, t) && p < t && p < |inRam| && !inRam[p]
    ensures |s| < t
  {
    var R := set i: nat | i < t && i < |inRam| && inRam[i];
    ResidentCount(inRam, s, t, R);
    Below(R, p, t);
  }

  lemma {:induction false} Below(R: set<nat>, p: nat, t: nat)
    requires p < t && p !in R && forall i :: i in R ==> i < t
    ensures |R| < t
  {
    if t - 1 == p {
      if p > 0 { Full(R, p); }
    } else {
      Below(R - {t - 1}, p, t - 1);
      if t - 1 in R { assert |R| == |R - {t - 1}| + 1; } else { assert R == R - {t - 1}; }
    }
  }

  lemma {:induction false} Full(R: set<nat>, t: nat)
    requires forall i :: i in R ==> i < t
    ensures |R| <= t
  {
    if t == 0 { assert R == {}; } else {
      Full(R - {t - 1}, t - 1);
      if t - 1 in R { assert |R| == |R - {t - 1}| + 1; } else { assert R == R - {t - 1}; }
    }
  }

  /** Exactly the first n pages are present, and none is paged out. */
  ghost predicate HasPages(present: seq<bool>, paged: seq<bool>, n: nat) {
    && |present| == |paged| == MAX_TOTAL_PAGES
    && (forall i {:trigger present[i]} {:trigger paged[i]} :: 0 <= i < |present| ==> (present[i] <==> i < n) && !paged[i])
  }

  /** Of the first t pages those from lo to a are gone. */
  ghost predicate Gap(present: seq<bool>, paged: seq<bool>, t: nat, lo: nat, a: nat) {
    && |present| == |paged| == MAX_TOTAL_PAGES
    && (forall i {:trigger present[i]} {:trigger paged[i]} :: 0 <= i < |present| ==>
          (present[i] <==> i < t && !(lo <= i < a)) && !paged[i])
  }

  lemma Gone(present: seq<bool>, paged: seq<bool>, t: nat, lo: nat, a: nat)
    requires Gap(present, paged, t, lo, a) && lo <= a < MAX_TOTAL_PAGES
    ensures Gap(present[a := false], paged, t, lo, a + 1)
  {
  }

  /** With at most MAX_PSYC_PAGES pages, all are resident. */
  lemma AllResident(inRam: seq<bool>, s: seq<nat>, t: nat, present: seq<bool>, paged: seq<bool>)
    requires Resident(inRam, s, t) && Table(present, paged, inRam, t) && |s| == t <= |inRam|
    ensures present == inRam && HasPages(present, paged, t)
  {
    forall i: nat | i < t ensures inRam[i] { if !inRam[i] { AbsentMeansFull(inRam, s, t, i); } }
    assert forall i :: 0 <= i < |inRam| ==> present[i] == inRam[i];
  }

  /** The first pages of a memory are stored if all are. */
  lemma Fewer<Page>(memory: seq<Page>, m: seq<Page>, inRam: seq<bool>, present: seq<bool>, frame: seq<nat>,
                    mem: map<nat, Page>,
                    off: seq<int>, swap: map<int, Page>)
    requires Stored(memory, inRam, frame, mem, off, swap) && m <= memory && present == inRam
    ensures Stored(m, present, frame, mem, off, swap)
  {
    forall i: nat | i < |m| ensures StoredAt(m, present, frame, mem, off, swap, i) {
      assert StoredAt(memory, inRam, frame, mem, off, swap, i);
    }
  }

  /** The pages of m are stored, and every frame is free or a present page's. */
  ghost predicate Kept<Page>(m: seq<Page>, present: seq<bool>, frame: seq<nat>, mem: map<nat, Page>, off: seq<int>,
                             swap: map<int, Page>, own: map<nat, int>, free: seq<nat>) {
    Stored(m, present, frame, mem, off, swap) && Frames(present, frame, free, own) && own.Keys == mem.Keys
  }

  /** The frame of page a, past the pages of m, is given back. */
  lemma GiveBack<Page>(m: seq<Page>, present: seq<bool>, frame: seq<nat>, mem: map<nat, Page>, off: seq<int>,
                       swap: map<int, Page>,
                       own: map<nat, int>, free: seq<nat>, a: nat, junk: Page)
    requires Kept(m, present, frame, mem, off, swap, own, free) && |m| <= a < |present| && present[a]
    ensures a < |frame|
    ensures Kept(m, present[a := false], frame, mem[frame[a] := junk], off, swap, own[frame[a] := -1], [frame[a]] + free)
  {
    FrameFreed(present, frame, free, own, a);
    var present', mem' := present[a := false], mem[frame[a] := junk];
    forall i: nat | i < |m| ensures StoredAt(m, present', frame, mem', off, swap, i) {
      assert StoredAt(m, present, frame, mem, off, swap, i) && OwnedAt(present, frame, own, i) && OwnedAt(present, frame, own, a);
    }
  }

  /** kfree of page v's frame. */
  lemma FrameFreed(inRam: seq<bool>, frame: seq<nat>, free: seq<nat>, own: map<nat, int>, v: nat)
    requires Frames(inRam, frame, free, own) && v < |inRam| && inRam[v]
    ensures frame[v] in own && Frames(inRam[v := false], frame, [frame[v]] + free, own[frame[v] := -1])
  {
    assert OwnedAt(inRam, frame, own, v) && FrameAt(inRam, frame, free, own, frame[v]);
    var inRam', free', own' := inRam[v := false], [frame[v]] + free, own[frame[v] := -1];
    assert multiset(free') == multiset{frame[v]} + multiset(free);
    forall f: nat ensures FrameAt(inRam', frame, free', own', f) { assert FrameAt(inRam, frame, free, own, f); }
    forall i: nat | i < |inRam| ensures OwnedAt(inRam', frame, own', i) { assert OwnedAt(inRam, frame, own, i); }
  }

  /** kalloc for page i. */
  lemma FrameTaken(inRam: seq<bool>, frame: seq<nat>, free: seq<nat>, own: map<nat, int>, i: nat)
    requires Frames(inRam, frame, free, own) && i < |inRam| && !inRam[i] && |free| > 0
    ensures free[0] in own && own[free[0]] == -1
    ensures Frames(inRam[i := true], frame[i := free[0]], free[1..], own[free[0] := i])
  {
    assert free == [free[0]] + free[1..];
    assert multiset(free) == multiset{free[0]} + multiset(free[1..]);
    assert free[0] in multiset(free) && FrameAt(inRam, frame, free, own, free[0]);
    var inRam', frame', free', own' := inRam[i := true], frame[i := free[0]], free[1..], own[free[0] := i];
    forall f: nat ensures FrameAt(inRam', frame', free', own', f) { assert FrameAt(inRam, frame, free, own, f); }
    forall j: nat | j < |inRam| ensures OwnedAt(inRam', frame', own', j) {
      assert OwnedAt(inRam, frame, own, j);
    }
  }

  /** Victim v goes to slot k of the swap file: the hole if there is one, else a new slot. */
  lemma OffsetGiven(inRam: seq<bool>, off: seq<int>, t: nat, slot: seq<nat>, user: seq<int>, hole: int, v: nat)
    requires Offsets(inRam, off, t, slot, user, hole) && v < t && v < |inRam| && inRam[v]
    ensures var k := if hole == -1 then |user| else hole;
            var user' := if hole == -1 then user + [v as int] else user[hole := v];
            Offsets(inRam[v := false], off[v := k * PGSIZE], t, slot[v := k], user', -1)
  {
    var k := if hole == -1 then |user| else hole;
    var user' := if hole == -1 then user + [v as int] else user[hole := v];
    var inRam', off', slot' := inRam[v := false], off[v := k * PGSIZE], slot[v := k];
    forall i: nat | i < |inRam| ensures OffsetAt(inRam', off', t, slot', user', i) {
      assert OffsetAt(inRam, off, t, slot, user, i);
      if hole != -1 { assert UserAt(inRam, t, slot, user, hole, hole); }
    }
    forall j: nat | j < |user'| ensures UserAt(inRam', t, slot', user', -1, j) {
      if j != k { assert UserAt(inRam, t, slot, user, hole, j); }
    }
  }

  /** Page i comes back, and its slot becomes the hole. */
  lemma OffsetReturned(inRam: seq<bool>, off: seq<int>, t: nat, slot: seq<nat>, user: seq<int>, i: nat)
    requires Offsets(inRam, off, t, slot, user, -1) && i < t && i < |inRam| && !inRam[i]
    ensures slot[i] < |user| && off[i] == slot[i] * PGSIZE
    ensures Offsets(inRam[i := true], off[i := -1], t, slot, user[slot[i] := -1], slot[i])
  {
    assert OffsetAt(inRam, off, t, slot, user, i);
    var inRam', off', user' := inRam[i := true], off[i := -1], user[slot[i] := -1];
    forall j: nat | j < |inRam| ensures OffsetAt(inRam', off', t, slot, user', j) {
      assert OffsetAt(inRam, off, t, slot, user, j);
    }
    forall k: nat | k < |user'| ensures UserAt(inRam', t, slot, user', slot[i], k) {
      assert UserAt(inRam, t, slot, user, -1, k);
    }
  }

  /** No page in the swap file is at the offset that the hole, or the end of the file, has. */
  lemma OffsetFree(inRam: seq<bool>, off: seq<int>, t: nat, slot: seq<nat>, user: seq<int>, hole: int, i: nat)
    requires Offsets(inRam, off, t, slot, user, hole) && i < t && i < |inRam| && !inRam[i]
    ensures off[i] != (if hole == -1 then |user| else hole) * PGSIZE && 0 <= off[i] < |user| * PGSIZE
  {
    assert OffsetAt(inRam, off, t, slot, user, i);
    if hole != -1 { assert UserAt(inRam, t, slot, user, hole, hole); }
  }

  /** The swap file has n pages. */
  ghost predicate Spans<Page>(swap: map<int, Page>, n: nat) {
    forall k: nat :: k < n ==> k * PGSIZE in swap
  }

  lemma SpansMore<Page>(swap: map<int, Page>, n: nat, k: nat, page: Page)
    requires Spans(swap, n) && k <= n
    ensures Spans(swap[k * PGSIZE := page], if k == n then n + 1 else n)
  {
  }

  lemma TableSet(present: seq<bool>, paged: seq<bool>, inRam: seq<bool>, t: nat, i: nat, b: bool)
    requires Table(present, paged, inRam, t) && i < t && i < |inRam|
    ensures Table(present[i := b], paged[i := !b], inRam[i := b], t)
  {
  }

  /** How many frames a process of t pages occupies. */
  function ResidentPages(t: nat): nat {
    Min(MAX_PSYC_PAGES, t)
  }

  /** Are the free frames enough to go from t pages to t'? */
  ghost predicate Enough(free: nat, t: nat, t': nat) {
    free + ResidentPages(t) >= ResidentPages(t')
  }

  /** memory followed by zero pages up to n of them. */
  ghost function Extended<Page>(memory: seq<Page>, zero: Page, n: nat): seq<Page>
    decreases n - |memory|
  {
    if |memory| >= n then memory else Extended(memory + [zero], zero, n)
  }

  /** Whichever policy is compiled in, its victim leaves the queue. */
  method ChooseVictim(policy: Policy, queue: array<int>, acc: array<bool>, age: seq<nat>, ghost s: seq<nat>)
    returns (v: nat, ghost r: seq<nat>)
    requires Holds(queue[..], s) && 0 < |s| == queue.Length
    requires forall i :: 0 <= i < |s| ==> s[i] < |age| && s[i] < acc.Length
    modifies queue, acc
    ensures Holds(queue[..], r) && multiset(s) == multiset(r) + multiset{v}
    ensures Chosen(policy, s, old(acc[..]), age, v, r, acc[..])
  {
    ghost var m: nat := 0;
    match policy {
      case SCFIFO =>
        SecondChanceTakes(s, acc[..]);
        r := SecondChance(s, acc[..]).rest;
        v := RemoveSCFIFO(queue, acc, s);
      case NFUA =>
        v, m := RemoveNFUA(queue, age, s);
        r := Without(s, m);
      case LAPA =>
        v, m := RemoveLAPA(queue, age, s);
        r := Without(s, m);
      case AQ =>
        v := RemoveAQ(queue, s);
        r := Without(s, 0);
    }
  }

  method EmptyQueue() returns (q: array<int>)
    ensures fresh(q) && q.Length == MAX_PSYC_PAGES && Holds(q[..], [])
  {
    q := new int[MAX_PSYC_PAGES](i => -1);
  }

  /** A queue array's elements are the list's, but for the padding. */
  lemma Padded(q: seq<int>, s: seq<nat>)
    requires Holds(q, s)
    ensures forall i: nat :: multiset(q)[i] == multiset(s)[i]
  {
    var a := q[..|s|];
    assert q == a + q[|s|..];
    assert multiset(q) == multiset(a) + multiset(q[|s|..]);
    Same(a, s);
  }

  lemma {:induction false} Same(a: seq<int>, s: seq<nat>)
    requires |a| == |s| && forall i {:trigger a[i]} :: 0 <= i < |a| ==> a[i] == s[i]
    ensures forall i: nat :: multiset(a)[i] == multiset(s)[i]
  {
    if |a| > 0 {
      var n := |a| - 1;
      Same(a[..n], s[..n]);
      assert a == a[..n] + [a[n]] && s == s[..n] + [s[n]];
    }
  }

  // ---- What the process sees: a flat memory -----------------------------------------------

  /**
   * What can happen to a process.  turns lists the faults of an access that find no frame, other processes
   * having taken them all, each with the frames that others free before the access is tried again.  Between
   * two instructions others may take all free frames and free some of their own.
   */
  datatype Action<Page> =
    | Read(va: nat, turns: seq<seq<nat>>) | Write(va: nat, page: Page, turns: seq<seq<nat>>)
    | Grow(n: nat) | Tick | Others(take: bool, back: seq<nat>)

  /** An action in which no other process touches the free list. */
  predicate Quiet<Page>(a: Action<Page>) {
    match a
    case Read(_, turns) => turns == []
    case Write(_, _, turns) => turns == []
    case Others(take, back) => !take && back == []
    case _ => true
  }

  function Turns<Page>(a: Action<Page>): seq<seq<nat>> {
    if a.Read? || a.Write? then a.turns else []
  }

  predicate Allowed<Page>(sz: nat, a: Action<Page>) {
    match a
    case Read(va, _) => va / PGSIZE < Pages(sz)
    case Write(va, _, _) => va / PGSIZE < Pages(sz)
    case Grow(n) => Pages(sz + n) <= MAX_TOTAL_PAGES
    case _ => true
  }

  /** The size after an action, with frames for the process in all: a growth may find too few. */
  ghost function NextSize<Page>(sz: nat, frames: nat, a: Action<Page>): nat {
    if a.Grow? && ResidentPages(Pages(sz + a.n)) <= frames then sz + a.n else sz
  }

  ghost function NextMemory<Page>(memory: seq<Page>, sz: nat, frames: nat, zero: Page, a: Action<Page>): seq<Page> {
    match a
    case Write(va, page, _) => if va / PGSIZE < |memory| then memory[va / PGSIZE := page] else memory
    case Grow(n) => Extended(memory, zero, Pages(NextSize(sz, frames, a)))
    case _ => memory
  }

  ghost function Sees<Page>(memory: seq<Page>, a: Action<Page>): seq<Page> {
    if a.Read? && a.va / PGSIZE < |memory| then [memory[a.va / PGSIZE]] else []
  }

  /** A process with a flat memory, and what its loads have seen. */
  datatype Flat<Page> = Flat(memory: seq<Page>, sz: nat, seen: seq<Page>)

  ghost function Next<Page>(f: Flat<Page>, frames: nat, zero: Page, a: Action<Page>): Flat<Page> {
    Flat(NextMemory(f.memory, f.sz, frames, zero, a), NextSize(f.sz, frames, a), f.seen + Sees(f.memory, a))
  }

  /** f after the first k actions; before action j the process has or can get frames[j] frames. */
  ghost function After<Page>(f: Flat<Page>, frames: seq<nat>, zero: Page, actions: seq<Action<Page>>, k: nat): Flat<Page>
    requires k <= |actions| && k <= |frames|
    decreases k
  {
    if k == 0 then f else Next(After(f, frames, zero, actions, k - 1), frames[k - 1], zero, actions[k - 1])
  }

  lemma {:induction false} AfterPrefix<Page>(f: Flat<Page>, frames: seq<nat>, more: seq<nat>, zero: Page,
                                             actions: seq<Action<Page>>, k: nat)
    requires k <= |actions| && k <= |frames| <= |more| && frames == more[..|frames|]
    ensures After(f, more, zero, actions, k) == After(f, frames, zero, actions, k)
    decreases k
  {
    if k > 0 { AfterPrefix(f, frames, more, zero, actions, k - 1); }
  }

  /** Action j is within the process, which survives it; the frames change only with other processes. */
  ghost predicate Survived<Page>(f: Flat<Page>, frames: seq<nat>, zero: Page, actions: seq<Action<Page>>, j: nat) {
    && j < |actions| && j + 1 < |frames|
    && Allowed(After(f, frames, zero, actions, j).sz, actions[j])
    && !Breaks(After(f, frames, zero, actions, j).sz, frames[j], actions[j])
    && (Quiet(actions[j]) ==> frames[j + 1] == frames[j])
  }

  /** After k actions, all of which it survived, the process is where a flat memory would be. */
  ghost predicate Along<Page>(f: Flat<Page>, frames: seq<nat>, zero: Page, actions: seq<Action<Page>>, k: nat,
                              g: Flat<Page>) {
    && k <= |actions| && |frames| == k + 1 && g == After(f, frames, zero, actions, k)
    && (forall j: nat :: j < k ==> Survived(f, frames, zero, actions, j))
  }

  lemma AlongMore<Page>(f: Flat<Page>, frames: seq<nat>, zero: Page, actions: seq<Action<Page>>, k: nat, g: Flat<Page>,
                        n: nat)
    requires Along(f, frames, zero, actions, k, g) && k < |actions|
    requires Allowed(g.sz, actions[k]) && !Breaks(g.sz, frames[k], actions[k]) && (Quiet(actions[k]) ==> n == frames[k])
    ensures Along(f, frames + [n], zero, actions, k + 1, Next(g, frames[k], zero, actions[k]))
  {
    var more := frames + [n];
    AfterPrefix(f, frames, more, zero, actions, k);
    forall j: nat | j < k + 1 ensures Survived(f, more, zero, actions, j) {
      AfterPrefix(f, frames, more, zero, actions, j);
      if j < k { assert Survived(f, frames, zero, actions, j); }
    }
  }

  /** What the action does to the pager of a process that goes from t to t' pages. */
  ghost function PagerNext<Page>(policy: Policy, m: Pager, t: nat, t': nat, a: Action<Page>): Pager {
    match a
    case Read(va, _) => Access(policy, m, va / PGSIZE)
    case Write(va, _, _) => Access(policy, m, va / PGSIZE)
    case Grow(_) => Grown(policy, m, t, t')
    case Tick => Ticked(policy, m, t)
    case Others(_, _) => m
  }

  /** Action j takes the pager, and the process beside it, one step. */
  ghost predicate StepAt<Page>(policy: Policy, pagers: seq<Pager>, f: Flat<Page>, frames: seq<nat>, zero: Page,
                               actions: seq<Action<Page>>, j: nat) {
    && j < |actions| && j + 1 < |pagers| && j + 1 < |frames|
    && pagers[j + 1] == PagerNext(policy, pagers[j], Pages(After(f, frames, zero, actions, j).sz),
                                  Pages(After(f, frames, zero, actions, j + 1).sz), actions[j])
  }

  /** The pagers of the first k actions, one before each and one after the last. */
  ghost predicate Tracks<Page>(policy: Policy, pagers: seq<Pager>, f: Flat<Page>, frames: seq<nat>, zero: Page,
                               actions: seq<Action<Page>>, k: nat) {
    && k <= |actions| && |frames| == |pagers| == k + 1
    && forall j: nat :: j < k ==> StepAt(policy, pagers, f, frames, zero, actions, j)
  }

  lemma StepKept<Page>(policy: Policy, pagers: seq<Pager>, f: Flat<Page>, frames: seq<nat>, zero: Page,
                       actions: seq<Action<Page>>,
                       j: nat, n: Pager, total: nat)
    requires StepAt(policy, pagers, f, frames, zero, actions, j)
    ensures StepAt(policy, pagers + [n], f, frames + [total], zero, actions, j)
  {
    AfterPrefix(f, frames, frames + [total], zero, actions, j);
    AfterPrefix(f, frames, frames + [total], zero, actions, j + 1);
  }

  lemma StepLast<Page>(policy: Policy, pagers: seq<Pager>, f: Flat<Page>, frames: seq<nat>, zero: Page,
                       actions: seq<Action<Page>>,
                       k: nat, g: Flat<Page>, g': Flat<Page>, n: Pager, total: nat)
    requires k < |actions| && |pagers| == |frames| == k + 1
    requires g == After(f, frames, zero, actions, k) && g' == After(f, frames + [total], zero, actions, k + 1)
    requires n == PagerNext(policy, pagers[k], Pages(g.sz), Pages(g'.sz), actions[k])
    ensures StepAt(policy, pagers + [n], f, frames + [total], zero, actions, k)
  {
    AfterPrefix(f, frames, frames + [total], zero, actions, k);
  }

  lemma TracksMore<Page>(policy: Policy, pagers: seq<Pager>, f: Flat<Page>, frames: seq<nat>, zero: Page,
                         actions: seq<Action<Page>>,
                         k: nat, g: Flat<Page>, g': Flat<Page>, n: Pager, total: nat)
    requires Tracks(policy, pagers, f, frames, zero, actions, k) && k < |actions|
    requires Along(f, frames, zero, actions, k, g) && Along(f, frames + [total], zero, actions, k + 1, g')
    requires n == PagerNext(policy, pagers[k], Pages(g.sz), Pages(g'.sz), actions[k])
    ensures Tracks(policy, pagers + [n], f, frames + [total], zero, actions, k + 1)
  {
    StepLast(policy, pagers, f, frames, zero, actions, k, g, g', n, total);
    forall j: nat | j < k + 1 ensures StepAt(policy, pagers + [n], f, frames + [total], zero, actions, j) {
      if j < k { StepKept(policy, pagers, f, frames, zero, actions, j, n, total); }
    }
  }

  /** Two runs of a policy over the same actions and frames evict the same pages at the same times. */
  lemma {:induction false} TracksOnce<Page>(policy: Policy, p: seq<Pager>, q: seq<Pager>, f: Flat<Page>,
                                            frames: seq<nat>, zero: Page,
                                            actions: seq<Action<Page>>, k: nat, j: nat)
    requires Tracks(policy, p, f, frames, zero, actions, k) && Tracks(policy, q, f, frames, zero, actions, k)
    requires p[0] == q[0] && j <= k
    ensures p[j] == q[j]
    decreases j
  {
    if j > 0 {
      TracksOnce(policy, p, q, f, frames, zero, actions, k, j - 1);
      assert StepAt(policy, p, f, frames, zero, actions, j - 1) && StepAt(policy, q, f, frames, zero, actions, j - 1);
    }
  }

  /** A growth from size sz that takes some frames and then finds too few. */
  ghost predicate Breaks<Page>(sz: nat, frames: nat, a: Action<Page>) {
    a.Grow? && ResidentPages(Pages(sz)) < frames < ResidentPages(Pages(sz + a.n))
  }

  /** Frame f, new to the process, is freed. */
  lemma GainFacts<Page>(memory: seq<Page>, inRam: seq<bool>, frame: seq<nat>, mem: map<nat, Page>, off: seq<int>,
                        swap: map<int, Page>, free: seq<nat>, own: map<nat, int>, f: nat, junk: Page)
    requires Stored(memory, inRam, frame, mem, off, swap) && Frames(inRam, frame, free, own) && own.Keys == mem.Keys
    requires f !in mem
    ensures Frames(inRam, frame, [f] + free, own[f := -1]) && own[f := -1].Keys == mem[f := junk].Keys
    ensures Stored(memory, inRam, frame, mem[f := junk], off, swap)
  {
    var free', own', mem' := [f] + free, own[f := -1], mem[f := junk];
    assert FrameAt(inRam, frame, free, own, f);
    assert multiset(free') == multiset{f} + multiset(free);
    forall g: nat ensures FrameAt(inRam, frame, free', own', g) { assert FrameAt(inRam, frame, free, own, g); }
    forall i: nat | i < |inRam| ensures OwnedAt(inRam, frame, own', i) { assert OwnedAt(inRam, frame, own, i); }
    forall i: nat | i < |memory| ensures StoredAt(memory, inRam, frame, mem', off, swap, i) {
      assert StoredAt(memory, inRam, frame, mem, off, swap, i);
    }
  }

  function Elements(s: seq<nat>): set<nat> {
    set x | x in s
  }

  /** Without the free frames. */
  lemma LostFacts<Page>(memory: seq<Page>, inRam: seq<bool>, frame: seq<nat>, mem: map<nat, Page>, off: seq<int>,
                        swap: map<int, Page>, free: seq<nat>, own: map<nat, int>, own': map<nat, int>, mem': map<nat, Page>)
    requires Stored(memory, inRam, frame, mem, off, swap) && Frames(inRam, frame, free, own) && own.Keys == mem.Keys
    requires own' == map f | f in own && own[f] != -1 :: own[f]
    requires mem' == mem - Elements(free)
    ensures Frames(inRam, frame, [], own') && own'.Keys == mem'.Keys && Stored(memory, inRam, frame, mem', off, swap)
  {
    forall f: nat ensures FrameAt(inRam, frame, [], own', f) && (f in own' <==> f in mem') {
      assert FrameAt(inRam, frame, free, own, f) && (f in free <==> multiset(free)[f] > 0);
    }
    forall i: nat | i < |inRam| ensures OwnedAt(inRam, frame, own', i) { assert OwnedAt(inRam, frame, own, i); }
    forall i: nat | i < |memory| ensures StoredAt(memory, inRam, frame, mem', off, swap, i) {
      assert StoredAt(memory, inRam, frame, mem, off, swap, i) && OwnedAt(inRam, frame, own, i);
      if inRam[i] { assert FrameAt(inRam, frame, free, own, frame[i]); }
    }
  }

  /** deallocuvm's loop over pages lo to hi, none of them paged out: what is present is freed and cleared. */
  method ClearEntries<Page>(present: seq<bool>, paged: seq<bool>, frame: seq<nat>, mem: map<nat, Page>, free: seq<nat>,
                            junk: Page,
                            lo: nat, hi: nat, ghost t: nat, ghost m: seq<Page>, ghost off: seq<int>, ghost swap: map<int, Page>,
                            ghost own: map<nat, int>)
    returns (pte: seq<bool>, pages: map<nat, Page>, list: seq<nat>, ghost ow: map<nat, int>)
    requires HasPages(present, paged, t) && |m| <= lo <= t <= hi <= MAX_TOTAL_PAGES
    requires Kept(m, present, frame, mem, off, swap, own, free)
    ensures HasPages(pte, paged, lo) && |list| == |free| + t - lo && Kept(m, pte, frame, pages, off, swap, ow, list)
    ensures lo == t ==> pte == present && pages == mem && list == free && ow == own
  {
    pte, pages, list, ow := present, mem, free, own;
    var a := lo;
    while a < hi
      invariant lo <= a <= hi && Gap(pte, paged, t, lo, a) && |list| == |free| + (if a < t then a else t) - lo
      invariant Kept(m, pte, frame, pages, off, swap, ow, list)
      invariant lo == t ==> pte == present && pages == mem && list == free && ow == own
    {
      assert !paged[a];
      if pte[a] {
        GiveBack(m, pte, frame, pages, off, swap, ow, list, a, junk);
        Gone(pte, paged, t, lo, a);
        list, pages, ow, pte := [frame[a]] + list, pages[frame[a] := junk], ow[frame[a] := -1], pte[a := false];
      }
      a := a + 1;
    }
  }

  datatype FaultResult = Loaded | NoMemory | PanicNoPage

  class Process<Page(==)> {
    const policy: Policy
    const zero: Page
    const junk: Page
    // struct proc: the queues and, field by field, pagesDS
    const queue: array<int>
    const avail: array<int>
    var vaddr: seq<nat>
    var alloc: seq<bool>
    var inRam: seq<bool>
    var off: seq<int>
    var age: seq<Word>
    var fileOffset: nat
    var numberOfPagedOut: nat
    var numberOfAllocatedPages: nat
    var sz: nat
    // the page table, by page number: PTE_P, PTE_PG, PTE_A and the frame
    var present: seq<bool>
    var paged: seq<bool>
    const acc: array<bool>
    var frame: seq<nat>
    // physical memory, its free list, and the swap file by offset
    var mem: map<nat, Page>
    var free: seq<nat>
    var swap: map<int, Page>
    // specification: pages, the queue as a list, who is where, and the process's memory as it sees it
    ghost var t: nat
    ghost var s: seq<nat>
    ghost var slot: seq<nat>
    ghost var user: seq<int>
    ghost var hole: int
    ghost var own: map<nat, int>
    ghost var memory: seq<Page>

    ghost predicate Arrays() {
      && queue.Length == MAX_PSYC_PAGES && avail.Length == MAX_PSYC_PAGES && queue != avail
      && acc.Length == MAX_TOTAL_PAGES
    }

    /** The invariant, with n pages resident. */
    ghost predicate Inv(n: nat)
      reads this, queue, avail
    {
      && Arrays() && |age| == MAX_TOTAL_PAGES
      && Holds(queue[..], s) && |s| == n && -1 <= hole && Holds(avail[..], Recycled(hole))
      && Slots(vaddr, alloc, t) && Resident(inRam, s, t) && Table(present, paged, inRam, t)
      && Frames(inRam, frame, free, own) && own.Keys == mem.Keys
      && Offsets(inRam, off, t, slot, user, hole) && Spans(swap, |user|)
      && fileOffset == |user| * PGSIZE && numberOfAllocatedPages == t && numberOfPagedOut + n == t && |user| == numberOfPagedOut + |Recycled(hole)|
      && |memory| == t && Stored(memory, inRam, frame, mem, off, swap)
    }

    /** Between traps exactly min(16, t) pages are resident. */
    ghost predicate Valid()
      reads this, queue, avail
    {
      Inv(ResidentPages(t))
    }

    /** What the replacement policy sees. */
    ghost function View(): Pager
      reads this`s, this`age, acc
    {
      Pager(s, acc[..], age)
    }

    /** allocproc: no pages yet; frames is the kernel's free list. */
    constructor (policy: Policy, zero: Page, junk: Page, frames: seq<nat>)
      requires forall f :: f in frames ==> multiset(frames)[f] == 1
      ensures this.policy == policy && View() == Initial(policy)
      ensures this.zero == zero && Valid() && t == 0 && sz == 0 && memory == [] && free == frames
      ensures fresh(queue) && fresh(avail) && fresh(acc)
    {
      this.policy, this.zero, this.junk := policy, zero, junk;
      var ram := EmptyQueue();
      var offsets := EmptyQueue();
      queue, avail := ram, offsets;
      acc := new bool[MAX_TOTAL_PAGES](i => false);
      vaddr, alloc, inRam, off := Each(0), Each(false), Each(false), Each(-1);
      present, paged, frame, slot := Each(false), Each(false), Each(0), Each(0);
      age := Each(if policy == LAPA then 0xFFFF_FFFF else 0x0000_0000);
      fileOffset, numberOfPagedOut, numberOfAllocatedPages, sz := 0, 0, 0, 0;
      mem, free, swap := map f | f in frames :: junk, frames, map[];
      own := map f | f in frames :: -1;
      t, s, user, hole, memory := 0, [], [], -1, [];
    }

    /** The invariant while page v, still resident, is out of the queue. */
    ghost predicate Evicting(v: nat)
      reads this, queue, avail
    {
      && Arrays() && |age| == MAX_TOTAL_PAGES
      && Holds(queue[..], s) && |s| == MAX_PSYC_PAGES - 1 && -1 <= hole && Holds(avail[..], Recycled(hole))
      && v < t && Slots(vaddr, alloc, t) && |inRam| == MAX_TOTAL_PAGES && inRam[v]
      && Resident(inRam[v := false], s, t) && Table(present, paged, inRam, t)
      && Frames(inRam, frame, free, own) && own.Keys == mem.Keys
      && Offsets(inRam, off, t, slot, user, hole) && Spans(swap, |user|)
      && fileOffset == |user| * PGSIZE && numberOfAllocatedPages == t && numberOfPagedOut + MAX_PSYC_PAGES == t
      && |user| == numberOfPagedOut + |Recycled(hole)|
      && |memory| == t && Stored(memory, inRam, frame, mem, off, swap)
    }

    /** selectPage: the policy takes a page from the queue; its address. */
    method SelectPage() returns (address: nat, ghost v: nat)
      requires Inv(MAX_PSYC_PAGES)
      modifies this`s, queue, acc
      ensures Evicting(v) && address == v * PGSIZE
      ensures Chosen(policy, old(s), old(acc[..]), age, v, s, acc[..])
      ensures Picks(policy, old(s), old(acc[..]), age, Choice(v, s, acc[..]))
      ensures age == old(age) && t == old(t) && sz == old(sz) && memory == old(memory)
      ensures inRam == old(inRam) && free == old(free) && fileOffset == old(fileOffset)
    {
      forall i | 0 <= i < |s| ensures s[i] < |age| && s[i] < acc.Length { assert s[i] in s; }
      var index;
      ghost var r;
      index, r := ChooseVictim(policy, queue, acc, age, s);
      PickIs(policy, s, old(acc[..]), age, index, r, acc[..]);
      Evicted(inRam, s, t, r, index);
      s, v := r, index;
      address := vaddr[index];
    }

    /** getFreeFileOffset: the recycled offset if there is one, else the end of the file. */
    method GetFreeFileOffset() returns (o: nat)
      requires avail.Length == MAX_PSYC_PAGES && -1 <= hole && Holds(avail[..], Recycled(hole))
      modifies this`fileOffset, avail
      ensures o == if hole == -1 then old(fileOffset) else hole * PGSIZE
      ensures Holds(avail[..], []) && fileOffset == old(fileOffset) + if hole == -1 then PGSIZE else 0
    {
      var index := avail[0];
      if index != -1 {
        FixQueue(avail, 0, Recycled(hole));
        return index;
      }
      o := fileOffset;
      fileOffset := fileOffset + PGSIZE;
    }

    /** The slot with page p's address, as swapToFile and the page-fault handler look it up. */
    method FindSlot(address: nat, ghost p: nat) returns (i: nat)
      requires Slots(vaddr, alloc, t) && address == p * PGSIZE && 0 < t
      ensures i == if p < t then p else MAX_TOTAL_PAGES
    {
      i := 0;
      while i < MAX_TOTAL_PAGES && vaddr[i] != address
        invariant 0 <= i <= MAX_TOTAL_PAGES && (p < t ==> i <= p)
      {
        assert p < t ==> vaddr[p] == address;
        i := i + 1;
      }
    }

    /**
     * swapToFile: with the queue full, the policy's victim goes to the swap file and its frame to
     * the free list.  The write starts within the file and fits in it, so writei does not refuse.
     * Reading the page for it sets the accessed bit that the policy may have cleared.
     */
    method SwapToFile() returns (ghost v: nat, ghost bits: seq<bool>)
      requires Inv(MAX_PSYC_PAGES)
      modifies this`s, this`fileOffset, this`swap, this`off, this`inRam, this`numberOfPagedOut, this`present, this`paged,
               this`frame, this`mem, this`free, this`slot, this`user, this`hole, this`own, queue, avail, acc
      ensures Inv(MAX_PSYC_PAGES - 1) && |free| == |old(free)| + 1 && hole == -1
      ensures Picks(policy, old(s), old(acc[..]), age, Choice(v, s, bits)) && v < |old(inRam)|
      ensures inRam == old(inRam)[v := false]
      ensures v < |bits| && acc[..] == bits[v := true]
      ensures View() == Evict(policy, old(View())) && t == old(t) && sz == old(sz) && memory == old(memory)
      ensures v < |off| && off[v] <= old(fileOffset) && off[v] + PGSIZE <= MAXFILEBYTES
    {
      var address;
      address, v := SelectPage();
      bits := acc[..];
      ghost var left, ages := s, age;
      EvictIs(policy, old(s), old(acc[..]), ages, v, left, bits);
      WriteOut(address, v);
      assert s == left && age == ages;
    }

    /** swapToFile after the choice: an offset for the page, its slot in pagesDS, and the page itself. */
    method WriteOut(address: nat, ghost v: nat)
      requires Evicting(v) && address == v * PGSIZE
      modifies this`fileOffset, this`swap, this`off, this`inRam, this`numberOfPagedOut, this`present, this`paged,
               this`frame, this`mem, this`free, this`slot, this`user, this`hole, this`own, avail, acc
      ensures Inv(MAX_PSYC_PAGES - 1) && |free| == |old(free)| + 1 && hole == -1
      ensures v < |old(inRam)| && inRam == old(inRam)[v := false] && v < acc.Length && acc[..] == old(acc[..])[v := true]
      ensures v < |off| && off[v] <= old(fileOffset) && off[v] + PGSIZE <= MAXFILEBYTES
    {
      var o := GetFreeFileOffset();
      // the copy to the file reads the page through its own entry
      acc[address / PGSIZE] := true;
      var i := FindSlot(address, v);
      PageOut(i, o);
    }

    /** The rest of swapToFile: page i goes to offset o. */
    method PageOut(i: nat, o: nat)
      requires Arrays() && |age| == MAX_TOTAL_PAGES && Holds(queue[..], s) && Holds(avail[..], [])
      requires |s| == MAX_PSYC_PAGES - 1 && -1 <= hole && o == (if hole == -1 then |user| else hole) * PGSIZE
      requires i < t && Slots(vaddr, alloc, t) && |inRam| == MAX_TOTAL_PAGES && inRam[i]
      requires Resident(inRam[i := false], s, t) && Table(present, paged, inRam, t)
      requires Frames(inRam, frame, free, own) && own.Keys == mem.Keys
      requires Offsets(inRam, off, t, slot, user, hole) && Spans(swap, |user|)
      requires fileOffset == (|user| + if hole == -1 then 1 else 0) * PGSIZE
      requires numberOfAllocatedPages == t && numberOfPagedOut + MAX_PSYC_PAGES == t
      requires |user| == numberOfPagedOut + |Recycled(hole)|
      requires |memory| == t && Stored(memory, inRam, frame, mem, off, swap)
      modifies this`swap, this`off, this`inRam, this`numberOfPagedOut, this`present, this`paged, this`frame,
               this`mem, this`free, this`slot, this`user, this`hole, this`own
      ensures Inv(MAX_PSYC_PAGES - 1) && |free| == |old(free)| + 1 && hole == -1 && inRam == old(inRam)[i := false]
      ensures off == old(off)[i := o]
    {
      ghost var k, user' := OutFacts(memory, inRam, frame, mem, off, swap, present, paged, t, slot, user, hole, own, free, i, o, junk);
      SetPlace(i, false, o, frame[i], slot[i := k], user', -1);
      SetStores(swap[o := mem[frame[i]]], mem[frame[i] := junk], [frame[i]] + free, numberOfPagedOut + 1, own[frame[i] := -1]);
    }

    /** Page i's entries in pagesDS and in the page table. */
    method SetPlace(i: nat, resident: bool, o: int, f: nat, ghost slot': seq<nat>, ghost user': seq<int>, ghost hole': int)
      requires i < |inRam| && i < |off| && i < |present| && i < |paged| && i < |frame|
      modifies this`inRam, this`off, this`present, this`paged, this`frame, this`slot, this`user, this`hole
      ensures inRam == old(inRam)[i := resident] && off == old(off)[i := o] && frame == old(frame)[i := f]
      ensures present == old(present)[i := resident] && paged == old(paged)[i := !resident]
      ensures slot == slot' && user == user' && hole == hole'
    {
      inRam, off, frame := inRam[i := resident], off[i := o], frame[i := f];
      present, paged := present[i := resident], paged[i := !resident];
      slot, user, hole := slot', user', hole';
    }

    /** The swap file, physical memory and the free list. */
    method SetStores(swap': map<int, Page>, mem': map<nat, Page>, free': seq<nat>, out: nat, ghost own': map<nat, int>)
      modifies this`swap, this`mem, this`free, this`numberOfPagedOut, this`own
      ensures swap == swap' && mem == mem' && free == free' && numberOfPagedOut == out && own == own'
    {
      swap, mem, free, numberOfPagedOut, own := swap', mem', free', out, own';
    }

    /** The handler's count of resident pages. */
    method CountResident() returns (n: nat)
      requires Slots(vaddr, alloc, t) && Resident(inRam, s, t)
      ensures n == |s|
    {
      n := 0;
      ghost var R: set<nat> := {};
      for i := 0 to MAX_TOTAL_PAGES
        invariant forall k :: k in R <==> 0 <= k < i && inRam[k]
        invariant n == |R|
      {
        if alloc[i] && inRam[i] {
          n, R := n + 1, R + {i};
        }
      }
      ResidentCount(inRam, s, t, R);
    }

    /** After a fault that found no frame: a page is out, the one asked for is not yet in. */
    ghost predicate Short()
      reads this, queue, avail
    {
      MAX_PSYC_PAGES < t && hole == -1 && Inv(MAX_PSYC_PAGES - 1)
    }

    /**
     * The page-fault handler, on a page that is not present; lost says that other processes take
     * every free frame before its kalloc.  A paged-out page becomes resident, another page making
     * room, unless there is no frame left; then the page stays out and the fault, which will occur
     * again, can still be served.  Either way no page's contents change.  For an address outside
     * the process the handler panics, or finds no memory first.
     */
    method PageFault(va: nat, lost: bool) returns (r: FaultResult)
      requires (Valid() || Short()) && 0 < t && (va / PGSIZE < t ==> !inRam[va / PGSIZE])
      modifies this`s, this`fileOffset, this`swap, this`off, this`inRam, this`numberOfPagedOut, this`present, this`paged,
               this`frame, this`mem, this`free, this`slot, this`user, this`hole, this`own, queue, avail, acc
      ensures va / PGSIZE >= t ==> r == PanicNoPage || r == NoMemory
      ensures va / PGSIZE < t ==> (r == Loaded <==> !lost && (old(Valid()) || old(free) != [])) && r != PanicNoPage
      ensures va / PGSIZE < t && r == Loaded ==> Valid() && inRam[va / PGSIZE]
      ensures va / PGSIZE < t && r == Loaded && old(Valid()) ==> |free| == |old(free)|
      ensures va / PGSIZE < t && r == NoMemory ==> Short() && !inRam[va / PGSIZE] && free == []
      ensures r == NoMemory && !lost && old(Short()) ==> mem == old(mem)
      ensures va / PGSIZE < t ==> var room := if old(Valid()) then Evict(policy, old(View())) else old(View());
                View() == if r == Loaded then Admit(room, va / PGSIZE) else room
    {
      var page := va / PGSIZE * PGSIZE;
      ghost var p := va / PGSIZE;
      if p < t { AbsentMeansFull(inRam, s, t, p); }
      MakeRoom();
      r := Serve(page, p, lost);
    }

    /** The handler with room in the queue: a frame, if there is one left, and the page. */
    method Serve(page: nat, ghost p: nat, lost: bool) returns (r: FaultResult)
      requires 0 < t && Inv(|s|) && page == p * PGSIZE && (p < t ==> |s| == MAX_PSYC_PAGES - 1 && hole == -1 && !inRam[p])
      modifies this`s, this`inRam, this`off, this`present, this`paged, this`frame, this`slot, this`user, this`hole,
               this`swap, this`mem, this`free, this`numberOfPagedOut, this`own, queue, avail, acc
      ensures p >= t ==> r == PanicNoPage || r == NoMemory
      ensures p < t ==> (r == Loaded <==> !lost && old(free) != []) && r != PanicNoPage
      ensures p < t && r == Loaded ==> Inv(MAX_PSYC_PAGES) && inRam[p] && |free| == |old(free)| - 1
      ensures p < t && r == NoMemory ==> Inv(MAX_PSYC_PAGES - 1) && hole == -1 && !inRam[p] && free == []
      ensures p < t ==> View() == if r == Loaded then Admit(old(View()), p) else old(View())
      ensures r == NoMemory && !lost ==> mem == old(mem)
    {
      if lost { LoseFrames(); }
      if free == [] { return NoMemory; }
      r := Fetch(page, p);
    }

    /** Other processes take all free frames. */
    method LoseFrames()
      requires Inv(|s|)
      modifies this`free, this`own, this`mem
      ensures free == [] && Inv(|s|)
    {
      ghost var kept := map f | f in own && own[f] != -1 :: own[f];
      var left := mem - Elements(free);
      LostFacts(memory, inRam, frame, mem, off, swap, free, own, kept, left);
      free, own, mem := [], kept, left;
    }

    /** Other processes free the frames fs; what is ours already is not theirs to free. */
    method Regain(fs: seq<nat>)
      requires Inv(|s|)
      modifies this`free, this`own, this`mem
      ensures Inv(|s|) && |old(free)| <= |free| <= |old(free)| + |fs|
      ensures (forall f :: f in fs ==> f in mem) && (free == [] ==> mem == old(mem))
    {
      for i := 0 to |fs|
        invariant Inv(|s|) && |old(free)| <= |free| <= |old(free)| + i
        invariant (forall j :: 0 <= j < i ==> fs[j] in mem) && (free == [] ==> mem == old(mem))
      {
        if fs[i] !in mem { Gain(fs[i]); }
      }
    }

    method Gain(f: nat)
      requires Inv(|s|) && f !in mem
      modifies this`free, this`own, this`mem
      ensures Inv(|s|) && |free| == |old(free)| + 1 && mem.Keys == old(mem).Keys + {f}
    {
      GainFacts(memory, inRam, frame, mem, off, swap, free, own, f, junk);
      free, own, mem := [f] + free, own[f := -1], mem[f := junk];
    }

    /** The last turn has brought no frame but the process's own, so none. */
    ghost predicate NoneBack(turns: seq<seq<nat>>)
      reads this`mem
    {
      turns != [] && forall f :: f in turns[|turns| - 1] ==> f in mem
    }

    /** A fault that finds no frame, and what others free after it. */
    method Fail(va: nat, back: seq<nat>)
      requires (Valid() || Short()) && va / PGSIZE < t && !inRam[va / PGSIZE]
      modifies this`s, this`fileOffset, this`swap, this`off, this`inRam, this`numberOfPagedOut, this`present, this`paged,
               this`frame, this`mem, this`free, this`slot, this`user, this`hole, this`own, queue, avail, acc
      ensures Short() && !inRam[va / PGSIZE] && forall f :: f in back ==> f in mem
      ensures View() == if old(Valid()) then Evict(policy, old(View())) else old(View())
    {
      var none := PageFault(va, true);
      Regain(back);
    }

    /** An access to a page that is not present: some faults find no frame, the last may. */
    method Faults(va: nat, turns: seq<seq<nat>>) returns (ok: bool)
      requires Valid() && va / PGSIZE < t && !inRam[va / PGSIZE]
      modifies this`s, this`fileOffset, this`swap, this`off, this`inRam, this`numberOfPagedOut, this`present, this`paged,
               this`frame, this`mem, this`free, this`slot, this`user, this`hole, this`own, queue, avail, acc
      ensures if ok then Valid() && inRam[va / PGSIZE] else Short() && free == [] && NoneBack(turns)
      ensures turns == [] ==> ok && |free| == |old(free)|
      ensures var room := Evict(policy, old(View())); View() == if ok then Admit(room, va / PGSIZE) else room
    {
      for j := 0 to |turns|
        invariant if j == 0 then Valid() && |free| == |old(free)| else Short()
        invariant View() == if j == 0 then old(View()) else Evict(policy, old(View()))
        invariant j > 0 ==> forall f :: f in turns[j - 1] ==> f in mem
        invariant !inRam[va / PGSIZE]
      {
        Fail(va, turns[j]);
      }
      var r := PageFault(va, false);
      ok := r == Loaded;
    }

    /** The handler's first step: with the queue full, a page is swapped out. */
    method MakeRoom()
      requires Valid() || Short()
      modifies this`s, this`fileOffset, this`swap, this`off, this`inRam, this`numberOfPagedOut, this`present, this`paged,
               this`frame, this`mem, this`free, this`slot, this`user, this`hole, this`own, queue, avail, acc
      ensures Inv(|s|) && (MAX_PSYC_PAGES <= t ==> |s| == MAX_PSYC_PAGES - 1 && hole == -1)
      ensures MAX_PSYC_PAGES <= t && old(Valid()) ==> |free| == |old(free)| + 1
      ensures old(Short()) ==> free == old(free) && mem == old(mem)
      ensures View() == if old(|s|) == MAX_PSYC_PAGES then Evict(policy, old(View())) else old(View())
      ensures forall i: nat :: i < |inRam| && inRam[i] ==> i < |old(inRam)| && old(inRam)[i]
    {
      var count := CountResident();
      if count == MAX_PSYC_PAGES { ghost var v, bits := SwapToFile(); }
    }

    /** The handler's second step: the page is looked up and read back. */
    method Fetch(page: nat, ghost p: nat) returns (r: FaultResult)
      requires 0 < t && Slots(vaddr, alloc, t) && page == p * PGSIZE
      requires p < t ==> Inv(MAX_PSYC_PAGES - 1) && hole == -1 && free != [] && !inRam[p]
      modifies this`s, this`inRam, this`off, this`present, this`paged, this`frame, this`slot, this`user, this`hole,
               this`swap, this`mem, this`free, this`numberOfPagedOut, this`own, queue, avail, acc
      ensures p >= t ==> r == PanicNoPage
      ensures p < t ==> r == Loaded && Inv(MAX_PSYC_PAGES) && inRam[p] && |free| == |old(free)| - 1
      ensures p < t ==> View() == Admit(old(View()), p)
    {
      var i := FindSlot(page, p);
      if i == MAX_TOTAL_PAGES { return PanicNoPage; }
      PageIn(i);
      r := Loaded;
    }

    /** The rest of the handler: page i comes back from the swap file into a free frame. */
    method PageIn(i: nat)
      requires Inv(MAX_PSYC_PAGES - 1) && hole == -1 && free != [] && i < t && !inRam[i]
      modifies this`s, this`inRam, this`off, this`present, this`paged, this`frame, this`slot, this`user, this`hole,
               this`swap, this`mem, this`free, this`numberOfPagedOut, this`own, queue, avail, acc
      ensures Inv(MAX_PSYC_PAGES) && inRam == old(inRam)[i := true] && |free| == |old(free)| - 1
      ensures View() == Admit(old(View()), i)
    {
      ghost var k, user' := InFacts(memory, inRam, frame, mem, off, swap, present, paged, t, slot, user, own, free, s, i);
      ReadBack(i, k, user');
      Enqueue(i);
    }

    /** Page i's contents go to the first free frame, and its offset to the recycled ones. */
    method ReadBack(i: nat, ghost k: nat, ghost user': seq<int>)
      requires i < |inRam| && i < |off| && i < |present| && i < |paged| && i < |frame| && free != [] && numberOfPagedOut > 0
      requires 0 <= off[i] && off[i] in swap && Holds(avail[..], []) && avail.Length > 0
      modifies this`inRam, this`off, this`present, this`paged, this`frame, this`slot, this`user, this`hole,
               this`swap, this`mem, this`free, this`numberOfPagedOut, this`own, avail
      ensures inRam == old(inRam)[i := true] && off == old(off)[i := -1] && frame == old(frame)[i := old(free)[0]]
      ensures present == old(present)[i := true] && paged == old(paged)[i := false]
      ensures slot == old(slot) && user == user' && hole == k && swap == old(swap)
      ensures mem == old(mem)[old(free)[0] := swap[old(off)[i]]] && free == old(free)[1..]
      ensures own == old(own)[old(free)[0] := i]
      ensures numberOfPagedOut == old(numberOfPagedOut) - 1 && Holds(avail[..], [old(off)[i]])
    {
      var f, o := free[0], off[i];
      SetPlace(i, true, -1, f, slot, user', k);
      SetStores(swap, mem[f := swap[o]], free[1..], numberOfPagedOut - 1, own[f := i]);
      Insert(avail, o, []);
    }

    /** A page just mapped joins the queue, its accessed bit clear. */
    method Enqueue(i: nat)
      requires Arrays() && Holds(queue[..], s) && |s| < MAX_PSYC_PAGES && i < MAX_TOTAL_PAGES
      modifies this`s, queue, acc
      ensures s == old(s) + [i] && Holds(queue[..], s) && View() == Admit(old(View()), i)
    {
      acc[i] := false;
      Insert(queue, i, s);
      s := s + [i];
    }

    /** One turn of allocuvm's loop: the next page, zeroed, in a free frame. */
    method GrowPage(a: nat, ghost m: Pager, ghost t0: nat) returns (ok: bool)
      requires Valid() && a == t * PGSIZE && t < MAX_TOTAL_PAGES && t0 <= t && View() == Grown(policy, m, t0, t)
      modifies this, queue, avail, acc
      ensures Valid() && sz == old(sz) && (ok <==> old(t) >= MAX_PSYC_PAGES || old(free) != [])
      ensures ok ==> t == old(t) + 1 && memory == old(memory) + [zero]
      ensures ok ==> |free| == |old(free)| - if old(t) < MAX_PSYC_PAGES then 1 else 0
      ensures !ok ==> t == old(t) && memory == old(memory) && free == old(free)
      ensures View() == Grown(policy, m, t0, t)
    {
      if a >= PGSIZE * MAX_PSYC_PAGES { ghost var v, bits := SwapToFile(); }
      if free == [] { return false; }
      GrownMore(policy, m, t0, old(t), old(View()));
      MapNew(a, |s|);
      ok := true;
    }

    /** The first unallocated slot. */
    method FreeSlot() returns (i: nat)
      requires Slots(vaddr, alloc, t) && t < MAX_TOTAL_PAGES
      ensures i == t
    {
      i := 0;
      while i < MAX_TOTAL_PAGES && alloc[i]
        invariant 0 <= i <= t
      {
        i := i + 1;
      }
    }

    /** The rest of the turn: the first unallocated slot takes page t. */
    method MapNew(a: nat, ghost n: nat)
      requires Inv(n) && n < MAX_PSYC_PAGES && a == t * PGSIZE && t < MAX_TOTAL_PAGES && free != []
      modifies this`t, this`memory, this`vaddr, this`alloc, this`numberOfAllocatedPages, this`s, this`inRam, this`off,
               this`present, this`paged, this`frame, this`slot, this`user, this`hole, this`swap, this`mem, this`free,
               this`numberOfPagedOut, this`own, queue, acc
      ensures Inv(n + 1) && t == old(t) + 1 && memory == old(memory) + [zero] && |free| == |old(free)| - 1
      ensures View() == Admit(old(View()), old(t)) && sz == old(sz)
    {
      var i := FreeSlot();
      NewFacts(memory, inRam, frame, mem, off, swap, present, paged, t, slot, user, hole, own, free, s, vaddr, alloc, zero);
      var f := free[0];
      PlaceNew(i, a, f);
      Enqueue(i);
    }

    /** Frame f, zeroed, is page i's, at address a. */
    method PlaceNew(i: nat, a: nat, f: nat)
      requires i < |inRam| && i < |off| && i < |present| && i < |paged| && i < |frame| && i < |vaddr| && i < |alloc|
      requires free != [] && f == free[0]
      modifies this`t, this`memory, this`vaddr, this`alloc, this`numberOfAllocatedPages, this`inRam, this`off, this`present,
               this`paged, this`frame, this`slot, this`user, this`hole, this`swap, this`mem, this`free,
               this`numberOfPagedOut, this`own
      ensures inRam == old(inRam)[i := true] && off == old(off)[i := -1] && frame == old(frame)[i := f]
      ensures present == old(present)[i := true] && paged == old(paged)[i := false]
      ensures slot == old(slot) && user == old(user) && hole == old(hole) && swap == old(swap)
      ensures mem == old(mem)[f := zero] && free == old(free)[1..] && own == old(own)[f := i]
      ensures numberOfPagedOut == old(numberOfPagedOut) && numberOfAllocatedPages == old(numberOfAllocatedPages) + 1
      ensures vaddr == old(vaddr)[i := a] && alloc == old(alloc)[i := true] && t == old(t) + 1
      ensures memory == old(memory) + [zero]
    {
      SetPlace(i, true, -1, f, slot, user, hole);
      SetStores(swap, mem[f := zero], free[1..], numberOfPagedOut, own[f := i]);
      SetSlot(i, a);
    }

    method SetSlot(i: nat, a: nat)
      requires i < |vaddr| && i < |alloc|
      modifies this`t, this`memory, this`vaddr, this`alloc, this`numberOfAllocatedPages
      ensures numberOfAllocatedPages == old(numberOfAllocatedPages) + 1
      ensures vaddr == old(vaddr)[i := a] && alloc == old(alloc)[i := true] && t == old(t) + 1
      ensures memory == old(memory) + [zero]
    {
      vaddr, alloc, numberOfAllocatedPages := vaddr[i := a], alloc[i := true], numberOfAllocatedPages + 1;
      t, memory := t + 1, memory + [zero];
    }

    /**
     * What a growth that fails after some pages leaves: the process has the pages it had, from
     * pages on, but pagesDS, the queue and the counter still list the pages given back, as resident.
     */
    ghost predicate Stale(pages: nat)
      reads this, queue
    {
      && Arrays() && pages < t <= MAX_PSYC_PAGES && Slots(vaddr, alloc, t) && numberOfAllocatedPages == t
      && Holds(queue[..], s) && |s| == t && Resident(inRam, s, t) && inRam[pages]
      && HasPages(present, paged, pages) && Frames(present, frame, free, own)
      && |memory| == pages && Stored(memory, present, frame, mem, off, swap)
    }

    lemma StaleIsInvalid(pages: nat)
      requires Stale(pages)
      ensures !Valid() && alloc[pages] && inRam[pages] && !present[pages] && !paged[pages]
    {
    }

    /**
     * allocuvm: zeroed pages up to newsz.  It succeeds exactly when the free list covers the
     * growth of the resident set, which is bounded by MAX_PSYC_PAGES.  When it fails every frame
     * is back and the process's memory is what it was; but the invariant survives exactly if
     * there was no free frame to begin with.
     */
    method Allocuvm(oldsz: nat, newsz: nat) returns (r: nat)
      requires Valid() && t == Pages(oldsz) && (newsz < KERNBASE ==> Pages(newsz) <= MAX_TOTAL_PAGES)
      modifies this, queue, avail, acc
      ensures newsz >= KERNBASE ==> r == 0 && Valid() && memory == old(memory) && t == old(t) && free == old(free)
      ensures newsz < KERNBASE && newsz < oldsz ==> r == oldsz && Valid() && memory == old(memory) && t == old(t)
      ensures newsz < KERNBASE && newsz < oldsz ==> free == old(free)
      ensures oldsz <= newsz < KERNBASE && Enough(|old(free)|, old(t), Pages(newsz)) ==>
                && r == newsz && Valid() && t == Pages(newsz) && memory == Extended(old(memory), zero, t)
                && |free| + ResidentPages(t) == |old(free)| + ResidentPages(old(t))
      ensures oldsz <= newsz < KERNBASE && !Enough(|old(free)|, old(t), Pages(newsz)) ==>
                && r == 0 && memory == old(memory) && |free| == |old(free)|
                && (old(free) == [] ==> Valid() && t == old(t)) && (old(free) != [] ==> Stale(old(t)))
      ensures sz == old(sz) && View() == Grown(policy, old(View()), old(t), t)
    {
      if newsz >= KERNBASE { return 0; }
      if newsz < oldsz { return oldsz; }
      r := GrowTo(oldsz, newsz);
    }

    /** allocuvm where there is something to do. */
    method GrowTo(oldsz: nat, newsz: nat) returns (r: nat)
      requires Valid() && t == Pages(oldsz) && oldsz <= newsz && Pages(newsz) <= MAX_TOTAL_PAGES
      modifies this, queue, avail, acc
      ensures Enough(|old(free)|, old(t), Pages(newsz)) ==>
                && r == newsz && Valid() && t == Pages(newsz) && memory == Extended(old(memory), zero, t)
                && |free| + ResidentPages(t) == |old(free)| + ResidentPages(old(t))
      ensures !Enough(|old(free)|, old(t), Pages(newsz)) ==>
                && r == 0 && memory == old(memory) && |free| == |old(free)|
                && (old(free) == [] ==> Valid() && t == old(t)) && (old(free) != [] ==> Stale(old(t)))
      ensures sz == old(sz) && View() == Grown(policy, old(View()), old(t), t)
    {
      var ok := GrowPages(oldsz, newsz);
      if !ok {
        Deallocuvm(Pages(oldsz), Pages(newsz));
        return 0;
      }
      r := newsz;
    }

    /** allocuvm's loop, until it is done or finds no frame. */
    method GrowPages(oldsz: nat, newsz: nat) returns (ok: bool)
      requires Valid() && t == Pages(oldsz) <= Pages(newsz) <= MAX_TOTAL_PAGES
      modifies this, queue, avail, acc
      ensures Valid() && sz == old(sz) && old(memory) <= memory
      ensures ok <==> Enough(|old(free)|, old(t), Pages(newsz))
      ensures ok ==> t == Pages(newsz) && memory == Extended(old(memory), zero, t)
      ensures |free| + ResidentPages(t) == |old(free)| + ResidentPages(old(t))
      ensures !ok ==> free == [] && old(t) <= t < MAX_PSYC_PAGES && t <= Pages(newsz)
      ensures View() == Grown(policy, old(View()), old(t), t)
    {
      var a := Pages(oldsz) * PGSIZE;
      ghost var n, m, t0 := Pages(newsz), View(), t;
      while a < newsz
        invariant Valid() && a == t * PGSIZE && old(t) <= t <= n && sz == old(sz) && old(memory) <= memory
        invariant Extended(memory, zero, n) == Extended(old(memory), zero, n)
        invariant |free| + ResidentPages(t) == |old(free)| + ResidentPages(old(t))
        invariant View() == Grown(policy, m, t0, t)
      {
        ok := GrowPage(a, m, t0);
        if !ok { return; }
        a := a + PGSIZE;
      }
      ok := true;
    }

    /**
     * deallocuvm of pages lo to hi as allocuvm calls it to give pages back, which leaves pagesDS
     * alone (flag 0).  No page is paged out then.
     */
    method Deallocuvm(lo: nat, hi: nat)
      requires Valid() && lo <= t <= hi <= MAX_TOTAL_PAGES && t <= MAX_PSYC_PAGES
      modifies this`present, this`mem, this`free, this`own, this`memory
      ensures |free| == |old(free)| + t - lo && memory == old(memory)[..lo]
      ensures if lo == t then Valid() else Stale(lo)
    {
      AllResident(inRam, s, t, present, paged);
      ghost var m := memory[..lo];
      Fewer(memory, m, inRam, present, frame, mem, off, swap);
      var pte, pages, list;
      ghost var ow;
      pte, pages, list, ow := ClearEntries(present, paged, frame, mem, free, junk, lo, hi, t, m, off, swap, own);
      SetEntries(pte, pages, list, ow, m);
    }

    method SetEntries(pte: seq<bool>, pages: map<nat, Page>, list: seq<nat>, ghost ow: map<nat, int>, ghost m: seq<Page>)
      modifies this`present, this`mem, this`free, this`own, this`memory
      ensures present == pte && mem == pages && free == list && own == ow && memory == m
    {
      present, mem, free := pte, pages, list;
      own, memory := ow, m;
    }

    /**
     * growproc, growing: it fails exactly when there are too few frames, and then the process is
     * as it was exactly if there were none.
     */
    method Growproc(n: nat) returns (ok: bool)
      requires Valid() && t == Pages(sz) && Pages(sz + n) <= MAX_TOTAL_PAGES
      modifies this, queue, avail, acc
      ensures ok <==> Enough(|old(free)|, old(t), Pages(old(sz) + n))
      ensures ok ==> Valid() && sz == old(sz) + n && t == Pages(sz) && memory == Extended(old(memory), zero, t)
      ensures ok ==> |free| + ResidentPages(t) == |old(free)| + ResidentPages(old(t))
      ensures !ok ==> sz == old(sz) && memory == old(memory) && |free| == |old(free)|
      ensures !ok ==> (Valid() <==> old(free) == []) && (Valid() ==> t == old(t)) && (!Valid() ==> Stale(old(t)))
      ensures View() == Grown(policy, old(View()), old(t), t)
    {
      var sz' := sz;
      if n > 0 {
        ghost var pages := t;
        sz' := Allocuvm(sz, sz + n);
        if sz' == 0 {
          if Stale(pages) { StaleIsInvalid(pages); }
          return false;
        }
      }
      sz, ok := sz', true;
    }

    /**
     * A load or store traps if the page is not present, and is then tried again, as often as the handler finds
     * no frame.  It waits for good only if none is freed before the last of its turns.
     */
    method Touch(va: nat, turns: seq<seq<nat>>) returns (ok: bool)
      requires Valid() && va / PGSIZE < t
      modifies this`s, this`fileOffset, this`swap, this`off, this`inRam, this`numberOfPagedOut, this`present, this`paged,
               this`frame, this`mem, this`free, this`slot, this`user, this`hole, this`own, queue, avail, acc
      ensures t == old(t) && sz == old(sz) && memory == old(memory)
      ensures if ok then Valid() && inRam[va / PGSIZE] else Short() && free == [] && NoneBack(turns)
      ensures turns == [] ==> ok && |free| == |old(free)|
      ensures View() == if ok then Access(policy, old(View()), va / PGSIZE) else Evict(policy, old(View()))
    {
      ghost var m := View();
      ok := Bring(va, turns);
      if ok {
        Mark(va / PGSIZE);
        AccessIs(policy, m, va / PGSIZE);
      }
    }

    /** The traps of the access. */
    method Bring(va: nat, turns: seq<seq<nat>>) returns (ok: bool)
      requires Valid() && va / PGSIZE < t
      modifies this`s, this`fileOffset, this`swap, this`off, this`inRam, this`numberOfPagedOut, this`present, this`paged,
               this`frame, this`mem, this`free, this`slot, this`user, this`hole, this`own, queue, avail, acc
      ensures if ok then Valid() && inRam[va / PGSIZE] else Short() && free == [] && NoneBack(turns)
      ensures turns == [] ==> ok && |free| == |old(free)|
      ensures ok ==> View() == if va / PGSIZE in old(s) then old(View()) else Admit(Evict(policy, old(View())), va / PGSIZE)
      ensures !ok ==> View() == Evict(policy, old(View()))
    {
      InQueue(inRam, s, t, va / PGSIZE);
      ok := true;
      if !present[va / PGSIZE] { ok := Faults(va, turns); }
    }

    /** The processor sets the accessed bit of page i. */
    method Mark(i: nat)
      requires i < acc.Length
      modifies acc
      ensures View() == Used(old(View()), i)
    {
      acc[i] := true;
    }

    method Load(va: nat, turns: seq<seq<nat>>) returns (ok: bool, page: Page)
      requires Valid() && va / PGSIZE < t
      modifies this, queue, avail, acc
      ensures t == old(t) && sz == old(sz) && memory == old(memory)
      ensures if ok then Valid() && page == memory[va / PGSIZE] else Short() && free == [] && NoneBack(turns)
      ensures turns == [] ==> ok && |free| == |old(free)|
      ensures View() == if ok then Access(policy, old(View()), va / PGSIZE) else Evict(policy, old(View()))
    {
      page := zero;
      ok := Touch(va, turns);
      if ok {
        assert StoredAt(memory, inRam, frame, mem, off, swap, va / PGSIZE);
        page := mem[frame[va / PGSIZE]];
      }
    }

    method Store(va: nat, page: Page, turns: seq<seq<nat>>) returns (ok: bool)
      requires Valid() && va / PGSIZE < t
      modifies this, queue, avail, acc
      ensures t == old(t) && sz == old(sz) && |memory| == |old(memory)|
      ensures if ok then Valid() && memory == old(memory)[va / PGSIZE := page]
              else Short() && free == [] && NoneBack(turns) && memory == old(memory)
      ensures turns == [] ==> ok && |free| == |old(free)|
      ensures View() == if ok then Access(policy, old(View()), va / PGSIZE) else Evict(policy, old(View()))
    {
      ok := Touch(va, turns);
      if ok { Put(va / PGSIZE, page); }
    }

    /** The store itself, to a page that is present. */
    method Put(i: nat, page: Page)
      requires Valid() && i < t && inRam[i]
      modifies this`mem, this`memory
      ensures Valid() && memory == old(memory)[i := page] && View() == old(View())
    {
      WriteFacts(memory, inRam, frame, mem, off, swap, free, own, i, page);
      mem := mem[frame[i] := page];
      memory := memory[i := page];
    }

    /** agePages: every allocated page's age is shifted, its accessed bit moved in at the top. */
    method AgePages()
      requires Valid()
      modifies this`age, acc
      ensures Valid() && acc.Length == |age| == |old(age)|
      ensures forall i :: 0 <= i < t ==> age[i] == old(age)[i] / 2 + (if old(acc[i]) then 0x8000_0000 else 0) && !acc[i]
      ensures forall i :: t <= i < |age| ==> age[i] == old(age)[i] && acc[i] == old(acc[i])
      ensures s == old(s) && age == AgedBy(old(age), old(acc[..]), t) && acc[..] == ClearedBelow(old(acc[..]), t)
    {
      var ages := age;
      for i := 0 to MAX_TOTAL_PAGES
        modifies acc
        invariant |ages| == MAX_TOTAL_PAGES
        invariant forall k :: 0 <= k < i && k < t ==> ages[k] == age[k] / 2 + (if old(acc[k]) then 0x8000_0000 else 0) && !acc[k]
        invariant forall k :: 0 <= k < |ages| && (i <= k || t <= k) ==> ages[k] == age[k] && acc[k] == old(acc[k])
      {
        if alloc[i] {
          ages := ages[i := ages[i] / 2];
          if acc[i] {
            ages := ages[i := ages[i] + 0x8000_0000];
            acc[i] := false;
          }
        }
      }
      age := ages;
    }

    /**
     * Used and free offsets partition the swap file in page steps, the free queue has at most
     * one entry, and the file never outgrows what writei accepts.
     */
    lemma SwapFile(k: nat)
      requires Valid() && k * PGSIZE < fileOffset
      ensures fileOffset <= 17 * PGSIZE <= MAXFILEBYTES && fileOffset % PGSIZE == 0
      ensures avail[0] == k * PGSIZE <==> !exists i: nat :: i < t && paged[i] && off[i] == k * PGSIZE
      ensures forall i: nat, j: nat :: i < t && j < t && paged[i] && paged[j] && off[i] == off[j] ==> i == j
      ensures forall j :: 1 <= j < avail.Length ==> avail[j] == -1
    {
      assert UserAt(inRam, t, slot, user, hole, k);
      assert avail[0] == avail[..][0] == if hole == -1 then -1 else hole * PGSIZE;
      if k == hole {
        forall i: nat | i < t && paged[i] ensures off[i] != k * PGSIZE { assert OffsetAt(inRam, off, t, slot, user, i); }
      } else {
        assert OffsetAt(inRam, off, t, slot, user, user[k]);
        assert paged[user[k]] && off[user[k]] == k * PGSIZE;
      }
      forall i: nat, j: nat | i < t && j < t && paged[i] && paged[j] && off[i] == off[j] ensures i == j {
        assert OffsetAt(inRam, off, t, slot, user, i) && OffsetAt(inRam, off, t, slot, user, j);
      }
      forall j | 1 <= j < avail.Length ensures avail[j] == -1 { assert avail[..][j] == -1; }
    }

    /** The counters and the resident set. */
    lemma Counters(R: set<nat>)
      requires Valid() && forall i :: i in R <==> 0 <= i < t && present[i]
      ensures |R| == ResidentPages(t) && numberOfPagedOut == t - |R|
      ensures forall i: nat :: i < t ==> multiset(queue[..])[i] == if present[i] then 1 else 0
    {
      ResidentCount(inRam, s, t, R);
      Padded(queue[..], s);
      forall i: nat | i < t ensures multiset(queue[..])[i] == if present[i] then 1 else 0 {
        assert multiset(s)[i] == if inRam[i] then 1 else 0;
      }
    }

    /** The frames that the process has or can get. */
    ghost function TotalFrames(): nat
      reads this
    {
      |free| + ResidentPages(t)
    }

    /**
     * A whole run of the process among others: what its loads see and what its memory becomes is what a flat
     * memory would give, whichever policy picks the victims, whenever others take the free frames and whichever
     * growths fail.  It stops only at an action outside the process, at a growth that breaks its records, or at an
     * access that waits for a frame.
     */
    method Execute(actions: seq<Action<Page>>)
      returns (seen: seq<Page>, done: nat, ghost frames: seq<nat>, ghost pagers: seq<Pager>)
      requires Valid() && t == Pages(sz)
      modifies this, queue, avail, acc
      ensures Along(Flat(old(memory), old(sz), []), frames, zero, actions, done, Flat(memory, sz, seen))
      ensures Tracks(policy, pagers, Flat(old(memory), old(sz), []), frames, zero, actions, done)
      ensures frames[0] == old(TotalFrames()) && pagers[0] == old(View())
      ensures done == |actions| ==> Valid() && t == Pages(sz) && TotalFrames() == frames[done] && View() == pagers[done]
      ensures done < |actions| ==>
                || (!Allowed(sz, actions[done]) && Valid() && t == Pages(sz) && TotalFrames() == frames[done] && View() == pagers[done])
                || (Breaks(sz, frames[done], actions[done]) && Stale(Pages(sz)) && View() == Grown(policy, pagers[done], Pages(sz), t))
                || (NoneBack(Turns(actions[done])) && Short() && free == [] && View() == Evict(policy, pagers[done]))
    {
      ghost var start := Flat(memory, sz, []);
      seen, done, frames, pagers := [], 0, [TotalFrames()], [View()];
      while done < |actions| && Allowed(sz, actions[done])
        invariant Valid() && t == Pages(sz)
        invariant Along(start, frames, zero, actions, done, Flat(memory, sz, seen))
        invariant Tracks(policy, pagers, start, frames, zero, actions, done) && View() == pagers[done]
        invariant frames[0] == old(TotalFrames()) && TotalFrames() == frames[done] && pagers[0] == old(View())
        decreases |actions| - done
      {
        var r;
        seen, r, frames, pagers := Advance(actions, done, seen, start, frames, pagers);
        if r != Went { return; }
        done := done + 1;
      }
    }

    /** The next action of a run, which stays as it is if that is the end of it. */
    method Advance(actions: seq<Action<Page>>, done: nat, seen: seq<Page>, ghost start: Flat<Page>, ghost frames: seq<nat>,
                   ghost pagers: seq<Pager>)
      returns (seen': seq<Page>, r: ActResult, ghost frames': seq<nat>, ghost pagers': seq<Pager>)
      requires Valid() && t == Pages(sz) && done < |actions| && Allowed(sz, actions[done])
      requires Along(start, frames, zero, actions, done, Flat(memory, sz, seen)) && TotalFrames() == frames[done]
      requires Tracks(policy, pagers, start, frames, zero, actions, done) && View() == pagers[done]
      modifies this, queue, avail, acc
      ensures |frames'| > 0 && frames'[0] == frames[0] && |pagers'| > 0 && pagers'[0] == pagers[0]
      ensures r != Went ==> seen' == seen && frames' == frames && pagers' == pagers && sz == old(sz) && memory == old(memory)
      ensures r == Broke ==> Breaks(sz, frames[done], actions[done]) && Stale(Pages(sz))
      ensures r == Broke ==> View() == Grown(policy, pagers[done], Pages(sz), t)
      ensures r == Waits ==>
                NoneBack(Turns(actions[done])) && Short() && free == [] && View() == Evict(policy, pagers[done])
      ensures r == Went ==> Valid() && t == Pages(sz)
      ensures r == Went ==> Along(start, frames', zero, actions, done + 1, Flat(memory, sz, seen'))
      ensures r == Went ==> Tracks(policy, pagers', start, frames', zero, actions, done + 1)
      ensures r == Went ==> TotalFrames() == frames'[done + 1] && View() == pagers'[done + 1]
    {
      ghost var f := Flat(memory, sz, seen);
      var page;
      page, r := Act(actions[done]);
      seen', frames', pagers' := seen, frames, pagers;
      if r != Went { return; }
      seen', frames', pagers' := seen + page, frames + [TotalFrames()], pagers + [View()];
      AlongMore(start, frames, zero, actions, done, f, TotalFrames());
      TracksMore(policy, pagers, start, frames, zero, actions, done, f, Flat(memory, sz, seen'), View(), TotalFrames());
    }

    /** One action. */
    method Act(action: Action<Page>) returns (seen: seq<Page>, r: ActResult)
      requires Valid() && t == Pages(sz) && Allowed(sz, action)
      modifies this, queue, avail, acc
      ensures r == Broke <==> Breaks(old(sz), old(TotalFrames()), action)
      ensures r == Went ==> Valid() && t == Pages(sz) && (Quiet(action) ==> TotalFrames() == old(TotalFrames()))
      ensures r == Went ==> Follows(action, old(memory), old(sz), old(TotalFrames()), seen)
      ensures r != Went ==> sz == old(sz) && memory == old(memory)
      ensures r == Broke ==> Stale(Pages(sz))
      ensures r == Waits ==> Short() && free == [] && NoneBack(Turns(action))
      ensures View() == if r == Waits then Evict(policy, old(View())) else PagerNext(policy, old(View()), old(t), t, action)
    {
      if action.Grow? {
        var sound := ActGrow(action.n);
        seen, r := [], if sound then Went else Broke;
      } else {
        var ok;
        seen, ok := ActInPlace(action);
        r := if ok then Went else Waits;
      }
    }

    /** The process is, and has seen, what the action makes of a flat memory. */
    ghost predicate Follows(action: Action<Page>, was: seq<Page>, size: nat, frames: nat, seen: seq<Page>)
      reads this
    {
      sz == NextSize(size, frames, action) && memory == NextMemory(was, size, frames, zero, action) && seen == Sees(was, action)
    }

    /** Any action but a growth. */
    method ActInPlace(action: Action<Page>) returns (seen: seq<Page>, ok: bool)
      requires Valid() && t == Pages(sz) && Allowed(sz, action) && !action.Grow?
      modifies this, queue, avail, acc
      ensures t == old(t) && sz == old(sz) && |old(memory)| == old(t)
      ensures if ok then Valid() && Follows(action, old(memory), old(sz), old(TotalFrames()), seen)
              else Short() && free == [] && NoneBack(Turns(action)) && memory == old(memory)
      ensures Quiet(action) ==> ok && |free| == |old(free)|
      ensures View() == if ok then PagerNext(policy, old(View()), old(t), t, action) else Evict(policy, old(View()))
    {
      seen, ok := [], true;
      match action {
        case Read(va, turns) =>
          var page;
          ok, page := Load(va, turns);
          seen := [page];
        case Write(va, page, turns) => ok := Store(va, page, turns);
        case Tick => Age();
        case Others(take, back) => Compete(take, back);
      }
    }

    /** Other processes at work. */
    method Compete(take: bool, back: seq<nat>)
      requires Valid()
      modifies this`free, this`own, this`mem
      ensures Valid() && (!take && back == [] ==> |free| == |old(free)|) && View() == old(View())
      ensures (take ==> |free| <= |back|) && (!take ==> |old(free)| <= |free|) && forall f :: f in back ==> f in mem
    {
      if take { LoseFrames(); }
      Regain(back);
    }

    /** The scheduler after the process ran: agePages, or advanceQueue, whose loop has no turn, or nothing. */
    method Age()
      requires Valid()
      modifies this`age, acc
      ensures Valid() && View() == Ticked(policy, old(View()), t)
    {
      if policy == NFUA || policy == LAPA { AgePages(); }
    }

    /** A growth, which the process survives if it succeeds or there was no frame to take. */
    method ActGrow(n: nat) returns (sound: bool)
      requires Valid() && t == Pages(sz) && Pages(sz + n) <= MAX_TOTAL_PAGES
      modifies this, queue, avail, acc
      ensures var frames := old(TotalFrames());
              && (sound <==> !(ResidentPages(Pages(old(sz))) < frames < ResidentPages(Pages(old(sz) + n))))
              && sz == (if ResidentPages(Pages(old(sz) + n)) <= frames then old(sz) + n else old(sz))
              && (sound ==> TotalFrames() == frames)
      ensures memory == Extended(old(memory), zero, Pages(sz)) && View() == Grown(policy, old(View()), old(t), t)
      ensures if sound then Valid() && t == Pages(sz) else Stale(Pages(sz))
    {
      sound := free == [];
      var ok := Growproc(n);
      sound := sound || ok;
    }
  }

  /** Everything that swapping page v out keeps. */
  lemma OutFacts<Page>(memory: seq<Page>, inRam: seq<bool>, frame: seq<nat>, mem: map<nat, Page>,
                       off: seq<int>, swap: map<int, Page>, present: seq<bool>, paged: seq<bool>, t: nat, slot: seq<nat>,
                       user: seq<int>, hole: int, own: map<nat, int>, free: seq<nat>, v: nat, o: nat, junk: Page)
    returns (k: nat, user': seq<int>)
    requires Stored(memory, inRam, frame, mem, off, swap) && |memory| == t && v < t && inRam[v]
    requires Offsets(inRam, off, t, slot, user, hole) && Frames(inRam, frame, free, own) && own.Keys == mem.Keys
    requires Table(present, paged, inRam, t) && Spans(swap, |user|)
    requires o == (if hole == -1 then |user| else hole) * PGSIZE
    ensures frame[v] in own && frame[v := frame[v]] == frame
    ensures |user'| == |user| + (if hole == -1 then 1 else 0) && o == k * PGSIZE
    ensures Offsets(inRam[v := false], off[v := o], t, slot[v := k], user', -1)
    ensures Frames(inRam[v := false], frame, [frame[v]] + free, own[frame[v] := -1])
    ensures Stored(memory, inRam[v := false], frame, mem[frame[v] := junk], off[v := o], swap[o := mem[frame[v]]])
    ensures Table(present[v := false], paged[v := true], inRam[v := false], t)
    ensures Spans(swap[o := mem[frame[v]]], |user'|)
  {
    k := if hole == -1 then |user| else hole;
    user' := if hole == -1 then user + [v as int] else user[hole := v];
    assert OwnedAt(inRam, frame, own, v);
    OffsetGiven(inRam, off, t, slot, user, hole, v);
    FrameFreed(inRam, frame, free, own, v);
    StoredOut(memory, inRam, frame, mem, off, swap, t, slot, user, hole, own, free, v, o, junk);
    SpansMore(swap, |user|, k, mem[frame[v]]);
    TableSet(present, paged, inRam, t, v, false);
  }

  /** Everything that bringing page i back, with its slot the new hole, keeps. */
  lemma InFacts<Page>(memory: seq<Page>, inRam: seq<bool>, frame: seq<nat>, mem: map<nat, Page>,
                      off: seq<int>, swap: map<int, Page>, present: seq<bool>, paged: seq<bool>, t: nat, slot: seq<nat>,
                      user: seq<int>, own: map<nat, int>, free: seq<nat>, s: seq<nat>, i: nat)
    returns (k: nat, user': seq<int>)
    requires Stored(memory, inRam, frame, mem, off, swap) && |memory| == t && i < t && !inRam[i]
    requires Offsets(inRam, off, t, slot, user, -1) && Frames(inRam, frame, free, own) && own.Keys == mem.Keys
    requires Table(present, paged, inRam, t) && Resident(inRam, s, t) && |free| > 0
    ensures off[i] in swap && swap[off[i]] == memory[i] && free[0] in own
    ensures |user'| == |user| && k < |user| && off[i] == k * PGSIZE && Recycled(k) == [off[i]]
    ensures Offsets(inRam[i := true], off[i := -1], t, slot, user', k)
    ensures Frames(inRam[i := true], frame[i := free[0]], free[1..], own[free[0] := i])
    ensures Stored(memory, inRam[i := true], frame[i := free[0]], mem[free[0] := memory[i]], off[i := -1], swap)
    ensures Table(present[i := true], paged[i := false], inRam[i := true], t)
    ensures Resident(inRam[i := true], s + [i], t)
  {
    OffsetReturned(inRam, off, t, slot, user, i);
    k, user' := slot[i], user[slot[i] := -1];
    assert StoredAt(memory, inRam, frame, mem, off, swap, i);
    FrameTaken(inRam, frame, free, own, i);
    TableSet(present, paged, inRam, t, i, true);
    Admitted(inRam, s, t, i, t);
    var inRam', frame', mem', off' := inRam[i := true], frame[i := free[0]], mem[free[0] := memory[i]], off[i := -1];
    forall j: nat | j < |memory| ensures StoredAt(memory, inRam', frame', mem', off', swap, j) {
      assert StoredAt(memory, inRam, frame, mem, off, swap, j) && OwnedAt(inRam, frame, own, j);
    }
  }

  /** Everything that a new page t, in frame free[0], keeps. */
  lemma NewFacts<Page>(memory: seq<Page>, inRam: seq<bool>, frame: seq<nat>, mem: map<nat, Page>,
                       off: seq<int>, swap: map<int, Page>, present: seq<bool>, paged: seq<bool>, t: nat, slot: seq<nat>,
                       user: seq<int>, hole: int, own: map<nat, int>, free: seq<nat>, s: seq<nat>,
                       vaddr: seq<nat>, alloc: seq<bool>, zero: Page)
    requires Stored(memory, inRam, frame, mem, off, swap) && |memory| == t < MAX_TOTAL_PAGES == |inRam|
    requires Offsets(inRam, off, t, slot, user, hole) && Frames(inRam, frame, free, own) && own.Keys == mem.Keys
    requires Table(present, paged, inRam, t) && Resident(inRam, s, t) && |free| > 0 && Slots(vaddr, alloc, t)
    ensures free[0] in own
    ensures Offsets(inRam[t := true], off[t := -1], t + 1, slot, user, hole)
    ensures Frames(inRam[t := true], frame[t := free[0]], free[1..], own[free[0] := t])
    ensures Stored(memory + [zero], inRam[t := true], frame[t := free[0]], mem[free[0] := zero], off[t := -1], swap)
    ensures Table(present[t := true], paged[t := false], inRam[t := true], t + 1)
    ensures Resident(inRam[t := true], s + [t], t + 1)
    ensures Slots(vaddr[t := t * PGSIZE], alloc[t := true], t + 1)
  {
    assert !inRam[t];
    FrameTaken(inRam, frame, free, own, t);
    Admitted(inRam, s, t, t, t + 1);
    var inRam', frame', mem', off' := inRam[t := true], frame[t := free[0]], mem[free[0] := zero], off[t := -1];
    var memory', t' := memory + [zero], t + 1;
    forall j: nat | j < |memory'| ensures StoredAt(memory', inRam', frame', mem', off', swap, j) {
      if j < t { assert StoredAt(memory, inRam, frame, mem, off, swap, j) && OwnedAt(inRam, frame, own, j); }
    }
    forall j: nat | j < |inRam| ensures OffsetAt(inRam', off', t', slot, user, j) {
      assert OffsetAt(inRam, off, t, slot, user, j);
    }
    forall k: nat | k < |user| ensures UserAt(inRam', t', slot, user, hole, k) {
      assert UserAt(inRam, t, slot, user, hole, k);
    }
  }

  /** A user's write to resident page p. */
  lemma WriteFacts<Page>(memory: seq<Page>, inRam: seq<bool>, frame: seq<nat>, mem: map<nat, Page>, off: seq<int>,
                         swap: map<int, Page>, free: seq<nat>, own: map<nat, int>, p: nat, page: Page)
    requires Stored(memory, inRam, frame, mem, off, swap) && Frames(inRam, frame, free, own) && p < |memory| && inRam[p]
    ensures frame[p] in mem && Stored(memory[p := page], inRam, frame, mem[frame[p] := page], off, swap)
  {
    assert StoredAt(memory, inRam, frame, mem, off, swap, p) && OwnedAt(inRam, frame, own, p);
    var memory', mem' := memory[p := page], mem[frame[p] := page];
    forall j: nat | j < |memory'| ensures StoredAt(memory', inRam, frame, mem', off, swap, j) {
      assert StoredAt(memory, inRam, frame, mem, off, swap, j) && OwnedAt(inRam, frame, own, j);
    }
  }

  /** Swapping page v out changes where its contents are, not what they are. */
  lemma StoredOut<Page>(memory: seq<Page>, inRam: seq<bool>, frame: seq<nat>, mem: map<nat, Page>,
                        off: seq<int>, swap: map<int, Page>, t: nat, slot: seq<nat>, user: seq<int>, hole: int,
                        own: map<nat, int>, free: seq<nat>, v: nat, o: nat, junk: Page)
    requires Stored(memory, inRam, frame, mem, off, swap) && |memory| == t && v < t && inRam[v]
    requires Offsets(inRam, off, t, slot, user, hole) && Frames(inRam, frame, free, own)
    requires o == (if hole == -1 then |user| else hole) * PGSIZE && frame[v] in mem
    ensures Stored(memory, inRam[v := false], frame, mem[frame[v] := junk], off[v := o], swap[o := mem[frame[v]]])
  {
    assert OwnedAt(inRam, frame, own, v) && StoredAt(memory, inRam, frame, mem, off, swap, v);
    var inRam', mem', off', swap' := inRam[v := false], mem[frame[v] := junk], off[v := o], swap[o := mem[frame[v]]];
    forall i: nat | i < |memory| ensures StoredAt(memory, inRam', frame, mem', off', swap', i) {
      assert StoredAt(memory, inRam, frame, mem, off, swap, i) && OwnedAt(inRam, frame, own, i);
      if !inRam[i] { OffsetFree(inRam, off, t, slot, user, hole, i); }
    }
  }

  /** Fourteen pages, one free frame, two pages more: one of them is taken and then there is none. */
  lemma FourteenAndTwo()
    ensures Breaks<nat>(14 * PGSIZE, 15, Grow(2 * PGSIZE))
    ensures !Breaks<nat>(14 * PGSIZE, 14, Grow(2 * PGSIZE)) && !Breaks<nat>(14 * PGSIZE, 16, Grow(2 * PGSIZE))
  {
  }

  /**
   * A whole life: from allocproc on, the process's memory is a flat one and its resident pages are those of the
   * policy's abstract pager, started with no page and the policy's first ages.
   */
  method Live<Page(==)>(policy: Policy, zero: Page, junk: Page, free: seq<nat>, actions: seq<Action<Page>>)
    returns (p: Process<Page>, seen: seq<Page>, done: nat, ghost frames: seq<nat>, ghost pagers: seq<Pager>)
    requires forall f :: f in free ==> multiset(free)[f] == 1
    ensures Along(Flat([], 0, []), frames, zero, actions, done, Flat(p.memory, p.sz, seen)) && frames[0] == |free|
    ensures Tracks(policy, pagers, Flat([], 0, []), frames, zero, actions, done) && pagers[0] == Initial(policy)
    ensures done == |actions| ==> p.Valid() && forall i: nat :: i < |p.inRam| ==> (p.inRam[i] <==> i in pagers[done].queue)
  {
    p := new Process(policy, zero, junk, free);
    seen, done, frames, pagers := p.Execute(actions);
    if done == |actions| {
      forall i: nat | i < |p.inRam| ensures p.inRam[i] <==> i in pagers[done].queue { InQueue(p.inRam, p.s, p.t, i); }
    }
  }

  /** A process of one page with one frame left grows by two: the growth fails and pagesDS is wrong afterwards. */
  method FailedGrowth(policy: Policy) returns (p: Process<nat>)
    ensures p.Stale(1) && !p.Valid() && p.sz == PGSIZE
  {
    p := new Process(policy, 0, 1, [1, 2]);
    var ok := p.Growproc(PGSIZE);
    ok := p.Growproc(2 * PGSIZE);
  }
}
