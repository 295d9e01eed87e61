/**
 * The buffer cache: NBUF buffers on a doubly linked ring through prev and next, most
 * recently released first.  Buffers are numbered 0 .. N-1 and the ring's head is N.
 * Each method is one stretch of code under bcache.lock or under a buffer's own lock.
 */
module BufferCache {
  import opened Disk

  /** The one device with a disk behind it. */
  const ROOTDEV: nat := 1

  datatype Found = Buffer(i: nat) | PanicNoBuffers

  // ---- The ring -------------------------------------------------------------------

  /** Following next from the head goes through L and back to the head; prev goes the other way. */
  ghost predicate Links(next: seq<nat>, prev: seq<nat>, L: seq<nat>, pos: seq<nat>)
    requires Listing(L, pos)
  {
    var n := |L|;
    && |next| == n && |prev| == n
    && (forall x {:trigger next[x]} :: 0 <= x < n ==> next[x] == if pos[x] == n - 1 then n - 1 else L[pos[x] + 1])
    && (forall x {:trigger prev[x]} :: 0 <= x < n ==> prev[x] == if pos[x] == 0 then L[n - 1] else L[pos[x] - 1])
  }

  /** The position of x after b moves to the front. */
  ghost function Moved(pos: seq<nat>, b: nat, x: nat): nat
    requires b < |pos| && x < |pos|
  {
    if x == b then 1 else if 1 <= pos[x] < pos[b] then pos[x] + 1 else pos[x]
  }

  /** L and pos after b moves to the front. */
  ghost predicate ToFront(L: seq<nat>, pos: seq<nat>, b: nat, M: seq<nat>, q: seq<nat>) {
    && |M| == |L| == |pos| == |q| && b < |L|
    && (forall x {:trigger q[x]} :: 0 <= x < |q| ==> q[x] == Moved(pos, b, x))
    && (forall k {:trigger M[k]} :: 0 <= k < |M| ==>
          M[k] == if k == 1 then b else if 2 <= k <= pos[b] then L[k - 1] else L[k])
  }

  /** brelse's six pointer assignments. */
  function Relink(next: seq<nat>, prev: seq<nat>, b: nat): (r: (seq<nat>, seq<nat>))
    requires |next| == |prev| > 0 && b < |next|
    requires next[b] < |next| && prev[b] < |prev| && next[|next| - 1] < |next|
    ensures |r.0| == |next| && |r.1| == |prev|
  {
    var head := |next| - 1;
    var prev1 := prev[next[b] := prev[b]];
    var next1 := next[prev1[b] := next[b]];
    var next2 := next1[b := next1[head]];
    var prev2 := prev1[b := head];
    var prev3 := prev2[next2[head] := b];
    var next3 := next2[head := b];
    (next3, prev3)
  }

  /** L and pos are inverse. */
  ghost predicate Listing(L: seq<nat>, pos: seq<nat>) {
    var n := |L|;
    && 1 <= n && |pos| == n && L[0] == n - 1
    && (forall k {:trigger L[k]} :: 0 <= k < n ==> L[k] < n && pos[L[k]] == k)
    && (forall x {:trigger pos[x]} :: 0 <= x < n ==> pos[x] < n && L[pos[x]] == x)
  }

  lemma ToFrontLists(L: seq<nat>, pos: seq<nat>, b: nat, M: seq<nat>, q: seq<nat>)
    requires Listing(L, pos) && b < |L| - 1 && ToFront(L, pos, b, M, q)
    ensures Listing(M, q)
  {
    assert pos[b] >= 1;
  }

  /** Where Relink makes next and prev differ. */
  lemma RelinkAt(next: seq<nat>, prev: seq<nat>, L: seq<nat>, pos: seq<nat>, b: nat, x: nat)
    requires Listing(L, pos) && Links(next, prev, L, pos) && b < |L| - 1 && x < |L|
    ensures var (nx, pv) := Relink(next, prev, b);
            var head := |L| - 1;
            var first := if pos[b] == 1 then next[b] else L[1];
            && nx[x] == (if x == head then b else if x == b then first
                         else if x == prev[b] then next[b] else next[x])
            && pv[x] == (if x == b then head else if x == first then b
                         else if x == next[b] then prev[b] else prev[x])
  {
    assert pos[L[0]] == 0 && pos[b] >= 1;
  }

  lemma RelinkNextAt(next: seq<nat>, prev: seq<nat>, L: seq<nat>, pos: seq<nat>, b: nat, M: seq<nat>, q: seq<nat>, x: nat)
    requires Listing(L, pos) && Links(next, prev, L, pos) && b < |L| - 1 && ToFront(L, pos, b, M, q) && x < |L|
    ensures q[x] < |M| && Relink(next, prev, b).0[x] == if q[x] == |M| - 1 then |M| - 1 else M[q[x] + 1]
  {
    RelinkAt(next, prev, L, pos, b, x);
    assert pos[L[0]] == 0 && pos[L[1]] == 1 && pos[b] >= 1;
  }

  lemma RelinkPrevAt(next: seq<nat>, prev: seq<nat>, L: seq<nat>, pos: seq<nat>, b: nat, M: seq<nat>, q: seq<nat>, x: nat)
    requires Listing(L, pos) && Links(next, prev, L, pos) && b < |L| - 1 && ToFront(L, pos, b, M, q) && x < |L|
    ensures q[x] < |M| && Relink(next, prev, b).1[x] == if q[x] == 0 then M[|M| - 1] else M[q[x] - 1]
  {
    RelinkAt(next, prev, L, pos, b, x);
    assert pos[L[0]] == 0 && pos[L[1]] == 1 && pos[b] >= 1;
  }

  /** Relinking moves b to the front of the ring, in both directions. */
  lemma RelinkLinks(next: seq<nat>, prev: seq<nat>, L: seq<nat>, pos: seq<nat>, b: nat, M: seq<nat>, q: seq<nat>)
    requires Listing(L, pos) && Links(next, prev, L, pos) && b < |L| - 1 && ToFront(L, pos, b, M, q)
    ensures Listing(M, q) && Links(Relink(next, prev, b).0, Relink(next, prev, b).1, M, q)
  {
    ToFrontLists(L, pos, b, M, q);
    var (nx, pv) := Relink(next, prev, b);
    forall x {:trigger nx[x]} {:trigger pv[x]} | 0 <= x < |M|
      ensures nx[x] == if q[x] == |M| - 1 then |M| - 1 else M[q[x] + 1]
      ensures pv[x] == if q[x] == 0 then M[|M| - 1] else M[q[x] - 1]
    {
      RelinkNextAt(next, prev, L, pos, b, M, q, x);
      RelinkPrevAt(next, prev, L, pos, b, M, q, x);
    }
  }

  // ---- What the buffers hold ----------------------------------------------------------

  /** Buffers i and j are not two copies of one block.  Device 0 marks buffers never used. */
  ghost predicate Differ(dev: seq<nat>, blockno: seq<nat>, i: nat, j: nat)
    requires i < |dev| && j < |dev| && |blockno| == |dev|
  {
    dev[i] == 0 || dev[i] != dev[j] || blockno[i] != blockno[j]
  }

  ghost predicate Unique(dev: seq<nat>, blockno: seq<nat>) {
    && |blockno| == |dev|
    && forall i: nat, j: nat :: i < |dev| && j < |dev| && i != j ==> Differ(dev, blockno, i, j)
  }

  lemma UniqueRecycled(dev: seq<nat>, blockno: seq<nat>, i: nat, d: nat, b: nat)
    requires Unique(dev, blockno) && i < |dev|
    requires forall j :: 0 <= j < |dev| ==> !(dev[j] == d && blockno[j] == b)
    ensures Unique(dev[i := d], blockno[i := b])
  {
    var dev', blockno' := dev[i := d], blockno[i := b];
    forall j: nat, k: nat | j < |dev| && k < |dev| && j != k ensures Differ(dev', blockno', j, k) {
      if j != i && k != i { assert Differ(dev, blockno, j, k); }
    }
  }

  /** pin gives, for each block with a dirty buffer, that buffer. */
  ghost predicate Pinned(blockno: seq<nat>, dirty: seq<bool>, pin: map<nat, nat>) {
    && |blockno| == |dirty|
    && (forall i {:trigger dirty[i]} :: 0 <= i < |dirty| && dirty[i] ==> blockno[i] in pin && pin[blockno[i]] == i)
    && (forall b {:trigger pin[b]} :: b in pin ==> pin[b] < |dirty| && dirty[pin[b]] && blockno[pin[b]] == b)
  }

  /** The pins after buffer i, the only one with its block, becomes dirty. */
  lemma PinnedMore(blockno: seq<nat>, dirty: seq<bool>, pin: map<nat, nat>, i: nat)
    requires Pinned(blockno, dirty, pin) && i < |dirty|
    requires forall j {:trigger dirty[j]} :: 0 <= j < |dirty| && j != i && dirty[j] ==> blockno[j] != blockno[i]
    ensures Pinned(blockno, dirty[i := true], pin[blockno[i] := i])
  {
  }

  /** The pins after buffer i, the only one with its block, becomes clean. */
  lemma PinnedLess(blockno: seq<nat>, dirty: seq<bool>, pin: map<nat, nat>, i: nat)
    requires Pinned(blockno, dirty, pin) && i < |dirty|
    requires forall j {:trigger dirty[j]} :: 0 <= j < |dirty| && j != i && dirty[j] ==> blockno[j] != blockno[i]
    ensures Pinned(blockno, dirty[i := false], map x | x in pin && x != blockno[i] :: pin[x])
  {
  }

  ghost function PinsOf(pin: map<nat, nat>, latest: Image): Pins {
    map b | b in pin && b < |latest| :: latest[b]
  }

  lemma PinsMore(pin: map<nat, nat>, latest: Image, b: nat, i: nat, x: Block)
    requires b < |latest|
    ensures PinsOf(pin[b := i], latest[b := x]) == PinsOf(pin, latest)[b := x]
  {
  }

  lemma PinsLess(pin: map<nat, nat>, pin': map<nat, nat>, latest: Image, b: nat, x: Block)
    requires b < |latest| && forall y :: y in pin' <==> y in pin && y != b
    ensures PinsOf(pin', latest[b := x]) == Unpin(PinsOf(pin, latest), b)
  {
  }

  /** A block that is not pinned is on disk. */
  ghost predicate Settled(disk: Image, latest: Image, pin: map<nat, nat>) {
    && |latest| == |disk|
    && forall b {:trigger disk[b]} {:trigger latest[b]} :: 0 <= b < |disk| && b !in pin ==> disk[b] == latest[b]
  }

  lemma SettledMore(disk: Image, latest: Image, pin: map<nat, nat>, b: nat, x: Block)
    requires Settled(disk, latest, pin) && b < |disk|
    ensures Settled(disk[b := x], latest[b := x], map y | y in pin && y != b :: pin[y])
  {
  }

  /** A locked buffer is referenced. */
  ghost predicate Referenced(locked: seq<bool>, refcnt: seq<nat>) {
    |locked| == |refcnt| && forall i {:trigger locked[i]} :: 0 <= i < |locked| && locked[i] ==> refcnt[i] >= 1
  }

  /** The referenced buffers. */
  ghost function InUse(refcnt: seq<nat>): set<nat> {
    set i: nat | i < |refcnt| && refcnt[i] != 0
  }

  /** If every buffer is referenced or dirty, the referenced ones and the pinned blocks are as many as the buffers. */
  lemma AllTaken(refcnt: seq<nat>, dirty: seq<bool>, blockno: seq<nat>, pin: map<nat, nat>)
    requires Pinned(blockno, dirty, pin) && |refcnt| == |dirty|
    requires forall i :: 0 <= i < |refcnt| ==> refcnt[i] != 0 || dirty[i]
    ensures |InUse(refcnt)| + |pin| >= |refcnt|
  {
    var held: set<nat> := set i: nat | i < |dirty| && dirty[i];
    OneBlockEach(dirty, blockno, pin, held);
    Below(|refcnt|, InUse(refcnt) + held);
  }

  /** Different dirty buffers pin different blocks. */
  lemma {:induction false} OneBlockEach(dirty: seq<bool>, blockno: seq<nat>, pin: map<nat, nat>, held: set<nat>)
    requires |blockno| == |dirty| && forall i :: i in held ==> i < |dirty| && blockno[i] in pin && pin[blockno[i]] == i
    ensures |held| <= |pin|
  {
    if i :| i in held { OneBlockEach(dirty, blockno, pin - {blockno[i]}, held - {i}); }
  }

  /** A set with every number below n has n elements or more. */
  lemma {:induction false} Below(n: nat, s: set<nat>)
    requires forall i: nat :: i < n ==> i in s
    ensures |s| >= n
  {
    if n > 0 { Below(n - 1, s - {n - 1}); }
  }

  /** Buffers nearer the front were released later. */
  ghost predicate Stamped(pos: seq<nat>, stamp: seq<nat>, clock: nat) {
    && |stamp| + 1 == |pos|
    && (forall x {:trigger stamp[x]} :: 0 <= x < |stamp| ==> stamp[x] < clock)
    && (forall x, y :: 0 <= x < |stamp| && 0 <= y < |stamp| && pos[x] < pos[y] ==> Later(stamp, x, y))
  }

  ghost predicate Later(stamp: seq<nat>, x: nat, y: nat)
    requires x < |stamp| && y < |stamp|
  {
    stamp[x] > stamp[y]
  }

  lemma StampFront(L: seq<nat>, pos: seq<nat>, stamp: seq<nat>, clock: nat, b: nat, M: seq<nat>, q: seq<nat>)
    requires Listing(L, pos) && Stamped(pos, stamp, clock) && b < |stamp| && ToFront(L, pos, b, M, q)
    ensures Stamped(q, stamp[b := clock], clock + 1)
  {
    var after := stamp[b := clock];
    forall x: nat, y: nat | x < |stamp| && y < |stamp| && q[x] < q[y] ensures Later(after, x, y) {
      if x != b {
        assert pos[b] >= 1 && pos[x] >= 1 && pos[y] >= 1;
        if y != b { assert Later(stamp, x, y); }
      }
    }
  }

  /** The ring that binit builds: the last buffer is first. */
  ghost predicate Built(next: seq<nat>, prev: seq<nat>, nbuf: nat, b: nat) {
    && |next| == |prev| == nbuf + 1 && b <= nbuf
    && next[nbuf] == (if b == 0 then nbuf else b - 1) && prev[nbuf] == (if b == 0 then nbuf else 0)
    && (forall x {:trigger next[x]} :: 0 <= x < b ==> next[x] == if x == 0 then nbuf else x - 1)
    && (forall x {:trigger prev[x]} :: 0 <= x < b ==> prev[x] == if x == b - 1 then nbuf else x + 1)
  }

  /** It lists the buffers backwards. */
  lemma BuiltLists(next: seq<nat>, prev: seq<nat>, nbuf: nat) returns (L: seq<nat>, pos: seq<nat>, stamp: seq<nat>)
    requires Built(next, prev, nbuf, nbuf)
    ensures |L| == nbuf + 1 && Listing(L, pos) && Links(next, prev, L, pos) && Stamped(pos, stamp, nbuf)
    ensures forall x :: 0 <= x < nbuf ==> pos[x] == nbuf - x && stamp[x] == x
  {
    L := seq(nbuf + 1, k requires 0 <= k <= nbuf => nbuf - k);
    pos := L;
    stamp := seq(nbuf, x requires 0 <= x < nbuf => x);
  }

  /** binit's loop: each buffer in turn goes to the front. */
  method BuildRing(nbuf: nat)
    returns (next: seq<nat>, prev: seq<nat>, ghost L: seq<nat>, ghost pos: seq<nat>, ghost stamp: seq<nat>)
    ensures |L| == nbuf + 1 && Listing(L, pos) && Links(next, prev, L, pos) && Stamped(pos, stamp, nbuf)
    ensures forall x :: 0 <= x < nbuf ==> pos[x] == nbuf - x && stamp[x] == x
  {
    next, prev := seq(nbuf + 1, i => nbuf), seq(nbuf + 1, i => nbuf);
    for b := 0 to nbuf
      invariant Built(next, prev, nbuf, b)
    {
      next := next[b := next[nbuf]];
      prev := prev[b := nbuf];
      prev := prev[next[nbuf] := b];
      next := next[nbuf := b];
    }
    L, pos, stamp := BuiltLists(next, prev, nbuf);
  }

  class Cache {
    const n: nat
    // struct buf, field by field
    var next: seq<nat>
    var prev: seq<nat>
    var dev: seq<nat>
    var blockno: seq<nat>
    var refcnt: seq<nat>
    var valid: seq<bool>
    var dirty: seq<bool>
    var locked: seq<bool>
    var data: seq<Block>
    var disk: Image
    // specification: the ring as a list, release times, and the last contents logged or written
    ghost var L: seq<nat>
    ghost var pos: seq<nat>
    ghost var stamp: seq<nat>
    ghost var clock: nat
    ghost var pin: map<nat, nat>
    ghost var latest: Image

    ghost predicate Sizes()
      reads this
    {
      && |dev| == n && |blockno| == n && |refcnt| == n && |valid| == n && |dirty| == n && |locked| == n
      && |data| == n && |latest| == |disk|
    }

    ghost predicate Linked()
      reads this`L, this`pos, this`next, this`prev, this`stamp, this`clock
    {
      |L| == n + 1 && Listing(L, pos) && Links(next, prev, L, pos) && Stamped(pos, stamp, clock)
    }

    ghost predicate Coherent()
      requires Sizes()
      reads this
    {
      && (forall i {:trigger valid[i]} :: 0 <= i < n && valid[i] ==> dev[i] == ROOTDEV && blockno[i] < |disk|)
      && (forall i {:trigger dirty[i]} :: 0 <= i < n && dirty[i] ==> valid[i])
      && (forall i {:trigger data[i]} :: 0 <= i < n && valid[i] && !locked[i] ==> data[i] == latest[blockno[i]])
      && Settled(disk, latest, pin)
    }

    ghost predicate Valid()
      reads this
    {
      && Sizes() && Linked() && Unique(dev, blockno) && Pinned(blockno, dirty, pin) && Coherent()
      && Referenced(locked, refcnt)
    }

    /** The dirty blocks and their contents, as the log sees them. */
    ghost function Pins(): Pins
      requires Valid()
      reads this
    {
      PinsOf(pin, latest)
    }

    lemma PinnedBlocks()
      requires Valid()
      ensures forall b :: b in pin ==> b < |latest|
    {
      forall b | b in pin ensures b < |latest| { assert dirty[pin[b]] && valid[pin[b]]; }
    }

    /** The cache behaves as the disk behind a set of pinned blocks, and shows the last contents logged or written. */
    lemma ViewIsLatest(b: nat)
      requires Valid() && b < |disk|
      ensures View(disk, Pins(), b) == latest[b]
    {
      PinnedBlocks();
      assert b !in pin ==> disk[b] == latest[b];
    }

    /** binit: every buffer goes to the front in turn. */
    constructor (nbuf: nat, image: Image, zero: Block)
      ensures n == nbuf && Valid() && disk == image && latest == image && pin == map[]
      ensures forall i :: 0 <= i < n ==> refcnt[i] == 0 && !valid[i] && !locked[i] && dev[i] == 0 && stamp[i] == i
    {
      n := nbuf;
      var nx, pv;
      ghost var list, at, times;
      nx, pv, list, at, times := BuildRing(nbuf);
      next, prev, L, pos, stamp := nx, pv, list, at, times;
      dev, blockno, refcnt := seq(nbuf, i => 0), seq(nbuf, i => 0), seq(nbuf, i => 0);
      valid, dirty, locked := seq(nbuf, i => false), seq(nbuf, i => false), seq(nbuf, i => false);
      data := seq(nbuf, i => zero);
      disk, latest, pin := image, image, map[];
      clock := nbuf;
    }

    /** bget, up to taking the buffer's lock. */
    method Bget(d: nat, b: nat) returns (r: Found)
      requires Valid() && d != 0
      modifies this`dev, this`blockno, this`refcnt, this`valid, this`dirty
      ensures Valid()
      ensures r == PanicNoBuffers <==>
                (forall i :: 0 <= i < n ==> !(old(dev)[i] == d && old(blockno)[i] == b) && (old(refcnt)[i] != 0 || old(dirty)[i]))
      ensures r == PanicNoBuffers ==> unchanged(this)
      ensures |InUse(old(refcnt))| + |old(pin)| < n ==> r.Buffer?
      ensures r.Buffer? ==> r.i < n && dev[r.i] == d && blockno[r.i] == b
      // cached: only the count changes
      ensures r.Buffer? && old(dev)[r.i] == d && old(blockno)[r.i] == b ==>
                refcnt == old(refcnt)[r.i := old(refcnt)[r.i] + 1] &&
                dev == old(dev) && blockno == old(blockno) && valid == old(valid) && dirty == old(dirty)
      // not cached: the least recently released buffer that is neither referenced nor dirty
      ensures r.Buffer? && !(old(dev)[r.i] == d && old(blockno)[r.i] == b) ==>
                && old(refcnt)[r.i] == 0 && !old(dirty)[r.i]
                && (forall j :: 0 <= j < n && old(refcnt)[j] == 0 && !old(dirty)[j] ==> stamp[r.i] <= stamp[j])
                && (forall j :: 0 <= j < n ==> !(old(dev)[j] == d && old(blockno)[j] == b))
                && dev == old(dev)[r.i := d] && blockno == old(blockno)[r.i := b]
                && valid == old(valid)[r.i := false] && dirty == old(dirty) && refcnt == old(refcnt)[r.i := 1]
    {
      r := Lookup(d, b);
      if r.Buffer? {
        refcnt := refcnt[r.i := refcnt[r.i] + 1];
        return;
      }
      r := Victim();
      if r.Buffer? { Recycle(r.i, d, b); } else { AllTaken(refcnt, dirty, blockno, pin); }
    }

    /** Give buffer i, which is free, to block b of device d. */
    method Recycle(i: nat, d: nat, b: nat)
      requires Valid() && i < n && refcnt[i] == 0 && !dirty[i]
      requires forall j :: 0 <= j < n ==> !(dev[j] == d && blockno[j] == b)
      modifies this`dev, this`blockno, this`refcnt, this`valid, this`dirty
      ensures Valid()
      ensures dev == old(dev)[i := d] && blockno == old(blockno)[i := b] && refcnt == old(refcnt)[i := 1]
      ensures valid == old(valid)[i := false] && dirty == old(dirty)
    {
      UniqueRecycled(dev, blockno, i, d, b);
      dev, blockno := dev[i := d], blockno[i := b];
      valid, dirty := valid[i := false], dirty[i := false];
      refcnt := refcnt[i := 1];
    }

    /** Is the block already cached? */
    method Lookup(d: nat, b: nat) returns (r: Found)
      requires Valid()
      ensures r.Buffer? ==> r.i < n && dev[r.i] == d && blockno[r.i] == b
      ensures r == PanicNoBuffers ==> forall j :: 0 <= j < n ==> !(dev[j] == d && blockno[j] == b)
    {
      var x := next[n];
      ghost var k := 1;
      while x != n
        invariant 1 <= k <= n + 1 && x == (if k == n + 1 then n else L[k])
        invariant forall j :: 0 <= j < n && pos[j] < k ==> !(dev[j] == d && blockno[j] == b)
        decreases n + 1 - k
      {
        if dev[x] == d && blockno[x] == b { return Buffer(x); }
        assert pos[x] == k;
        x, k := next[x], k + 1;
      }
      r := PanicNoBuffers;
    }

    /** The buffer to recycle: the first free one from the back of the ring. */
    method Victim() returns (r: Found)
      requires Valid()
      ensures r.Buffer? ==> r.i < n && refcnt[r.i] == 0 && !dirty[r.i]
      ensures r.Buffer? ==> forall j :: 0 <= j < n && refcnt[j] == 0 && !dirty[j] ==> stamp[r.i] <= stamp[j]
      ensures r == PanicNoBuffers ==> forall j :: 0 <= j < n ==> refcnt[j] != 0 || dirty[j]
    {
      var x := prev[n];
      ghost var k := n;
      while x != n
        invariant 0 <= k <= n && x == L[k]
        invariant forall j :: 0 <= j < n && pos[j] > k ==> refcnt[j] != 0 || dirty[j]
        decreases k
      {
        if refcnt[x] == 0 && !dirty[x] {
          forall j | 0 <= j < n && refcnt[j] == 0 && !dirty[j] ensures stamp[x] <= stamp[j] {
            assert pos[x] == k;
            if j != x { assert pos[j] < k; assert Later(stamp, j, x); }
          }
          return Buffer(x);
        }
        assert pos[x] == k;
        x, k := prev[x], k - 1;
      }
      r := PanicNoBuffers;
    }

    /** acquiresleep on the buffer, once it is free; the caller holds a reference. */
    method Lock(i: nat)
      requires Valid() && i < n && refcnt[i] >= 1 && !locked[i]
      modifies this`locked
      ensures Valid() && locked == old(locked)[i := true]
      ensures valid[i] ==> data[i] == latest[blockno[i]]
    {
      locked := locked[i := true];
    }

    /** The rest of bread: read the block if the buffer does not hold it yet. */
    method Fill(i: nat) returns (ok: bool)
      requires Valid() && i < n && locked[i] && (valid[i] ==> data[i] == latest[blockno[i]])
      modifies this`valid, this`data
      ensures Valid()
      ensures ok <==> old(valid)[i] || (dev[i] == ROOTDEV && blockno[i] < |disk|)
      ensures ok ==> valid[i] && blockno[i] < |disk| && data[i] == latest[blockno[i]]
      ensures ok ==> valid == old(valid)[i := true] && (forall j :: 0 <= j < n && j != i ==> data[j] == old(data)[j])
      ensures !ok ==> valid == old(valid) && data == old(data)
    {
      if valid[i] { return true; }
      if dev[i] != ROOTDEV || blockno[i] >= |disk| { return false; }
      NotPinned(i);
      data, valid := data[i := disk[blockno[i]]], valid[i := true];
      ok := true;
    }

    /** A buffer still to be read holds a block that no other buffer has dirty. */
    lemma NotPinned(i: nat)
      requires Valid() && i < n && !valid[i] && dev[i] == ROOTDEV
      ensures blockno[i] !in pin
    {
      forall j | 0 <= j < n && dirty[j] ensures blockno[j] != blockno[i] {
        assert valid[j] && Differ(dev, blockno, i, j);
      }
    }

    /** The holder changes the block. */
    method Modify(i: nat, d: Block)
      requires Valid() && i < n && locked[i] && valid[i]
      modifies this`data
      ensures Valid() && data == old(data)[i := d]
    {
      data := data[i := d];
    }

    /** Write the block to disk; panics unless the buffer is locked. */
    method Bwrite(i: nat) returns (ok: bool)
      requires Valid() && i < n && valid[i]
      modifies this`dirty, this`disk, this`pin, this`latest
      ensures Valid() && (ok <==> locked[i])
      ensures ok ==> disk == old(disk)[blockno[i] := data[i]] && latest == old(latest)[blockno[i] := data[i]]
      ensures ok ==> dirty == old(dirty)[i := false] && forall b :: b in pin <==> b in old(pin) && b != blockno[i]
      ensures ok ==> Pins() == Unpin(old(Pins()), blockno[i])
      ensures !ok ==> disk == old(disk) && latest == old(latest) && dirty == old(dirty) && pin == old(pin)
    {
      if !locked[i] { return false; }
      WriteThrough(i);
      PinsLess(old(pin), pin, old(latest), blockno[i], data[i]);
      ok := true;
    }

    /** iderw on a dirty buffer. */
    method WriteThrough(i: nat)
      requires Valid() && i < n && valid[i] && locked[i]
      modifies this`dirty, this`disk, this`pin, this`latest
      ensures Valid()
      ensures disk == old(disk)[blockno[i] := data[i]] && latest == old(latest)[blockno[i] := data[i]]
      ensures dirty == old(dirty)[i := false] && forall b :: b in pin <==> b in old(pin) && b != blockno[i]
    {
      OnlyCopy(i);
      PinnedLess(blockno, dirty, pin, i);
      SettledMore(disk, latest, pin, blockno[i], data[i]);
      var b := blockno[i];
      dirty := dirty[i := false];
      disk := disk[b := data[i]];
      latest := latest[b := data[i]];
      pin := map x | x in pin && x != b :: pin[x];
    }

    /** No other buffer holds the block of buffer i. */
    lemma OnlyCopy(i: nat)
      requires Sizes() && Unique(dev, blockno) && Coherent() && i < n && valid[i]
      ensures forall j {:trigger valid[j]} :: 0 <= j < n && j != i && valid[j] ==> blockno[j] != blockno[i]
    {
      forall j {:trigger valid[j]} | 0 <= j < n && j != i && valid[j] ensures blockno[j] != blockno[i] {
        assert Differ(dev, blockno, i, j);
      }
    }

    /** What log_write does to the buffer: mark it dirty, so that it stays cached. */
    method MarkDirty(i: nat)
      requires Valid() && i < n && locked[i] && valid[i]
      modifies this`dirty, this`pin, this`latest
      ensures Valid() && dirty == old(dirty)[i := true] && latest == old(latest)[blockno[i] := data[i]]
      ensures pin == old(pin)[blockno[i] := i] && Pins() == old(Pins())[blockno[i] := data[i]]
    {
      OnlyCopy(i);
      PinnedMore(blockno, dirty, pin, i);
      PinsMore(pin, latest, blockno[i], i, data[i]);
      dirty := dirty[i := true];
      latest := latest[blockno[i] := data[i]];
      pin := pin[blockno[i] := i];
    }

    /** Release a locked buffer whose changes have been logged or written; the last reference moves it to the front. */
    method Brelse(i: nat) returns (ok: bool)
      requires Valid() && i < n && (locked[i] && valid[i] ==> data[i] == latest[blockno[i]])
      modifies this`locked, this`refcnt, this`next, this`prev, this`L, this`pos, this`stamp, this`clock
      ensures Valid() && (ok <==> old(locked)[i])
      ensures ok ==> locked == old(locked)[i := false] && refcnt == old(refcnt)[i := old(refcnt)[i] - 1]
      ensures ok && refcnt[i] == 0 ==> ToFront(old(L), old(pos), i, L, pos) && stamp == old(stamp)[i := old(clock)]
      ensures !ok || refcnt[i] != 0 ==> L == old(L) && stamp == old(stamp) && next == old(next) && prev == old(prev)
      ensures !ok ==> locked == old(locked) && refcnt == old(refcnt)
    {
      ok := Unlock(i);
      if ok { Drop(i); }
    }

    /** brelse's first stretch: it panics unless the buffer is locked, and unlocks it. */
    method Unlock(i: nat) returns (ok: bool)
      requires Valid() && i < n && (locked[i] && valid[i] ==> data[i] == latest[blockno[i]])
      modifies this`locked
      ensures Valid() && (ok <==> old(locked)[i]) && locked == old(locked)[i := false]
    {
      ok := locked[i];
      if ok { locked := locked[i := false]; }
    }

    /**
     * brelse's second stretch, under bcache.lock.  Another process may have locked the buffer since, or be
     * waiting to: it has a reference of its own.
     */
    method Drop(i: nat)
      requires Valid() && i < n && refcnt[i] >= if locked[i] then 2 else 1
      modifies this`refcnt, this`next, this`prev, this`L, this`pos, this`stamp, this`clock
      ensures Valid() && refcnt == old(refcnt)[i := old(refcnt)[i] - 1]
      ensures refcnt[i] == 0 ==> ToFront(old(L), old(pos), i, L, pos) && stamp == old(stamp)[i := old(clock)]
      ensures refcnt[i] != 0 ==> L == old(L) && stamp == old(stamp) && next == old(next) && prev == old(prev)
    {
      refcnt := refcnt[i := refcnt[i] - 1];
      if refcnt[i] == 0 { MoveToFront(i); }
    }

    method MoveToFront(i: nat)
      requires Linked() && i < n
      modifies this`next, this`prev, this`L, this`pos, this`stamp, this`clock
      ensures Linked() && ToFront(old(L), old(pos), i, L, pos) && stamp == old(stamp)[i := old(clock)]
    {
      ghost var M, q := FrontFacts(next, prev, L, pos, stamp, clock, i);
      MoveLinks(i);
      SetRing(M, q, stamp[i := clock], clock + 1);
    }

    /** The ring is now M. */
    ghost method SetRing(M: seq<nat>, q: seq<nat>, times: seq<nat>, now: nat)
      requires |M| == n + 1 && Listing(M, q) && Links(next, prev, M, q) && Stamped(q, times, now)
      modifies this`L, this`pos, this`stamp, this`clock
      ensures Linked() && L == M && pos == q && stamp == times && clock == now
    {
      L, pos, stamp, clock := M, q, times, now;
    }

    /** The six assignments. */
    method MoveLinks(b: nat)
      requires |next| == |prev| == n + 1 && b < n && next[b] <= n && prev[b] <= n && next[n] <= n
      modifies this`next, this`prev
      ensures next == Relink(old(next), old(prev), b).0 && prev == Relink(old(next), old(prev), b).1
    {
      prev := prev[next[b] := prev[b]];
      next := next[prev[b] := next[b]];
      next := next[b := next[n]];
      prev := prev[b := n];
      prev := prev[next[n] := b];
      next := next[n := b];
    }
  }

  /** Buffers 0 .. b-1 hold those blocks, the first k of them logged and released; the others are unused. */
  ghost predicate Filled(c: Cache, k: nat, b: nat)
    reads c
  {
    && c.Valid() && k <= b <= c.n
    && (forall x {:trigger c.dev[x]} :: 0 <= x < c.n ==> c.dev[x] == if x < b then ROOTDEV else 0)
    && (forall x {:trigger c.blockno[x]} :: 0 <= x < b ==> c.blockno[x] == x)
    && (forall x {:trigger c.refcnt[x]} :: 0 <= x < c.n ==> c.refcnt[x] == if k <= x < b then 1 else 0)
    && (forall x {:trigger c.dirty[x]} :: 0 <= x < c.n ==> (c.dirty[x] <==> x < k))
    && (forall x {:trigger c.locked[x]} :: 0 <= x < c.n ==> (c.locked[x] <==> k <= x < b))
    && (forall x {:trigger c.stamp[x]} :: b <= x < c.n ==> c.stamp[x] == x)
  }

  /**
   * k blocks are logged and others read and held until all the buffers are taken: one more reader panics.
   * With 30 buffers and 28 logged blocks, that is the third concurrent reader.
   */
  method Exhaust(nbuf: nat, k: nat, image: Image, zero: Block) returns (c: Cache, r: Found)
    requires k <= nbuf < |image|
    ensures c.n == nbuf && Filled(c, k, nbuf) && r == PanicNoBuffers
  {
    c := new Cache(nbuf, image, zero);
    for b := 0 to k
      invariant fresh(c) && c.n == nbuf && |c.disk| == |image| && Filled(c, b, b)
    {
      Hold(c, b, b);
      Logged(c, b);
    }
    for b := k to nbuf
      invariant fresh(c) && c.n == nbuf && |c.disk| == |image| && Filled(c, k, b)
    {
      Hold(c, k, b);
    }
    r := c.Bget(ROOTDEV, nbuf);
  }

  /** bread of a new block takes the buffer that has gone unused longest. */
  method Hold(c: Cache, k: nat, b: nat)
    requires Filled(c, k, b) && b < c.n && b < |c.disk|
    modifies c`dev, c`blockno, c`refcnt, c`valid, c`dirty, c`locked, c`data
    ensures Filled(c, k, b + 1) && c.valid[b]
  {
    GetNext(c, k, b);
    c.Lock(b);
    var ok := c.Fill(b);
  }

  method GetNext(c: Cache, k: nat, b: nat)
    requires Filled(c, k, b) && b < c.n
    modifies c`dev, c`blockno, c`refcnt, c`valid, c`dirty
    ensures c.Valid() && c.dev == old(c.dev)[b := ROOTDEV] && c.blockno == old(c.blockno)[b := b]
    ensures c.refcnt == old(c.refcnt)[b := 1] && c.valid == old(c.valid)[b := false] && c.dirty == old(c.dirty)
  {
    assert c.refcnt[b] == 0 && !c.dirty[b];
    var r := c.Bget(ROOTDEV, b);
    assert r.i >= b && c.stamp[r.i] <= c.stamp[b];
  }

  /** log_write and brelse of the block read last. */
  method Logged(c: Cache, b: nat)
    requires Filled(c, b, b + 1) && c.valid[b]
    modifies c`dirty, c`pin, c`latest, c`locked, c`refcnt, c`next, c`prev, c`L, c`pos, c`stamp, c`clock
    ensures Filled(c, b + 1, b + 1)
  {
    c.MarkDirty(b);
    var ok := c.Brelse(b);
  }

  lemma FrontOf(L: seq<nat>, pos: seq<nat>, b: nat) returns (M: seq<nat>, q: seq<nat>)
    requires Listing(L, pos) && b < |L| - 1
    ensures ToFront(L, pos, b, M, q)
  {
    assert pos[b] < |L| && pos[b] >= 1;
    M := seq(|L|, k requires 0 <= k < |L| => if k == 1 then b else if 2 <= k <= pos[b] then L[k - 1] else L[k]);
    q := seq(|L|, x requires 0 <= x < |L| => Moved(pos, b, x));
  }

  /** All that moving b to the front keeps. */
  lemma FrontFacts(next: seq<nat>, prev: seq<nat>, L: seq<nat>, pos: seq<nat>, stamp: seq<nat>, clock: nat, b: nat)
    returns (M: seq<nat>, q: seq<nat>)
    requires Listing(L, pos) && Links(next, prev, L, pos) && Stamped(pos, stamp, clock) && b < |stamp| == |L| - 1
    ensures |next| == |prev| == |L| && next[b] < |L| && prev[b] < |L| && next[|L| - 1] < |L|
    ensures ToFront(L, pos, b, M, q) && Stamped(q, stamp[b := clock], clock + 1)
    ensures Listing(M, q) && Links(Relink(next, prev, b).0, Relink(next, prev, b).1, M, q)
  {
    M, q := FrontOf(L, pos, b);
    RelinkLinks(next, prev, L, pos, b, M, q);
    StampFront(L, pos, stamp, clock, b, M, q);
  }
}
