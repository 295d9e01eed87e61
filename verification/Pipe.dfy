/**
 * A pipe: a ring of PIPESIZE bytes with two 32-bit counters that wrap.  Each method is a
 * stretch of code under the pipe's lock; sleep releases the lock, so readers and writers
 * interleave between calls.  accepted and delivered are every byte written and read so far.
 */
module Pipe {
  import opened Basics

  const PIPESIZE: nat := 512

  /** Counting bytes modulo 2^32 and indexing modulo PIPESIZE agree, since PIPESIZE divides 2^32. */
  lemma IndexOf(n: nat)
    ensures (n % UINT) % PIPESIZE == n % PIPESIZE
  {
    assert UINT == PIPESIZE * 0x80_0000;
    var q := n / UINT;
    assert n == PIPESIZE * (0x80_0000 * q) + n % UINT;
    ModAdd(0x80_0000 * q, n % UINT);
  }

  lemma ModAdd(a: nat, b: nat)
    ensures (PIPESIZE * a + b) % PIPESIZE == b % PIPESIZE
  {
    var q, r := b / PIPESIZE, b % PIPESIZE;
    assert PIPESIZE * a + b == PIPESIZE * (a + q) + r;
    DivUnique(PIPESIZE * a + b, a + q, r);
  }

  lemma DivUnique(n: nat, q: nat, r: nat)
    requires n == PIPESIZE * q + r && r < PIPESIZE
    ensures n % PIPESIZE == r
  {
  }

  /** A counter one step on. */
  lemma NextCount(n: nat)
    ensures (n % UINT + 1) % UINT == (n + 1) % UINT
  {
    var q, r := n / UINT, n % UINT;
    assert n == UINT * q + r;
    if r + 1 < UINT { WordUnique(n + 1, q, r + 1); } else { WordUnique(n + 1, q + 1, 0); }
  }

  lemma WordUnique(n: nat, q: nat, r: nat)
    requires n == UINT * q + r && r < UINT
    ensures n % UINT == r
  {
  }

  /** With at most PIPESIZE bytes in flight, the wrapped counters tell empty and full apart. */
  lemma CountersTell(w: nat, r: nat)
    requires r <= w <= r + PIPESIZE
    ensures w % UINT == r % UINT <==> w == r
    ensures w % UINT == (r % UINT + PIPESIZE) % UINT <==> w == r + PIPESIZE
  {
  }

  /** Two bytes in flight never share a cell. */
  lemma CellsApart(i: nat, j: nat)
    requires i < j < i + PIPESIZE
    ensures i % PIPESIZE != j % PIPESIZE
  {
  }

  datatype Status = Finished | Asleep | Failed

  class Pipe {
    const data: array<Byte>
    var nread: nat
    var nwrite: nat
    var readopen: bool
    var writeopen: bool
    ghost var accepted: seq<Byte>
    ghost var delivered: seq<Byte>

    /** What was delivered is a prefix of what was accepted, and the ring holds the rest. */
    ghost predicate Valid()
      reads this, data
    {
      && data.Length == PIPESIZE
      && nwrite == |accepted| % UINT && nread == |delivered| % UINT
      && |delivered| <= |accepted| <= |delivered| + PIPESIZE
      && (forall k :: 0 <= k < |delivered| ==> delivered[k] == accepted[k])
      && (forall k {:trigger accepted[k]} :: |delivered| <= k < |accepted| ==> data[k % PIPESIZE] == accepted[k])
    }

    /** pipealloc. */
    constructor ()
      ensures Valid() && fresh(data) && accepted == [] && delivered == [] && readopen && writeopen
    {
      data := new Byte[PIPESIZE];
      nread, nwrite, readopen, writeopen := 0, 0, true, true;
      accepted, delivered := [], [];
    }

    /** The byte goes into the next cell. */
    method Put(b: Byte)
      requires Valid() && |accepted| < |delivered| + PIPESIZE
      modifies this`nwrite, this`accepted, data
      ensures Valid() && accepted == old(accepted) + [b]
    {
      ghost var n := |accepted|;
      IndexOf(n);
      data[nwrite % PIPESIZE] := b;
      NextCount(n);
      nwrite := (nwrite + 1) % UINT;
      accepted := accepted + [b];
      forall k {:trigger accepted[k]} | |delivered| <= k < |accepted| ensures data[k % PIPESIZE] == accepted[k] {
        if k < n { CellsApart(k, n); }
      }
    }

    /**
     * pipewrite from byte number i of addr on, until it is done, must sleep or gives up:
     * the bytes it stored are the next ones of addr, in order.
     */
    method Write(addr: seq<Byte>, i: nat, killed: bool) returns (j: nat, st: Status)
      requires Valid() && i <= |addr|
      modifies this`nwrite, this`accepted, data
      ensures Valid() && i <= j <= |addr| && accepted == old(accepted) + addr[i..j]
      ensures st == Finished <==> j == |addr|
      ensures st != Finished ==> |accepted| == |delivered| + PIPESIZE
      ensures st == Failed ==> !readopen || killed
      ensures st == Asleep ==> readopen && !killed
    {
      j := i;
      while j < |addr|
        invariant Valid() && i <= j <= |addr| && accepted == old(accepted) + addr[i..j]
      {
        CountersTell(|accepted|, |delivered|);
        if nwrite == (nread + PIPESIZE) % UINT {
          return j, if !readopen || killed then Failed else Asleep;
        }
        Put(addr[j]);
        assert addr[i..j + 1] == addr[i..j] + [addr[j]];
        j := j + 1;
      }
      st := Finished;
    }

    /** The oldest byte comes out. */
    method Take() returns (b: Byte)
      requires Valid() && |delivered| < |accepted|
      modifies this`nread, this`delivered
      ensures Valid() && delivered == old(delivered) + [b] && b == accepted[|old(delivered)|]
    {
      IndexOf(|delivered|);
      assert data[|delivered| % PIPESIZE] == accepted[|delivered|];
      b := data[nread % PIPESIZE];
      NextCount(|delivered|);
      nread := (nread + 1) % UINT;
      delivered := delivered + [b];
    }

    /**
     * piperead: sleep while the pipe is empty and can still be written, else deliver up to n
     * bytes: all there are, if they are fewer, and none only if there are none to come.
     */
    method Read(n: nat, killed: bool) returns (addr: seq<Byte>, st: Status)
      requires Valid()
      modifies this`nread, this`delivered
      ensures Valid() && delivered == old(delivered) + addr && |addr| <= n
      ensures st == Finished ==> |addr| == n || |delivered| == |accepted|
      ensures st == Finished && |accepted| == |old(delivered)| ==> !writeopen
      ensures st != Finished ==> addr == [] && |delivered| == |accepted| && writeopen && (st == Failed <==> killed)
    {
      addr := [];
      CountersTell(|accepted|, |delivered|);
      if nread == nwrite && writeopen {
        return addr, if killed then Failed else Asleep;
      }
      while |addr| < n
        invariant Valid() && |addr| <= n && delivered == old(delivered) + addr
      {
        CountersTell(|accepted|, |delivered|);
        if nread == nwrite { break; }
        var b := Take();
        addr := addr + [b];
      }
      st := Finished;
    }

    /** pipeclose, up to freeing the pipe when both ends are closed. */
    method Close(writable: bool) returns (done: bool)
      requires Valid()
      modifies this`readopen, this`writeopen
      ensures Valid() && (done <==> !readopen && !writeopen)
      ensures writeopen == (old(writeopen) && !writable) && readopen == (old(readopen) && writable)
    {
      if writable { writeopen := false; } else { readopen := false; }
      done := !readopen && !writeopen;
    }

    /**
     * Any interleaving of writers, each with its own text, of readers and of closes, with every
     * sleep ended by a later turn.  It is a queue of PIPESIZE bytes that each writer fills and each reader empties
     * as far as it can.  What the readers got, joined in order, is a prefix of what was
     * accepted; each writer's bytes were accepted in the order of its text; and at most PIPESIZE
     * bytes are in flight.
     */
    method Interleave(texts: seq<seq<Byte>>, turns: seq<Turn>) returns (got: seq<Byte>, done: seq<nat>, ghost who: seq<nat>)
      requires Valid() && accepted == [] && delivered == []
      requires forall k :: 0 <= k < |turns| && turns[k].Writer? ==> turns[k].p < |texts|
      modifies this, data
      ensures Valid() && got == delivered && got <= accepted && |accepted| <= |got| + PIPESIZE
      ensures |who| == |accepted| && |done| == |texts| && InOrder(accepted, who, texts, done)
      ensures Flow(accepted[|delivered|..], got, done) == FlowAfter(texts, turns, |turns|)
    {
      got, done, who := [], seq(|texts|, p => 0), [];
      for k := 0 to |turns|
        invariant Valid() && got == delivered && |who| == |accepted| && |done| == |texts|
        invariant InOrder(accepted, who, texts, done)
        invariant Flow(accepted[|delivered|..], got, done) == FlowAfter(texts, turns, k)
      {
        ghost var f := FlowAfter(texts, turns, k);
        match turns[k] {
          case Writer(p, killed) =>
            ghost var was, tags := accepted, who;
            var j, st := Write(texts[p], done[p], killed);
            who := Tagged(tags, p, j - done[p]);
            InOrderMore(was, tags, texts, done, p, j, who);
            WriterFlows(f, texts, turns[k], was, accepted, delivered, j);
            done := done[p := j];
          case Reader(n, killed) =>
            ghost var before := delivered;
            var addr, st := Read(n, killed);
            ReaderFlows(f, texts, turns[k], accepted, before, delivered, addr);
            got := got + addr;
          case Closing(writable) => var freed := Close(writable);
        }
      }
    }
  }

  datatype Turn = Writer(p: nat, killed: bool) | Reader(n: nat, killed: bool) | Closing(writable: bool)

  /** The bytes in the pipe, the bytes the readers have, and how much of each text is written. */
  datatype Flow = Flow(queue: seq<Byte>, got: seq<Byte>, done: seq<nat>)

  /** A writer puts in as much of its text as there is room for; a reader takes what there is, up to n bytes. */
  ghost function FlowNext(f: Flow, texts: seq<seq<Byte>>, turn: Turn): (g: Flow)
    requires |f.done| == |texts| && (turn.Writer? ==> turn.p < |texts|)
    ensures |g.done| == |texts|
  {
    match turn
    case Writer(p, _) =>
      if f.done[p] <= |texts[p]| && |f.queue| <= PIPESIZE then
        var j := f.done[p] + Min(|texts[p]| - f.done[p], PIPESIZE - |f.queue|);
        Flow(f.queue + texts[p][f.done[p]..j], f.got, f.done[p := j])
      else f
    case Reader(n, _) => var m := Min(n, |f.queue|); Flow(f.queue[m..], f.got + f.queue[..m], f.done)
    case Closing(_) => f
  }

  ghost function FlowAfter(texts: seq<seq<Byte>>, turns: seq<Turn>, k: nat): (f: Flow)
    requires k <= |turns| && forall k {:trigger turns[k]} :: 0 <= k < |turns| && turns[k].Writer? ==> turns[k].p < |texts|
    ensures |f.done| == |texts|
    decreases k
  {
    if k == 0 then Flow([], [], seq(|texts|, p => 0)) else FlowNext(FlowAfter(texts, turns, k - 1), texts, turns[k - 1])
  }

  lemma WriterFlows(f: Flow, texts: seq<seq<Byte>>, turn: Turn, was: seq<Byte>, accepted: seq<Byte>,
                    delivered: seq<Byte>, j: nat)
    requires turn.Writer? && turn.p < |texts| == |f.done| && f.done[turn.p] <= j <= |texts[turn.p]|
    requires |delivered| <= |was| && f.queue == was[|delivered|..] && accepted == was + texts[turn.p][f.done[turn.p]..j]
    requires |accepted| <= |delivered| + PIPESIZE && (j < |texts[turn.p]| ==> |accepted| == |delivered| + PIPESIZE)
    ensures FlowNext(f, texts, turn) == Flow(accepted[|delivered|..], f.got, f.done[turn.p := j])
  {
    assert accepted[|delivered|..] == was[|delivered|..] + texts[turn.p][f.done[turn.p]..j];
  }

  lemma ReaderFlows(f: Flow, texts: seq<seq<Byte>>, turn: Turn, accepted: seq<Byte>, before: seq<Byte>, delivered: seq<Byte>,
                    addr: seq<Byte>)
    requires turn.Reader? && |f.done| == |texts| && delivered == before + addr && |addr| <= turn.n && delivered <= accepted
    requires f.queue == accepted[|before|..] && (|addr| == turn.n || |delivered| == |accepted|)
    ensures FlowNext(f, texts, turn) == Flow(accepted[|delivered|..], f.got + addr, f.done)
  {
    var m := |addr|;
    assert f.queue[..m] == addr by {
      assert forall i :: 0 <= i < m ==> f.queue[i] == accepted[|before| + i] == delivered[|before| + i];
    }
    assert f.queue[m..] == accepted[|delivered|..];
  }

  /** Those of the first k bytes of s that came from writer p. */
  ghost function From(s: seq<Byte>, who: seq<nat>, p: nat, k: nat): seq<Byte>
    requires k <= |s| && |who| == |s|
    decreases k
  {
    if k == 0 then [] else From(s, who, p, k - 1) + if who[k - 1] == p then [s[k - 1]] else []
  }

  /** who with n times p after it. */
  ghost function Tagged(who: seq<nat>, p: nat, n: nat): (r: seq<nat>)
    ensures |r| == |who| + n && forall i {:trigger r[i]} :: 0 <= i < |r| ==> r[i] == if i < |who| then who[i] else p
    decreases n
  {
    if n == 0 then who else Tagged(who, p, n - 1) + [p]
  }

  /** Writer p's bytes x come next. */
  lemma {:induction false} FromMore(s: seq<Byte>, who: seq<nat>, x: seq<Byte>, tags: seq<nat>, p: nat, q: nat, k: nat)
    requires |who| == |s| && tags == Tagged(who, p, |x|) && k <= |s + x|
    ensures From(s + x, tags, q, k) == if k <= |s| then From(s, who, q, k) else From(s, who, q, |s|) + if q == p then x[..k - |s|] else []
    decreases k
  {
    if k > 0 {
      FromMore(s, who, x, tags, p, q, k - 1);
      assert k > |s| ==> x[..k - |s|] == x[..k - |s| - 1] + [x[k - |s| - 1]];
    }
  }

  /** Of each text, the first done[p] bytes have been accepted, in order. */
  ghost predicate InOrder(s: seq<Byte>, who: seq<nat>, texts: seq<seq<Byte>>, done: seq<nat>)
    requires |who| == |s| && |done| == |texts|
  {
    forall p {:trigger done[p]} :: 0 <= p < |texts| ==> done[p] <= |texts[p]| && From(s, who, p, |s|) == texts[p][..done[p]]
  }

  lemma InOrderMore(s: seq<Byte>, who: seq<nat>, texts: seq<seq<Byte>>, done: seq<nat>, p: nat, j: nat, tags: seq<nat>)
    requires |who| == |s| && |done| == |texts| && InOrder(s, who, texts, done)
    requires p < |texts| && done[p] <= j <= |texts[p]| && tags == Tagged(who, p, j - done[p])
    ensures InOrder(s + texts[p][done[p]..j], tags, texts, done[p := j])
  {
    var x, done' := texts[p][done[p]..j], done[p := j];
    assert x[..|x|] == x && texts[p][..done[p]] + x == texts[p][..j];
    forall q | 0 <= q < |texts|
      ensures done'[q] <= |texts[q]| && From(s + x, tags, q, |s + x|) == texts[q][..done'[q]]
    {
      assert done[q] <= |texts[q]|;
      FromMore(s, who, x, tags, p, q, |s + x|);
      if x == [] { assert done' == done; }
    }
  }
}
