/**
 * The log's code: the in-memory header, the pinned blocks of the buffer cache and
 * the disk, updated in place.  The field trace records every block write issued, so
 * that each method can be held to the writes LogSpec says it makes.
 */
module Log {
  import opened Disk
  import opened Seqs
  import opened LogSpec

  datatype Outcome = Done | PanicTooBig | PanicOutside | PanicCommitting

  /** log_write's absorption: a block already in the list is not added again. */
  ghost function Absorb(bs: seq<nat>, b: nat): (r: seq<nat>)
    ensures forall x :: x in r <==> x in bs || x == b
    ensures Distinct(bs) ==> Distinct(r)
    ensures bs <= r && |r| <= |bs| + 1
  {
    if b in bs then bs
    else if Distinct(bs) then DistinctAppend(bs, b); bs + [b]
    else bs + [b]
  }

  /** now is was followed by the first k of the writes ws. */
  ghost predicate Traced(was: seq<Write>, ws: seq<Write>, k: nat, now: seq<Write>) {
    && k <= |ws| && |now| == |was| + k
    && forall i {:trigger now[i]} :: 0 <= i < |now| ==> now[i] == if i < |was| then was[i] else ws[i - |was|]
  }

  lemma TracedNext(was: seq<Write>, ws: seq<Write>, k: nat, now: seq<Write>)
    requires Traced(was, ws, k, now) && k < |ws|
    ensures Traced(was, ws, k + 1, now + [ws[k]])
  {
  }

  /** data are the cached contents of the blocks bs, and ws the writes that commit them. */
  ghost predicate Commits(l: Layout, d: Image, p: Pins, bs: seq<nat>, data: seq<Block>, ws: seq<Write>) {
    && CommitRun(l, d, bs, data, ws) && |data| == |bs|
    && forall i {:trigger data[i]} :: 0 <= i < |bs| ==> Home(l, |d|, bs[i]) && data[i] == View(d, p, bs[i])
  }

  /** The writes a commit is going to make. */
  lemma CommitPlan(l: Layout, d: Image, p: Pins, bs: seq<nat>) returns (data: seq<Block>, ws: seq<Write>)
    requires Clean(l, d) && Loggable(l, |d|, bs)
    ensures Commits(l, d, p, bs, data, ws)
  {
    assert forall i :: 0 <= i < |bs| ==> Home(l, |d|, bs[i]);
    data := seq(|bs|, i requires 0 <= i < |bs| => View(d, p, bs[i]));
    ws := CommitWritesExist(l, d[l.start], bs, data);
    CommitFits(l, d, bs, data, ws);
  }

  /** The first k writes of ws have been made on d, and traced after t. */
  ghost predicate Performed(d: Image, t: seq<Write>, ws: seq<Write>, k: nat, e: Image, trace: seq<Write>) {
    Fits(d, ws) && k <= |ws| && e == Apply(d, ws, k) && Traced(t, ws, k, trace)
  }

  lemma PerformNext(d: Image, t: seq<Write>, ws: seq<Write>, k: nat, e: Image, trace: seq<Write>)
    requires Performed(d, t, ws, k, e, trace) && k < |ws|
    ensures ws[k].blockno < |e| && Performed(d, t, ws, k + 1, e[ws[k].blockno := ws[k].data], trace + [ws[k]])
  {
    TracedNext(t, ws, k, trace);
  }

  /** Pins p are q without the first k blocks of bs. */
  ghost predicate Unpinned(p: Pins, q: Pins, bs: seq<nat>, k: nat)
    requires k <= |bs|
  {
    forall b :: b in p <==> b in q && b !in bs[..k]
  }

  lemma UnpinNext(p: Pins, q: Pins, bs: seq<nat>, k: nat)
    requires k < |bs| && Unpinned(p, q, bs, k)
    ensures Unpinned(Unpin(p, bs[k]), q, bs, k + 1)
  {
    TakeNext(bs, k);
  }

  lemma UnpinAll(p: Pins, q: Pins, bs: seq<nat>)
    requires Unpinned(p, q, bs, |bs|)
    ensures forall b :: b in p <==> b in q && b !in bs
  {
    TakeAll(bs);
  }

  /** The log areas of the two disks are the same. */
  ghost predicate SameLog(l: Layout, d: Image, e: Image) {
    |d| == |e| && forall b: nat :: InLog(l, b) && b < |d| ==> d[b] == e[b]
  }

  lemma LogWriteKeeps(l: Layout, d: Image, e: Image, b: nat, data: Block)
    requires SameHomes(l, d, e) && InLog(l, b) && b < |d|
    ensures SameHomes(l, d[b := data], e)
  {
  }

  lemma HomeWrite(l: Layout, d: Image, e: Image, b: nat, data: Block)
    requires SameLog(l, d, e) && Home(l, |d|, b)
    ensures SameLog(l, d[b := data], e)
  {
  }

  class Log {
    const layout: Layout
    var disk: Image
    /** The cached blocks that are dirty, hence pinned. */
    var pinned: Pins
    var n: int
    const block: array<nat>
    var outstanding: int
    var committing: bool
    ghost var trace: seq<Write>

    ghost predicate Shape()
      reads this`n, this`disk, this`pinned
    {
      && block.Length == LOGSIZE && n <= LOGSIZE && Roomy(layout, disk)
      && forall b :: b in pinned ==> Home(layout, |disk|, b)
    }

    ghost function Logged(): (bs: seq<nat>)
      requires n <= block.Length
      reads this`n, block
    {
      if n <= 0 then [] else block[..n]
    }

    /** Between commits: the pinned blocks are the logged ones, and the disk log is empty. */
    ghost predicate Valid()
      reads this`n, this`disk, this`pinned, block
    {
      && Shape() && 0 <= n
      && Loggable(layout, |disk|, Logged())
      && (forall b :: b in pinned <==> b in Logged())
      && Clean(layout, disk)
    }

    method Bread(b: nat) returns (data: Block)
      requires b < |disk|
      ensures data == View(disk, pinned, b)
    {
      data := if b in pinned then pinned[b] else disk[b];
    }

    method Bwrite(b: nat, data: Block)
      requires Shape() && b < |disk|
      modifies this`disk, this`pinned, this`trace
      ensures Shape() && disk == old(disk)[b := data] && pinned == Unpin(old(pinned), b)
      ensures trace == old(trace) + [Write(b, data)]
    {
      disk := disk[b := data];
      pinned := Unpin(pinned, b);
      trace := trace + [Write(b, data)];
    }

    /** The transaction as readers see it goes into the log area: the writes k .. k + |Logged()| of ws. */
    method WriteLog(ghost d: Image, ghost t: seq<Write>, ghost ws: seq<Write>, ghost k: nat)
      requires Shape() && Loggable(layout, |disk|, Logged())
      requires Performed(d, t, ws, k, disk, trace) && k + |Logged()| <= |ws|
      requires forall i :: 0 <= i < |Logged()| ==> Home(layout, |disk|, Logged()[i])
      requires forall i {:trigger ws[i]} :: k <= i < k + |Logged()| ==>
                 ws[i] == Write(layout.start + 1 + i - k, View(disk, pinned, Logged()[i - k]))
      modifies this`disk, this`trace
      ensures Shape()
      ensures Performed(d, t, ws, k + |Logged()|, disk, trace)
    {
      var e: Image;
      ghost var now;
      e, now := CopyToLog(d, t, ws, k);
      disk, trace := e, now;
    }

    /** Its loop: the disk and the trace as they become. */
    method CopyToLog(ghost d: Image, ghost t: seq<Write>, ghost ws: seq<Write>, ghost k: nat)
      returns (e: Image, ghost now: seq<Write>)
      requires Shape() && Loggable(layout, |disk|, Logged())
      requires Performed(d, t, ws, k, disk, trace) && k + |Logged()| <= |ws|
      requires forall i :: 0 <= i < |Logged()| ==> Home(layout, |disk|, Logged()[i])
      requires forall i {:trigger ws[i]} :: k <= i < k + |Logged()| ==>
                 ws[i] == Write(layout.start + 1 + i - k, View(disk, pinned, Logged()[i - k]))
      ensures Performed(d, t, ws, k + |Logged()|, e, now) && |e| == |disk|
    {
      ghost var bs := Logged();
      e, now := disk, trace;
      var tail := 0;
      ghost var m := k;
      while tail < n
        modifies {}
        invariant 0 <= tail <= |bs| && m == k + tail && Performed(d, t, ws, m, e, now) && SameHomes(layout, e, disk)
      {
        assert block[tail] == bs[tail] && Home(layout, |disk|, bs[tail]);
        var from := View(e, pinned, block[tail]);
        assert ws[m] == Write(layout.start + 1 + tail, from);
        PerformNext(d, t, ws, m, e, now);
        LogWriteKeeps(layout, e, disk, layout.start + tail + 1, from);
        e, now := e[layout.start + tail + 1 := from], now + [ws[m]];
        tail, m := tail + 1, m + 1;
      }
    }

    /** What the log area holds goes where the list says, likewise. */
    method InstallTrans(ghost d: Image, ghost t: seq<Write>, ghost ws: seq<Write>, ghost k: nat)
      requires Shape() && Loggable(layout, |disk|, Logged())
      requires Performed(d, t, ws, k, disk, trace) && k + |Logged()| <= |ws|
      requires Installs(layout, disk, Logged(), ws, k)
      modifies this`disk, this`pinned, this`trace
      ensures Shape()
      ensures forall b :: b in pinned <==> b in old(pinned) && b !in Logged()
      ensures Performed(d, t, ws, k + |Logged()|, disk, trace)
      ensures disk[layout.start] == old(disk)[layout.start]
    {
      ghost var bs := Logged();
      var e: Image, p: Pins;
      ghost var now;
      e, p, now := CopyHome(d, t, ws, k);
      UnpinAll(p, pinned, bs);
      assert InLog(layout, layout.start);
      Settle(e, p, now);
    }

    /** Its loop: the disk, the pinned blocks and the trace as they become. */
    method CopyHome(ghost d: Image, ghost t: seq<Write>, ghost ws: seq<Write>, ghost k: nat)
      returns (e: Image, p: Pins, ghost now: seq<Write>)
      requires Shape() && Loggable(layout, |disk|, Logged())
      requires Performed(d, t, ws, k, disk, trace) && k + |Logged()| <= |ws|
      requires Installs(layout, disk, Logged(), ws, k)
      ensures Performed(d, t, ws, k + |Logged()|, e, now) && SameLog(layout, e, disk)
      ensures Unpinned(p, pinned, Logged(), |Logged()|)
    {
      ghost var bs := Logged();
      e, p, now := disk, pinned, trace;
      var tail := 0;
      ghost var m := k;
      while tail < n
        modifies {}
        invariant 0 <= tail <= |bs| && m == k + tail && Performed(d, t, ws, m, e, now) && SameLog(layout, e, disk)
        invariant Unpinned(p, pinned, bs, tail)
      {
        assert block[tail] == bs[tail] && Home(layout, |disk|, bs[tail]) && InLog(layout, layout.start + tail + 1);
        var from := View(e, p, layout.start + tail + 1);
        assert ws[m] == Write(bs[tail], from);
        PerformNext(d, t, ws, m, e, now);
        UnpinNext(p, pinned, bs, tail);
        HomeWrite(layout, e, disk, bs[tail], from);
        e, p, now := e[block[tail] := from], Unpin(p, block[tail]), now + [ws[m]];
        tail, m := tail + 1, m + 1;
      }
    }

    /** The disk, the cache and the trace after some writes. */
    method Settle(e: Image, p: Pins, ghost now: seq<Write>)
      requires Shape() && |e| == |disk| && forall b :: b in p ==> b in pinned
      modifies this`disk, this`pinned, this`trace
      ensures Shape() && disk == e && pinned == p && trace == now
    {
      disk, pinned, trace := e, p, now;
    }

    /** The list is again what the disk says it was. */
    method ReadHead(ghost bs: seq<nat>)
      requires Shape() && pinned == map[] && WellFormed(layout, disk, bs)
      modifies this`n, block
      ensures Shape() && n == |bs| && Logged() == bs
    {
      var head := Bread(layout.start);
      n := head[0];
      var i := 0;
      while i < n
        invariant 0 <= i <= n == |bs|
        invariant forall k :: 0 <= k < i ==> block[k] == bs[k]
      {
        assert head[1 + i] == bs[i];
        block[i] := head[1 + i];
        i := i + 1;
      }
    }

    /** The in-memory log header as a block, the rest of which is as in was. */
    method HeaderBlock(was: Block) returns (head: Block)
      requires block.Length == LOGSIZE && 0 <= n <= LOGSIZE
      ensures Overwrites(was, Logged(), head)
    {
      head := was[0 := n];
      var i := 0;
      while i < n
        invariant 0 <= i <= n && head[0] == n
        invariant forall j :: 0 <= j < i ==> head[1 + j] == block[j]
        invariant forall j :: i < j < BWORDS ==> head[j] == was[j]
      {
        head := head[1 + i := block[i]];
        i := i + 1;
      }
    }

    /** The list goes to disk, as write number k of ws. */
    method WriteHead(ghost d: Image, ghost t: seq<Write>, ghost ws: seq<Write>, ghost k: nat)
      requires Shape() && 0 <= n
      requires Performed(d, t, ws, k, disk, trace) && k < |ws|
      requires ws[k].blockno == layout.start && Overwrites(disk[layout.start], Logged(), ws[k].data)
      modifies this`disk, this`pinned, this`trace
      ensures Shape() && pinned == old(pinned) && disk == old(disk)[layout.start := ws[k].data]
      ensures Performed(d, t, ws, k + 1, disk, trace)
    {
      assert InLog(layout, layout.start);
      var was := Bread(layout.start);
      var head := HeaderBlock(was);
      OverwritesUnique(was, Logged(), head, ws[k].data);
      PerformNext(d, t, ws, k, disk, trace);
      Bwrite(layout.start, head);
    }

    /** The transaction reaches the log, then the header. */
    method CommitLog(ghost data: seq<Block>, ghost ws: seq<Write>)
      requires Valid() && Commits(layout, disk, pinned, Logged(), data, ws)
      modifies this`disk, this`pinned, this`trace
      ensures Shape() && pinned == old(pinned)
      ensures Performed(old(disk), old(trace), ws, |data| + 1, disk, trace)
    {
      ghost var d, t := disk, trace;
      WriteLog(d, t, ws, 0);
      assert disk[layout.start] == d[layout.start] by { ApplyUntouched(d, ws, |data|, layout.start); }
      WriteHead(d, t, ws, |data|);
    }

    /** The transaction reaches its home blocks, then the header is cleared: the rest of ws. */
    method InstallAndClear(ghost d: Image, ghost t: seq<Write>, ghost ws: seq<Write>, ghost k: nat)
      requires Shape() && 0 <= n && Loggable(layout, |disk|, Logged())
      requires Performed(d, t, ws, k, disk, trace) && |ws| == k + |Logged()| + 1
      requires Installs(layout, disk, Logged(), ws, k)
      requires ws[|ws| - 1] == Write(layout.start, disk[layout.start][0 := 0])
      requires forall b :: b in pinned ==> b in Logged()
      modifies this`n, this`disk, this`pinned, this`trace
      ensures Valid() && n == 0
      ensures Performed(d, t, ws, |ws|, disk, trace)
    {
      InstallTrans(d, t, ws, k);
      n := 0;
      WriteHead(d, t, ws, |ws| - 1);
    }

    method Commit() returns (ghost data: seq<Block>, ghost ws: seq<Write>)
      requires Valid()
      modifies this`n, this`disk, this`pinned, this`trace
      ensures Valid() && n == 0
      ensures old(n) == 0 ==> disk == old(disk) && trace == old(trace)
      ensures old(n) > 0 ==>
                && Commits(layout, old(disk), old(pinned), old(Logged()), data, ws)
                && Performed(old(disk), old(trace), ws, |ws|, disk, trace)
    {
      data, ws := [], [];
      if n > 0 {
        data, ws := CommitPlan(layout, disk, pinned, Logged());
        ghost var d, t, bs := disk, trace, Logged();
        CommitInstalls(layout, d, bs, data, ws);
        CommitLog(data, ws);
        assert Logged() == bs;
        InstallAndClear(d, t, ws, |data| + 1);
      }
    }

    /** Redo a committed transaction, if the log holds one. */
    method RecoverFromLog(ghost bs: seq<nat>) returns (ghost ws: seq<Write>)
      requires Shape() && pinned == map[] && WellFormed(layout, disk, bs)
      modifies this`n, this`disk, this`pinned, this`trace, block
      ensures Valid() && n == 0
      ensures RecoverRun(layout, old(disk), bs, ws, |ws|, disk) && Traced(old(trace), ws, |ws|, trace)
    {
      ws := RecoverWritesExist(layout, disk, bs);
      WritesFit(layout, disk, bs, ws);
      ghost var d, t := disk, trace;
      ReadHead(bs);
      InstallAndClear(d, t, ws, 0);
    }

    /** Boot: the cache is empty and the disk is whatever the last crash left. */
    constructor (l: Layout, d: Image, ghost bs: seq<nat>)
      requires WellFormed(l, d, bs)
      ensures fresh(block) && layout == l && Valid() && n == 0 && outstanding == 0 && !committing
      ensures RecoverAll(l, d, bs, trace, disk)
    {
      layout, disk, pinned, n := l, d, map[], 0;
      block := new nat[LOGSIZE];
      outstanding, committing, trace := 0, false, [];
      new;
      ghost var ws := RecoverFromLog(bs);
      assert trace == ws;
    }

    /**
     * The caller has set its copy of block b to data and calls log_write.  The panics are
     * the source's; otherwise the block is in the list once and pinned with its new contents.
     */
    method LogWrite(b: nat, data: Block) returns (r: Outcome)
      requires Valid() && Home(layout, |disk|, b)
      modifies this`n, this`pinned, block
      ensures r == if old(n) >= LOGSIZE || old(n) >= layout.size - 1 then PanicTooBig
                   else if outstanding < 1 then PanicOutside else Done
      ensures r != Done ==> n == old(n) && pinned == old(pinned) && block[..] == old(block[..])
      ensures r == Done ==> Valid() && Logged() == Absorb(old(Logged()), b) && pinned == old(pinned)[b := data]
    {
      r := Guards();
      if r == Done { Append(b, data); }
    }

    /** log_write's first stretch: its panics, tested before the lock is taken. */
    method Guards() returns (r: Outcome)
      ensures r == if n >= LOGSIZE || n >= layout.size - 1 then PanicTooBig
                   else if outstanding < 1 then PanicOutside else Done
    {
      if n >= LOGSIZE || n >= layout.size - 1 { return PanicTooBig; }
      if outstanding < 1 { return PanicOutside; }
      r := Done;
    }

    /** Its second stretch, under log.lock. */
    method Append(b: nat, data: Block)
      requires Valid() && Home(layout, |disk|, b) && n < LOGSIZE && n < layout.size - 1
      modifies this`n, this`pinned, block
      ensures Valid() && Logged() == Absorb(old(Logged()), b) && pinned == old(pinned)[b := data]
    {
      ghost var bs := Logged();
      var i := 0;
      while i < n && block[i] != b
        modifies {}
        invariant 0 <= i <= n
        invariant forall k :: 0 <= k < i ==> bs[k] != b
      {
        i := i + 1;
      }
      assert i < n ==> bs[i] == b;
      block[i] := b;
      if i == n { n := n + 1; }
      assert Logged() == Absorb(bs, b);
      pinned := pinned[b := data];
    }

    /** One turn of begin_op's waiting loop: true if the operation is admitted, false to sleep. */
    method TryBeginOp() returns (admitted: bool)
      modifies this`outstanding
      ensures admitted <==> !committing && n + (old(outstanding) + 1) * MAXOPBLOCKS <= LOGSIZE
      ensures outstanding == old(outstanding) + if admitted then 1 else 0
    {
      if committing {
        admitted := false;
      } else if n + (outstanding + 1) * MAXOPBLOCKS > LOGSIZE {
        admitted := false;
      } else {
        outstanding := outstanding + 1;
        admitted := true;
      }
    }

    /** end_op: the last operation to end commits for all. */
    method EndOp() returns (r: Outcome, ghost data: seq<Block>, ghost ws: seq<Write>)
      requires Valid()
      modifies this`n, this`disk, this`pinned, this`trace, this`outstanding, this`committing
      ensures Valid() && outstanding == old(outstanding) - 1
      ensures r == if old(committing) then PanicCommitting else Done
      ensures committing == old(committing)
      ensures r != Done || outstanding != 0 || old(n) == 0 ==> disk == old(disk) && trace == old(trace)
      ensures r != Done || outstanding != 0 ==> n == old(n) && pinned == old(pinned)
      ensures r == Done && outstanding == 0 ==> n == 0
      ensures r == Done && outstanding == 0 && old(n) > 0 ==>
                && Commits(layout, old(disk), old(pinned), old(Logged()), data, ws)
                && Performed(old(disk), old(trace), ws, |ws|, disk, trace)
    {
      data, ws := [], [];
      var last;
      r, last := LeaveOp();
      if last {
        data, ws := Commit();
        committing := false;
      }
    }

    /** Its first stretch under the lock: whoever leaves last shuts out new operations until the commit is done. */
    method LeaveOp() returns (r: Outcome, last: bool)
      modifies this`outstanding, this`committing
      ensures outstanding == old(outstanding) - 1 && r == if old(committing) then PanicCommitting else Done
      ensures last <==> r == Done && outstanding == 0
      ensures committing == (old(committing) || last)
    {
      outstanding := outstanding - 1;
      if committing { return PanicCommitting, false; }
      last := outstanding == 0;
      if last { committing := true; }
      r := Done;
    }
  }
}
