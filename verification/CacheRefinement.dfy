/**
 * The buffer cache behaves as if there were none: any number of clients read, change, log or write, and release
 * blocks, interleaved as they like, and each sees what it would if every block were a cell of its own with a lock.
 * Buffers, the ring, recycling and the disk do not show, except that bget can run out of buffers.
 */
module CacheRefinement {
  import opened Disk
  import opened BufferCache

  // ---- Blocks as cells -----------------------------------------------------------------

  /** Where a client is between bget and the end of brelse; Changed has the contents it has put in its buffer. */
  datatype Phase = Waits | Locks | Holds | Changed(x: Block) | Leaves

  datatype Client = Out | In(d: nat, b: nat, phase: Phase)

  /** The clients, the contents last logged or written, what is on disk, and the blocks logged since they were. */
  datatype Cells = Cells(clients: seq<Client>, latest: Image, disk: Image, pins: set<nat>)

  datatype Op =
    | Get(p: nat, d: nat, b: nat) | Take(p: nat) | Read(p: nat) | Change(p: nat, x: Block)
    | Put(p: nat, through: bool) | Untake(p: nat) | Leave(p: nat)

  datatype Result = Skipped | Did | Saw(x: Block)

  predicate HoldsLock(c: Client) {
    c.In? && c.phase != Waits && c.phase != Leaves
  }

  ghost predicate SameBlock(c: Client, e: Client) {
    c.In? && e.In? && c.d == e.d && c.b == e.b
  }

  /** No client has client p's block locked. */
  ghost predicate Free(clients: seq<Client>, p: nat)
    requires p < |clients|
  {
    forall q {:trigger clients[q]} :: 0 <= q < |clients| && HoldsLock(clients[q]) ==> !SameBlock(clients[p], clients[q])
  }

  /** May the client make the call now?  One that calls out of turn, or has to wait for the lock, does nothing. */
  ghost predicate Ready(a: Cells, op: Op) {
    && op.p < |a.clients|
    && var c := a.clients[op.p];
       match op
       case Get(_, d, _) => c.Out? && d != 0
       case Take(p) => c.In? && c.phase == Waits && Free(a.clients, p)
       case Read(_) => c.In? && c.phase == Locks && c.d == ROOTDEV && c.b < |a.latest|
       case Change(_, _) => c.In? && (c.phase == Holds || c.phase.Changed?)
       case Put(_, _) => c.In? && (c.phase == Holds || c.phase.Changed?) && c.b < |a.latest|
       case Untake(_) => c.In? && (c.phase == Locks || c.phase == Holds)
       case Leave(_) => c.In? && c.phase == Leaves
  }

  ghost function Moved(a: Cells, p: nat, phase: Phase): Cells
    requires p < |a.clients| && a.clients[p].In?
  {
    a.(clients := a.clients[p := a.clients[p].(phase := phase)])
  }

  /** x becomes the contents of block b, on disk if it is written through, else pinned until it is. */
  ghost function Published(a: Cells, b: nat, x: Block, through: bool): Cells {
    if b >= |a.latest| || b >= |a.disk| then a
    else if through then a.(latest := a.latest[b := x], disk := a.disk[b := x], pins := a.pins - {b})
    else a.(latest := a.latest[b := x], pins := a.pins + {b})
  }

  ghost function Next(a: Cells, op: Op): Cells {
    if !Ready(a, op) then a
    else
      var c := a.clients[op.p];
      match op
      case Get(p, d, b) => a.(clients := a.clients[p := In(d, b, Waits)])
      case Take(p) => Moved(a, p, Locks)
      case Read(p) => Moved(a, p, Holds)
      case Change(p, x) => Moved(a, p, Changed(x))
      case Put(p, through) => Moved(Published(a, c.b, if c.phase.Changed? then c.phase.x else a.latest[c.b], through), p, Holds)
      case Untake(p) => Moved(a, p, Leaves)
      case Leave(p) => a.(clients := a.clients[p := Out])
  }

  ghost function Answer(a: Cells, op: Op): Result {
    if !Ready(a, op) then Skipped else if op.Read? then Saw(a.latest[a.clients[op.p].b]) else Did
  }

  ghost function After(a: Cells, ops: seq<Op>, k: nat): Cells
    requires k <= |ops|
    decreases k
  {
    if k == 0 then a else Next(After(a, ops, k - 1), ops[k - 1])
  }

  ghost function Answers(a: Cells, ops: seq<Op>, k: nat): seq<Result>
    requires k <= |ops|
    decreases k
  {
    if k == 0 then [] else Answers(a, ops, k - 1) + [Answer(After(a, ops, k - 1), ops[k - 1])]
  }

  // ---- Counting references --------------------------------------------------------------

  /** How many of the first k clients refer to buffer i; at says which buffer each has. */
  ghost function Refs(clients: seq<Client>, at: seq<nat>, i: nat, k: nat): nat
    requires k <= |clients| == |at|
    decreases k
  {
    if k == 0 then 0 else Refs(clients, at, i, k - 1) + if clients[k - 1].In? && at[k - 1] == i then 1 else 0
  }

  lemma {:induction false} RefsSet(clients: seq<Client>, at: seq<nat>, p: nat, c: Client, x: nat, i: nat, k: nat)
    requires k <= |clients| == |at| && p < |clients|
    ensures Refs(clients[p := c], at[p := x], i, k)
            + (if p < k && clients[p].In? && at[p] == i then 1 else 0)
            == Refs(clients, at, i, k) + (if p < k && c.In? && x == i then 1 else 0)
    decreases k
  {
    if k > 0 { RefsSet(clients, at, p, c, x, i, k - 1); }
  }

  lemma {:induction false} RefsOf(clients: seq<Client>, at: seq<nat>, i: nat, p: nat, k: nat)
    requires p < k <= |clients| == |at| && clients[p].In? && at[p] == i
    ensures Refs(clients, at, i, k) >= 1
    ensures forall q :: 0 <= q < k && q != p && clients[q].In? && at[q] == i ==> Refs(clients, at, i, k) >= 2
    decreases k
  {
    if p < k - 1 {
      RefsOf(clients, at, i, p, k - 1);
    } else {
      forall q | 0 <= q < k && q != p && clients[q].In? && at[q] == i ensures Refs(clients, at, i, k) >= 2 {
        RefsOf(clients, at, i, q, k - 1);
      }
    }
  }

  // ---- The cache shows the cells ----------------------------------------------------------

  /** Client p's buffer has the block it asked for; under its lock, with the contents it should have. */
  ghost predicate ClientAt(c: Cache, a: Cells, at: seq<nat>, holder: seq<int>, p: nat)
    requires c.Sizes() && |at| == |a.clients| && |holder| == c.n && p < |at|
    reads c
  {
    var k, i := a.clients[p], at[p];
    k.In? ==>
      && i < c.n && k.d != 0 && c.dev[i] == k.d && c.blockno[i] == k.b
      && (HoldsLock(k) <==> holder[i] == p)
      && (k.phase == Holds || k.phase.Changed? ==> c.valid[i] && k.b < |c.latest|)
      && (k.phase == Holds || (k.phase == Locks && c.valid[i]) ==> k.b < |c.latest| && c.data[i] == c.latest[k.b])
      && (k.phase.Changed? ==> c.data[i] == k.phase.x)
  }

  /** Buffer i has as many references as clients, and is locked iff a client that refers to it holds its lock. */
  ghost predicate BufferAt(c: Cache, a: Cells, at: seq<nat>, holder: seq<int>, i: nat)
    requires c.Sizes() && |at| == |a.clients| && |holder| == c.n && i < c.n
    reads c
  {
    && c.refcnt[i] == Refs(a.clients, at, i, |at|) && (c.locked[i] <==> holder[i] != -1)
    && (holder[i] != -1 ==> 0 <= holder[i] < |at| && a.clients[holder[i]].In? && at[holder[i]] == i)
  }

  ghost predicate Agrees(c: Cache, a: Cells)
    reads c`latest, c`disk, c`pin
  {
    c.latest == a.latest && c.disk == a.disk && c.pin.Keys == a.pins
  }

  ghost predicate Shows(c: Cache, a: Cells, at: seq<nat>, holder: seq<int>)
    reads c
  {
    && c.Valid() && Agrees(c, a) && |at| == |a.clients| && |holder| == c.n
    && (forall p: nat :: p < |at| ==> ClientAt(c, a, at, holder, p))
    && (forall i: nat :: i < c.n ==> BufferAt(c, a, at, holder, i))
  }

  method DoGet(c: Cache, p: nat, d: nat, b: nat, at: seq<nat>, ghost a: Cells, ghost holder: seq<int>)
    returns (ok: bool, at': seq<nat>)
    requires Shows(c, a, at, holder) && Ready(a, Get(p, d, b))
    modifies c`dev, c`blockno, c`refcnt, c`valid, c`dirty
    ensures !ok ==> |InUse(c.refcnt)| + |c.pin| >= c.n && Shows(c, a, at, holder)
    ensures ok ==> Shows(c, Next(a, Get(p, d, b)), at', holder)
  {
    at' := at;
    var r := c.Bget(d, b);
    ok := r.Buffer?;
    if !ok { return; }
    at' := at[p := r.i];
    ghost var a' := Next(a, Get(p, d, b));
    forall q: nat | q < |at'| ensures ClientAt(c, a', at', holder, q) {
      assert old(ClientAt(c, a, at, holder, q)) && old(BufferAt(c, a, at, holder, r.i));
      if a.clients[q].In? && at[q] == r.i { RefsOf(a.clients, at, r.i, q, |at|); }
    }
    forall i: nat | i < c.n ensures BufferAt(c, a', at', holder, i) {
      assert old(BufferAt(c, a, at, holder, i));
      RefsSet(a.clients, at, p, In(d, b, Waits), r.i, i, |at|);
    }
  }

  /** A change of phase changes no count. */
  lemma RefsMoved(a: Cells, at: seq<nat>, p: nat, phase: Phase, i: nat)
    requires p < |a.clients| == |at| && a.clients[p].In?
    ensures Refs(Moved(a, p, phase).clients, at, i, |at|) == Refs(a.clients, at, i, |at|)
  {
    RefsSet(a.clients, at, p, a.clients[p].(phase := phase), at[p], i, |at|);
    assert at[p := at[p]] == at;
  }

  /** The lock of p's buffer is free exactly if nobody has p's block locked: one block, one buffer. */
  lemma FreeIff(c: Cache, a: Cells, at: seq<nat>, holder: seq<int>, p: nat)
    requires Shows(c, a, at, holder) && p < |at| && a.clients[p].In? && a.clients[p].phase == Waits
    ensures at[p] < c.n && (Free(a.clients, p) <==> !c.locked[at[p]])
  {
    assert ClientAt(c, a, at, holder, p) && BufferAt(c, a, at, holder, at[p]);
    if c.locked[at[p]] {
      assert ClientAt(c, a, at, holder, holder[at[p]]);
    } else {
      forall q {:trigger a.clients[q]} | 0 <= q < |a.clients| && HoldsLock(a.clients[q])
        ensures !SameBlock(a.clients[p], a.clients[q])
      {
        assert ClientAt(c, a, at, holder, q);
        assert Differ(c.dev, c.blockno, at[p], at[q]);
      }
    }
  }

  /** acquiresleep, if it need not wait. */
  method DoTake(c: Cache, p: nat, at: seq<nat>, ghost a: Cells, ghost holder: seq<int>) returns (ghost holder': seq<int>)
    requires Shows(c, a, at, holder) && p < |at| && a.clients[p].In? && a.clients[p].phase == Waits && Free(a.clients, p)
    modifies c`locked
    ensures Shows(c, Moved(a, p, Locks), at, holder')
  {
    FreeIff(c, a, at, holder, p);
    assert ClientAt(c, a, at, holder, p) && BufferAt(c, a, at, holder, at[p]);
    RefsOf(a.clients, at, at[p], p, |at|);
    c.Lock(at[p]);
    holder' := holder[at[p] := p];
    ghost var a' := Moved(a, p, Locks);
    forall q: nat | q < |at| ensures ClientAt(c, a', at, holder', q) { assert old(ClientAt(c, a, at, holder, q)); }
    forall i: nat | i < c.n ensures BufferAt(c, a', at, holder', i) {
      assert old(BufferAt(c, a, at, holder, i));
      RefsMoved(a, at, p, Locks, i);
    }
  }

  /** The rest of bread: the client sees the last contents, or the device panics. */
  method DoRead(c: Cache, p: nat, at: seq<nat>, ghost a: Cells, ghost holder: seq<int>) returns (ok: bool, x: Block)
    requires Shows(c, a, at, holder) && p < |at| && a.clients[p].In? && a.clients[p].phase == Locks
    modifies c`valid, c`data
    ensures ok <==> Ready(a, Read(p))
    ensures if ok then Shows(c, Moved(a, p, Holds), at, holder) && x == a.latest[a.clients[p].b] else Shows(c, a, at, holder)
  {
    assert ClientAt(c, a, at, holder, p) && BufferAt(c, a, at, holder, at[p]);
    ok := c.Fill(at[p]);
    x := c.data[at[p]];
    ghost var a' := if ok then Moved(a, p, Holds) else a;
    forall q: nat | q < |at| ensures ClientAt(c, a', at, holder, q) { assert old(ClientAt(c, a, at, holder, q)); }
    forall i: nat | i < c.n ensures BufferAt(c, a', at, holder, i) {
      assert old(BufferAt(c, a, at, holder, i));
      RefsMoved(a, at, p, Holds, i);
    }
  }

  method DoChange(c: Cache, p: nat, x: Block, at: seq<nat>, ghost a: Cells, ghost holder: seq<int>)
    requires Shows(c, a, at, holder) && Ready(a, Change(p, x))
    modifies c`data
    ensures Shows(c, Moved(a, p, Changed(x)), at, holder)
  {
    assert ClientAt(c, a, at, holder, p) && BufferAt(c, a, at, holder, at[p]);
    c.Modify(at[p], x);
    ghost var a' := Moved(a, p, Changed(x));
    forall q: nat | q < |at| ensures ClientAt(c, a', at, holder, q) { assert old(ClientAt(c, a, at, holder, q)); }
    forall i: nat | i < c.n ensures BufferAt(c, a', at, holder, i) {
      assert old(BufferAt(c, a, at, holder, i));
      RefsMoved(a, at, p, Changed(x), i);
    }
  }

  method Publish(c: Cache, i: nat, through: bool)
    requires c.Valid() && i < c.n && c.locked[i] && c.valid[i]
    modifies c`dirty, c`disk, c`pin, c`latest
    ensures c.Valid() && c.latest == old(c.latest)[c.blockno[i] := c.data[i]]
    ensures c.disk == if through then old(c.disk)[c.blockno[i] := c.data[i]] else old(c.disk)
    ensures c.pin.Keys == if through then old(c.pin).Keys - {c.blockno[i]} else old(c.pin).Keys + {c.blockno[i]}
  {
    if through { var ok := c.Bwrite(i); } else { c.MarkDirty(i); }
  }

  /** log_write, or bwrite: what the client has put in its buffer becomes the block's contents. */
  method DoPut(c: Cache, p: nat, through: bool, at: seq<nat>, ghost a: Cells, ghost holder: seq<int>)
    requires Shows(c, a, at, holder) && Ready(a, Put(p, through))
    modifies c`dirty, c`disk, c`pin, c`latest
    ensures Shows(c, Next(a, Put(p, through)), at, holder)
  {
    assert ClientAt(c, a, at, holder, p) && BufferAt(c, a, at, holder, at[p]);
    c.OnlyCopy(at[p]);
    Publish(c, at[p], through);
    ghost var a' := Next(a, Put(p, through));
    assert Agrees(c, a');
    forall q: nat | q < |at| ensures ClientAt(c, a', at, holder, q) { assert old(ClientAt(c, a, at, holder, q)); }
    forall i: nat | i < c.n ensures BufferAt(c, a', at, holder, i) {
      assert old(BufferAt(c, a, at, holder, i));
      RefsMoved(a, at, p, Holds, i);
    }
  }

  /** The first stretch of brelse. */
  method DoUntake(c: Cache, p: nat, at: seq<nat>, ghost a: Cells, ghost holder: seq<int>) returns (ghost holder': seq<int>)
    requires Shows(c, a, at, holder) && Ready(a, Untake(p))
    modifies c`locked
    ensures Shows(c, Moved(a, p, Leaves), at, holder')
  {
    assert ClientAt(c, a, at, holder, p) && BufferAt(c, a, at, holder, at[p]);
    var ok := c.Unlock(at[p]);
    holder' := holder[at[p] := -1];
    ghost var a' := Moved(a, p, Leaves);
    forall q: nat | q < |at| ensures ClientAt(c, a', at, holder', q) { assert old(ClientAt(c, a, at, holder, q)); }
    forall i: nat | i < c.n ensures BufferAt(c, a', at, holder', i) {
      assert old(BufferAt(c, a, at, holder, i));
      RefsMoved(a, at, p, Leaves, i);
    }
  }

  method DropRef(c: Cache, i: nat)
    requires c.Valid() && i < c.n && c.refcnt[i] >= if c.locked[i] then 2 else 1
    modifies c`refcnt, c`next, c`prev, c`L, c`pos, c`stamp, c`clock
    ensures c.Valid() && c.refcnt == old(c.refcnt)[i := old(c.refcnt)[i] - 1]
  {
    c.Drop(i);
  }

  /** The second. */
  method DoLeave(c: Cache, p: nat, at: seq<nat>, ghost a: Cells, ghost holder: seq<int>)
    requires Shows(c, a, at, holder) && Ready(a, Leave(p))
    modifies c`refcnt, c`next, c`prev, c`L, c`pos, c`stamp, c`clock
    ensures Shows(c, Next(a, Leave(p)), at, holder)
  {
    assert ClientAt(c, a, at, holder, p) && BufferAt(c, a, at, holder, at[p]);
    RefsOf(a.clients, at, at[p], p, |at|);
    if c.locked[at[p]] { assert ClientAt(c, a, at, holder, holder[at[p]]); }
    DropRef(c, at[p]);
    ghost var a' := Next(a, Leave(p));
    forall q: nat | q < |at| ensures ClientAt(c, a', at, holder, q) { assert old(ClientAt(c, a, at, holder, q)); }
    forall i: nat | i < c.n ensures BufferAt(c, a', at, holder, i) {
      assert old(BufferAt(c, a, at, holder, i));
      RefsSet(a.clients, at, p, Out, at[p], i, |at|);
      assert at[p := at[p]] == at;
    }
  }

  // ---- Every run ---------------------------------------------------------------------------

  /** A client reads a block of another device, or past the end of the disk: iderw panics. */
  ghost predicate BadRead(a: Cells, op: Op) {
    && op.Read? && op.p < |a.clients|
    && var c := a.clients[op.p]; c.In? && c.phase == Locks && !(c.d == ROOTDEV && c.b < |a.latest|)
  }

  datatype Panic = None | NoBuffers | BadBlock

  /** The call is answered, and the cache shows what it makes of the cells. */
  ghost predicate Answered(c: Cache, a: Cells, op: Op, r: Result, at: seq<nat>, holder: seq<int>)
    reads c
  {
    Shows(c, Next(a, op), at, holder) && r == Answer(a, op)
  }

  /** bread, by the client at k: bget, acquiresleep and the rest. */
  method DoBread(c: Cache, op: Op, k: Client, at: seq<nat>, ghost a: Cells, ghost holder: seq<int>)
    returns (r: Result, panic: Panic, at': seq<nat>, ghost holder': seq<int>)
    requires Shows(c, a, at, holder) && op.p < |at| && k == a.clients[op.p] && (op.Get? || op.Take? || op.Read?)
    modifies c`dev, c`blockno, c`refcnt, c`valid, c`dirty, c`locked, c`data
    ensures panic == BadBlock <==> BadRead(a, op)
    ensures panic == NoBuffers ==> op.Get? && Ready(a, op) && |InUse(c.refcnt)| + |c.pin| >= c.n
    ensures if panic == None then Answered(c, a, op, r, at', holder') else Shows(c, a, at, holder)
  {
    r, panic, at', holder' := Skipped, None, at, holder;
    match op
    case Get(p, d, b) =>
      if k.Out? && d != 0 {
        var ok;
        ok, at' := DoGet(c, p, d, b, at, a, holder);
        r, panic := Did, if ok then None else NoBuffers;
      }
    case Take(p) =>
      if k.In? && k.phase == Waits {
        FreeIff(c, a, at, holder, p);
        if !c.locked[at[p]] {
          holder' := DoTake(c, p, at, a, holder);
          r := Did;
        }
      }
    case Read(p) =>
      if k.In? && k.phase == Locks {
        var ok, x := DoRead(c, p, at, a, holder);
        r, panic := Saw(x), if ok then None else BadBlock;
      }
  }

  /** What a client does with a block it has, and brelse. */
  method DoUse(c: Cache, op: Op, k: Client, at: seq<nat>, ghost a: Cells, ghost holder: seq<int>)
    returns (r: Result, ghost holder': seq<int>)
    requires Shows(c, a, at, holder) && op.p < |at| && k == a.clients[op.p] && !(op.Get? || op.Take? || op.Read?)
    modifies c`data, c`dirty, c`disk, c`pin, c`latest, c`locked, c`refcnt, c`next, c`prev, c`L, c`pos, c`stamp, c`clock
    ensures Answered(c, a, op, r, at, holder')
  {
    r, holder' := Skipped, holder;
    match op
    case Change(p, x) =>
      if k.In? && (k.phase == Holds || k.phase.Changed?) {
        DoChange(c, p, x, at, a, holder);
        r := Did;
      }
    case Put(p, through) =>
      if k.In? && (k.phase == Holds || k.phase.Changed?) {
        assert ClientAt(c, a, at, holder, p);
        DoPut(c, p, through, at, a, holder);
        r := Did;
      }
    case Untake(p) =>
      if k.In? && (k.phase == Locks || k.phase == Holds) {
        holder' := DoUntake(c, p, at, a, holder);
        r := Did;
      }
    case Leave(p) =>
      if k.In? && k.phase == Leaves {
        DoLeave(c, p, at, a, holder);
        r := Did;
      }
  }

  /** Any call; clients are the phases the clients know themselves to be in. */
  method Do(c: Cache, op: Op, clients: seq<Client>, at: seq<nat>, ghost a: Cells, ghost holder: seq<int>)
    returns (r: Result, panic: Panic, at': seq<nat>, ghost holder': seq<int>)
    requires Shows(c, a, at, holder) && clients == a.clients
    modifies c
    ensures panic == BadBlock <==> BadRead(a, op)
    ensures panic == NoBuffers ==> op.Get? && Ready(a, op) && |InUse(c.refcnt)| + |c.pin| >= c.n
    ensures if panic == None then Answered(c, a, op, r, at', holder') else Shows(c, a, at, holder)
  {
    r, panic, at', holder' := Skipped, None, at, holder;
    if op.p >= |clients| { return; }
    if op.Get? || op.Take? || op.Read? {
      r, panic, at', holder' := DoBread(c, op, clients[op.p], at, a, holder);
    } else {
      r, holder' := DoUse(c, op, clients[op.p], at, a, holder);
    }
  }

  /** What client k knows of itself after a call. */
  function Told(k: Client, op: Op, r: Result): Client {
    if r == Skipped then k
    else
      match op
      case Get(_, d, b) => In(d, b, Waits)
      case Take(_) => if k.In? then k.(phase := Locks) else k
      case Read(_) => if k.In? then k.(phase := Holds) else k
      case Change(_, x) => if k.In? then k.(phase := Changed(x)) else k
      case Put(_, _) => if k.In? then k.(phase := Holds) else k
      case Untake(_) => if k.In? then k.(phase := Leaves) else k
      case Leave(_) => Out
  }

  lemma ToldIsNext(a: Cells, op: Op)
    ensures Next(a, op).clients
            == if op.p < |a.clients| then a.clients[op.p := Told(a.clients[op.p], op, Answer(a, op))] else a.clients
  {
  }

  /** Nobody has a block yet. */
  function Start(n: nat, image: Image): Cells {
    Cells(seq(n, i => Out), image, image, {})
  }

  /** k calls have led from a to e with these results, and no read was bad. */
  ghost predicate Along(a: Cells, ops: seq<Op>, k: nat, e: Cells, results: seq<Result>) {
    && k <= |ops| && e == After(a, ops, k) && results == Answers(a, ops, k)
    && (forall j: nat :: j < k ==> GoodAt(a, ops, j))
  }

  ghost predicate GoodAt(a: Cells, ops: seq<Op>, j: nat)
    requires j < |ops|
  {
    !BadRead(After(a, ops, j), ops[j])
  }

  lemma AlongMore(a: Cells, ops: seq<Op>, k: nat, e: Cells, results: seq<Result>)
    requires Along(a, ops, k, e, results) && k < |ops| && !BadRead(e, ops[k])
    ensures Along(a, ops, k + 1, Next(e, ops[k]), results + [Answer(e, ops[k])])
  {
  }

  /**
   * Every interleaving of any number of clients over a cache of any number of buffers: the calls are answered as by
   * cells, and the contents last logged or written are the cells'.  The run ends early only at a bget that finds
   * every buffer referenced or dirty, or at a read that no disk could serve.
   */
  method Run(nbuf: nat, image: Image, zero: Block, n: nat, ops: seq<Op>)
    returns (c: Cache, results: seq<Result>, done: nat, panic: Panic, ghost a: Cells)
    ensures c.n == nbuf && c.Valid() && c.latest == a.latest && c.disk == a.disk && c.pin.Keys == a.pins
    ensures Along(Start(n, image), ops, done, a, results) && (panic == None <==> done == |ops|)
    ensures panic == BadBlock <==> done < |ops| && BadRead(a, ops[done])
    ensures panic == NoBuffers ==> ops[done].Get? && |InUse(c.refcnt)| + |c.pin| >= nbuf
  {
    c := new Cache(nbuf, image, zero);
    a := Start(n, image);
    var clients: seq<Client>, at: seq<nat> := Start(n, image).clients, seq(n, i => 0);
    ghost var holder := seq(nbuf, i => -1);
    Unused(c, a, at, holder);
    results, done, panic := [], 0, None;
    while done < |ops|
      invariant fresh(c) && c.n == nbuf && Shows(c, a, at, holder) && clients == a.clients && panic == None
      invariant Along(Start(n, image), ops, done, a, results)
    {
      var r;
      ghost var e := a;
      r, panic, clients, at, a, holder := Step(c, ops[done], clients, at, a, holder);
      if panic != None { return; }
      AlongMore(Start(n, image), ops, done, e, results);
      results, done := results + [r], done + 1;
    }
  }

  /** A call, and what its client makes of the answer. */
  method Step(c: Cache, op: Op, clients: seq<Client>, at: seq<nat>, ghost a: Cells, ghost holder: seq<int>)
    returns (r: Result, panic: Panic, clients': seq<Client>, at': seq<nat>, ghost a': Cells, ghost holder': seq<int>)
    requires Shows(c, a, at, holder) && clients == a.clients
    modifies c
    ensures Shows(c, a', at', holder') && clients' == a'.clients
    ensures panic == BadBlock <==> BadRead(a, op)
    ensures panic == NoBuffers ==> op.Get? && |InUse(c.refcnt)| + |c.pin| >= c.n
    ensures if panic == None then a' == Next(a, op) && r == Answer(a, op) else a' == a
  {
    clients', a' := clients, a;
    r, panic, at', holder' := Do(c, op, clients, at, a, holder);
    if panic != None {
      at', holder' := at, holder;
      return;
    }
    ToldIsNext(a, op);
    if op.p < |clients| { clients' := clients[op.p := Told(clients[op.p], op, r)]; }
    a' := Next(a, op);
  }

  lemma Unused(c: Cache, a: Cells, at: seq<nat>, holder: seq<int>)
    requires c.Valid() && Agrees(c, a) && |at| == |a.clients| && |holder| == c.n
    requires forall p :: 0 <= p < |a.clients| ==> a.clients[p] == Out
    requires forall i :: 0 <= i < c.n ==> holder[i] == -1 && c.refcnt[i] == 0 && !c.locked[i]
    ensures Shows(c, a, at, holder)
  {
    forall i: nat | i < c.n ensures BufferAt(c, a, at, holder, i) { RefsNone(a.clients, at, i, |at|); }
  }

  lemma {:induction false} RefsNone(clients: seq<Client>, at: seq<nat>, i: nat, k: nat)
    requires k <= |clients| == |at| && forall p :: 0 <= p < |clients| ==> clients[p] == Out
    ensures Refs(clients, at, i, k) == 0
    decreases k
  {
    if k > 0 { RefsNone(clients, at, i, k - 1); }
  }

  ghost predicate Exclusive(clients: seq<Client>) {
    forall p, q {:trigger clients[p], clients[q]} :: 0 <= p < q < |clients| && HoldsLock(clients[p]) && HoldsLock(clients[q]) ==>
      !SameBlock(clients[p], clients[q])
  }

  /** So no two clients are ever between bread and brelse of one block. */
  lemma {:induction false} OneHolder(a: Cells, ops: seq<Op>, k: nat)
    requires Exclusive(a.clients) && k <= |ops|
    ensures Exclusive(After(a, ops, k).clients)
    decreases k
  {
    if k > 0 {
      OneHolder(a, ops, k - 1);
      ToldIsNext(After(a, ops, k - 1), ops[k - 1]);
    }
  }
}
