/**
 * The log's code is a run of the protocol: whatever begin_op, log_write and end_op the
 * processes call, in whatever order, the in-memory log, the cache and the disk are those of
 * a state that the protocol reaches, so that what holds over the protocol's runs holds of
 * the code.  end_op with its commit is one call here and many steps there.
 */
module LogRefinement {
  import opened Disk
  import opened LogSpec
  import opened LogProtocol
  import opened Reservation
  import Log

  /** The code's state is the protocol's. */
  ghost predicate Shows(log: Log.Log, c: Config, s: State)
    reads log, log.block
  {
    && log.Valid() && log.layout == c.l && log.disk == s.disk && log.pinned == s.pinned && log.Logged() == s.lh
    && log.outstanding == s.outstanding && log.committing == s.committing
  }

  // ---- One call, one step ------------------------------------------------------------

  method BeginOp(log: Log.Log, ghost c: Config, ghost s: State, ghost p: nat) returns (ok: bool, ghost t: State)
    requires Shows(log, c, s) && p < |s.procs| && s.procs[p] == Idle && s.mode != Recovering
    modifies log`outstanding
    ensures ok ==> Begin(c, s, t, p) && Shows(log, c, t)
    ensures !ok ==> Shows(log, c, s)
    ensures ok <==> MayBegin(s, p)
  {
    ok := log.TryBeginOp();
    t := s.(outstanding := s.outstanding + 1, procs := s.procs[p := InOp(s.nextId, 0)], nextId := s.nextId + 1);
  }

  method LogWriteOp(log: Log.Log, b: nat, data: Block, ghost c: Config, ghost s: State, ghost p: nat)
    returns (r: Log.Outcome, ghost t: State)
    requires Shows(log, c, s) && MayWrite(c, s, p, b) && |s.now| == |s.disk|
    modifies log`n, log`pinned, log.block
    ensures r == Log.Done ==> LogWrite(c, s, t, p, b, data) && Shows(log, c, t)
    ensures r != Log.Done <==> LogWritePanics(c, s)
  {
    r := log.LogWrite(b, data);
    t := s.(lh := Log.Absorb(s.lh, b), pinned := s.pinned[b := data],
            procs := s.procs[p := InOp(s.procs[p].id, s.procs[p].used + if b in s.lh then 0 else 1)],
            hist := s.hist + [Write(b, data)], ops := s.ops + [s.procs[p].id], now := s.now[b := data]);
  }

  // ---- A commit ------------------------------------------------------------------------

  /** What stays pinned after k writes. */
  ghost function Cleared(p: Pins, ws: seq<Write>, k: nat): Pins
    requires k <= |ws|
  {
    if k == 0 then p else Unpin(Cleared(p, ws, k - 1), ws[k - 1].blockno)
  }

  lemma {:induction false} ClearedKeys(p: Pins, ws: seq<Write>, k: nat)
    requires k <= |ws|
    ensures Cleared(p, ws, k).Keys <= p.Keys && forall i {:trigger ws[i]} :: 0 <= i < k ==> ws[i].blockno !in Cleared(p, ws, k)
  {
    if k > 0 { ClearedKeys(p, ws, k - 1); }
  }

  /** State e, where a commit starts, after k of its writes. */
  ghost function After(e: State, k: nat): State
    requires Fits(e.base, e.ws) && k <= |e.ws|
  {
    var d := k > |e.bs|;
    e.(disk := Apply(e.base, e.ws, k), pinned := Cleared(e.pinned, e.ws, k), k := k,
       durable := if d then |e.hist| else e.durable, cut := if d then e.nextId else e.cut,
       kept := if d then e.now else e.kept)
  }

  ghost predicate DiskIn(ss: seq<State>, d: Image) {
    exists i {:trigger ss[i]} :: 0 <= i < |ss| && ss[i].disk == d
  }

  /** The states ss pass through every disk that the writes ws make of d, one write at a time, and end with the last. */
  ghost predicate Passes(ss: seq<State>, d: Image, ws: seq<Write>) {
    && Fits(d, ws) && |ss| > 0 && ss[|ss| - 1].disk == Apply(d, ws, |ws|)
    && forall k: nat :: k <= |ws| ==> DiskIn(ss, Apply(d, ws, k))
  }

  lemma PassesNone(ss: seq<State>, d: Image)
    requires |ss| > 0 && ss[|ss| - 1].disk == d
    ensures Passes(ss, d, [])
  {
    assert DiskIn(ss, Apply(d, [], 0)) by { assert ss[|ss| - 1].disk == d; }
  }

  lemma PassesMore(ss: seq<State>, tt: seq<State>, d: Image, ws: seq<Write>, vs: seq<Write>)
    requires Passes(ss, d, ws) && Passes(tt, ss[|ss| - 1].disk, vs) && tt[0] == ss[|ss| - 1]
    ensures Passes(ss + tt[1..], d, ws + vs)
  {
    var uu, e := ss + tt[1..], Apply(d, ws, |ws|);
    ApplyMore(d, ws, vs, |vs|);
    assert uu[|uu| - 1] == tt[|tt| - 1];
    forall k: nat | k <= |ws + vs| ensures DiskIn(uu, Apply(d, ws + vs, k)) {
      if k <= |ws| {
        ApplyAgree(d, ws + vs, ws, k);
        assert DiskIn(ss, Apply(d, ws, k));
        var i :| 0 <= i < |ss| && ss[i].disk == Apply(d, ws, k);
        assert uu[i] == ss[i];
      } else {
        ApplyMore(d, ws, vs, k - |ws|);
        assert DiskIn(tt, Apply(e, vs, k - |ws|));
        var i :| 0 <= i < |tt| && tt[i].disk == Apply(e, vs, k - |ws|);
        assert uu[|ss| - 1 + i] == tt[i];
      }
    }
  }

  lemma PassesFirst(s: State, ss: seq<State>, d: Image, ws: seq<Write>)
    requires Passes(ss, d, ws)
    ensures Passes([s] + ss, d, ws)
  {
    forall k: nat | k <= |ws| ensures DiskIn([s] + ss, Apply(d, ws, k)) {
      assert DiskIn(ss, Apply(d, ws, k));
      var i :| 0 <= i < |ss| && ss[i].disk == Apply(d, ws, k);
      assert ([s] + ss)[1 + i] == ss[i];
    }
  }

  lemma AfterNext(c: Config, e: State, k: nat)
    requires e.mode == Committing && Fits(e.base, e.ws) && k < |e.ws|
    ensures CommitWrite(c, After(e, k), After(e, k + 1))
  {
  }

  /** The writes of a commit as steps of the protocol. */
  lemma CommitWriteSteps(c: Config, e: State) returns (ss: seq<State>, steps: seq<Step>)
    requires e.mode == Committing && e.k == 0 && e.disk == e.base && Fits(e.base, e.ws)
    ensures Joined(c, ss, steps) && ss[0] == e && |ss| == |e.ws| + 1
    ensures forall i :: 0 <= i < |steps| ==> steps[i] == CommitWriteStep
    ensures forall k {:trigger ss[k]} :: 0 <= k <= |e.ws| ==> ss[k] == After(e, k)
  {
    ss, steps := [After(e, 0)], [];
    for k := 0 to |e.ws|
      invariant Joined(c, ss, steps) && ss[0] == e && |ss| == k + 1
      invariant forall i :: 0 <= i < |steps| ==> steps[i] == CommitWriteStep
      invariant forall j {:trigger ss[j]} :: 0 <= j <= k ==> ss[j] == After(e, j)
    {
      AfterNext(c, e, k);
      JoinedMore(c, ss, steps, CommitWriteStep, After(e, k + 1));
      ss, steps := ss + [After(e, k + 1)], steps + [CommitWriteStep];
    }
  }

  /** A commit as steps of the protocol, to its end. */
  lemma CommitSteps(c: Config, e: State) returns (ss: seq<State>, steps: seq<Step>)
    requires e.mode == Committing && e.k == 0 && e.disk == e.base && Fits(e.base, e.ws)
    ensures Joined(c, ss, steps) && ss[0] == e
    ensures forall i :: 0 <= i < |steps| ==> steps[i] == CommitWriteStep || steps[i] == CommitDoneStep
    ensures Passes(ss, e.base, e.ws)
    ensures var t := ss[|ss| - 1];
            && t.mode == Running && !t.committing && t.lh == [] && t.outstanding == e.outstanding
            && t.procs == e.procs && t.nextId == e.nextId
            && t.disk == Apply(e.base, e.ws, |e.ws|) && t.pinned == Cleared(e.pinned, e.ws, |e.ws|)
  {
    ss, steps := CommitWriteSteps(c, e);
    var t := After(e, |e.ws|).(mode := Running, committing := false, lh := []);
    JoinedMore(c, ss, steps, CommitDoneStep, t);
    ss, steps := ss + [t], steps + [CommitDoneStep];
    forall k: nat | k <= |e.ws| ensures DiskIn(ss, Apply(e.base, e.ws, k)) { assert ss[k].disk == Apply(e.base, e.ws, k); }
  }

  /** The state in which the last end_op leaves the commit to do. */
  ghost function Ended(s: State, p: nat, data: seq<Block>, ws: seq<Write>): State
    requires p < |s.procs|
  {
    s.(outstanding := s.outstanding - 1, procs := s.procs[p := Idle], committing := true, mode := Committing,
       base := s.disk, bs := s.lh, data := data, ws := ws, k := 0)
  }

  lemma EndPlans(c: Config, s: State, p: nat, data: seq<Block>, ws: seq<Write>)
    requires MayEnd(s, p) && !s.committing && s.outstanding == 1
    requires if s.lh == [] then data == [] && ws == [] else Log.Commits(c.l, s.disk, s.pinned, s.lh, data, ws)
    ensures End(c, s, Ended(s, p, data, ws), p) && Fits(s.disk, ws)
  {
    var t := Ended(s, p, data, ws);
    forall i | 0 <= i < |t.bs| ensures t.bs[i] < |t.disk| && t.data[i] == View(t.disk, t.pinned, t.bs[i]) {
      assert t.data[i] == data[i];
    }
  }

  /** Every logged block is written home, so that none stays pinned. */
  lemma NonePinned(c: Config, d: Image, p: Pins, bs: seq<nat>, data: seq<Block>, ws: seq<Write>)
    requires Log.Commits(c.l, d, p, bs, data, ws) && forall b :: b in p ==> b in bs
    ensures Cleared(p, ws, |ws|) == map[]
  {
    ClearedKeys(p, ws, |ws|);
    forall b | b in p ensures b !in Cleared(p, ws, |ws|) {
      var i :| 0 <= i < |bs| && bs[i] == b;
      assert ws[|bs| + 1 + i].blockno == b;
    }
  }

  /** The last end_op and its commit, to the end. */
  lemma LastEnd(c: Config, s: State, p: nat, data: seq<Block>, ws: seq<Write>) returns (ss: seq<State>, steps: seq<Step>)
    requires MayEnd(s, p) && !s.committing && s.outstanding == 1 && forall b :: b in s.pinned ==> b in s.lh
    requires if s.lh == [] then data == [] && ws == [] else Log.Commits(c.l, s.disk, s.pinned, s.lh, data, ws)
    ensures Ending(c, s, p, ss, steps) && Passes(ss, s.disk, ws)
    ensures var t := ss[|ss| - 1]; !t.committing && t.lh == [] && t.outstanding == 0 && t.pinned == map[]
  {
    EndPlans(c, s, p, data, ws);
    ss, steps := CommitSteps(c, Ended(s, p, data, ws));
    JoinedFirst(c, s, EndStep(p), ss, steps);
    if s.lh != [] { NonePinned(c, s.disk, s.pinned, s.lh, data, ws); }
    PassesFirst(s, ss, s.disk, ws);
    ss, steps := [s] + ss, [EndStep(p)] + steps;
  }

  ghost predicate CommitOnly(qs: seq<Step>) {
    forall i {:trigger qs[i]} :: 0 < i < |qs| ==> qs[i] == CommitWriteStep || qs[i] == CommitDoneStep
  }

  /** From s, process p ends its operation, with or without a commit, and the system runs on. */
  ghost predicate Ending(c: Config, s: State, p: nat, ss: seq<State>, steps: seq<Step>) {
    && Joined(c, ss, steps) && ss[0] == s && |steps| > 0 && steps[0] == EndStep(p) && CommitOnly(steps)
    && p < |s.procs| && ss[|ss| - 1].mode == Running
    && ss[|ss| - 1].procs == s.procs[p := Idle] && ss[|ss| - 1].nextId == s.nextId
  }

  method EndOp(log: Log.Log, ghost c: Config, ghost s: State, ghost p: nat)
    returns (r: Log.Outcome, ghost ss: seq<State>, ghost steps: seq<Step>, ghost ws: seq<Write>)
    requires Shows(log, c, s) && MayEnd(s, p) && s.mode == Running
    modifies log`n, log`disk, log`pinned, log`trace, log`outstanding, log`committing
    ensures r != Log.Done <==> s.committing
    ensures r == Log.Done ==> Ending(c, s, p, ss, steps) && Shows(log, c, ss[|ss| - 1])
    ensures r == Log.Done ==> Passes(ss, s.disk, ws) && log.trace == old(log.trace) + ws
  {
    ghost var data;
    r, data, ws := log.EndOp();
    ss, steps := [s], [];
    if r != Log.Done { return; }
    if log.outstanding != 0 {
      ghost var t := s.(outstanding := s.outstanding - 1, procs := s.procs[p := Idle]);
      ss, steps, ws := [s, t], [EndStep(p)], [];
      PassesNone(ss, s.disk);
    } else {
      if s.lh == [] { data, ws := [], []; }
      ss, steps := LastEnd(c, s, p, data, ws);
    }
  }

  lemma JoinedFirst(c: Config, s: State, step: Step, ss: seq<State>, steps: seq<Step>)
    requires Joined(c, ss, steps) && Next(c, s, step, ss[0])
    ensures Joined(c, [s] + ss, [step] + steps)
  {
    var tt, qs := [s] + ss, [step] + steps;
    forall i {:trigger qs[i]} | 0 <= i < |qs| ensures Next(c, tt[i], qs[i], tt[i + 1]) {
      if i > 0 { assert Next(c, ss[i - 1], steps[i - 1], ss[i]); }
    }
  }

  lemma JoinedTwo(c: Config, ss: seq<State>, steps: seq<Step>, tt: seq<State>, qs: seq<Step>)
    requires Joined(c, ss, steps) && Joined(c, tt, qs) && ss[|ss| - 1] == tt[0]
    ensures Joined(c, ss + tt[1..], steps + qs)
  {
    var uu, rs := ss + tt[1..], steps + qs;
    forall i {:trigger rs[i]} | 0 <= i < |rs| ensures Next(c, uu[i], rs[i], uu[i + 1]) {
      if i < |steps| {
        assert Next(c, ss[i], steps[i], ss[i + 1]);
      } else {
        var j := i - |steps|;
        assert uu[i] == tt[j] && uu[i + 1] == tt[j + 1];
        assert Next(c, tt[j], qs[j], tt[j + 1]);
      }
    }
  }

  // ---- Every run -----------------------------------------------------------------------

  datatype Op = CallBegin(p: nat) | CallWrite(p: nat, b: nat, data: Block) | CallEnd(p: nat)

  /** The steps of the protocol that a call makes from state s: its own, and after end_op perhaps a whole commit. */
  ghost predicate Answers(c: Config, s: State, op: Op, qs: seq<Step>) {
    match op
    case CallBegin(p) => qs == if MayBegin(s, p) then [BeginStep(p)] else []
    case CallWrite(p, b, data) => qs == if MayWrite(c, s, p, b) then [LogWriteStep(p, b, data)] else []
    case CallEnd(p) => if MayEnd(s, p) then qs != [] && qs[0] == EndStep(p) && CommitOnly(qs) else qs == []
  }

  /** The first k calls are answered, call i by the steps from at[i] to at[i + 1]. */
  ghost predicate Answered(c: Config, ss: seq<State>, steps: seq<Step>, ops: seq<Op>, at: seq<nat>, k: nat) {
    && |ss| == |steps| + 1 && |at| == k + 1 && k <= |ops| && at[0] == 0 && at[k] == |steps|
    && forall i: nat :: i < k ==> AnsweredAt(c, ss, steps, ops, at, i)
  }

  ghost predicate AnsweredAt(c: Config, ss: seq<State>, steps: seq<Step>, ops: seq<Op>, at: seq<nat>, i: nat) {
    && i < |ops| && i + 1 < |at| && at[i] <= at[i + 1] <= |steps| < |ss|
    && Answers(c, ss[at[i]], ops[i], steps[at[i]..at[i + 1]])
  }

  lemma AnsweredMore(c: Config, ss: seq<State>, steps: seq<Step>, ops: seq<Op>, at: seq<nat>, k: nat, tt: seq<State>,
                     qs: seq<Step>)
    requires Answered(c, ss, steps, ops, at, k) && k < |ops| && |tt| == |qs| + 1 && tt[0] == ss[|ss| - 1]
    requires Answers(c, tt[0], ops[k], qs)
    ensures Answered(c, ss + tt[1..], steps + qs, ops, at + [|steps| + |qs|], k + 1)
  {
    var ss', steps', at' := ss + tt[1..], steps + qs, at + [|steps| + |qs|];
    forall i: nat | i < k + 1 ensures AnsweredAt(c, ss', steps', ops, at', i) {
      if i < k {
        assert AnsweredAt(c, ss, steps, ops, at, i);
        assert steps'[at'[i]..at'[i + 1]] == steps[at[i]..at[i + 1]];
      } else {
        assert steps'[at'[i]..at'[i + 1]] == qs;
      }
    }
  }

  /** The code's state is s, with the given processes, and no commit is under way. */
  ghost predicate Reached(log: Log.Log, c: Config, s: State, procs: seq<Proc>, nextId: nat)
    reads log, log.block
  {
    Shows(log, c, s) && s.mode == Running && s.procs == procs && s.nextId == nextId
  }

  /** The run ends where log_write panics. */
  ghost predicate PanicsAt(c: Config, ss: seq<State>, steps: seq<Step>, i: nat) {
    exists p: nat, b: nat :: PanicAt(c, ss, steps, i, p, b)
  }

  lemma Sane(c: Config, ss: seq<State>, steps: seq<Step>, i: nat)
    requires Run(c, ss, steps) && i < |ss| && ss[i].mode == Running
    ensures |ss[i].now| == |ss[i].disk| && !ss[i].committing
  {
    InvHolds(c, ss, steps, i);
  }

  /** The states and steps of one call. */
  ghost predicate Made(c: Config, s: State, op: Op, tt: seq<State>, qs: seq<Step>) {
    Joined(c, tt, qs) && tt[0] == s && Answers(c, s, op, qs)
  }

  method Begins(log: Log.Log, p: nat, procs: seq<Proc>, nextId: nat, ghost c: Config, ghost s: State)
    returns (after: seq<Proc>, next: nat, ghost tt: seq<State>, ghost qs: seq<Step>)
    requires Reached(log, c, s, procs, nextId)
    modifies log`outstanding
    ensures Made(c, s, CallBegin(p), tt, qs) && Reached(log, c, tt[|tt| - 1], after, next)
  {
    after, next, tt, qs := procs, nextId, [s], [];
    if p < |procs| && procs[p] == Idle {
      ghost var t;
      var ok: bool;
      ok, t := BeginOp(log, c, s, p);
      if ok { after, next, tt, qs := procs[p := InOp(nextId, 0)], nextId + 1, [s, t], [BeginStep(p)]; }
    }
  }

  method Writes(log: Log.Log, p: nat, b: nat, data: Block, maxOp: nat, procs: seq<Proc>, nextId: nat, ghost c: Config,
                ghost s: State)
    returns (panic: bool, after: seq<Proc>, ghost tt: seq<State>, ghost qs: seq<Step>)
    requires Reached(log, c, s, procs, nextId) && c.maxOp == maxOp && |s.now| == |s.disk|
    modifies log`n, log`pinned, log.block
    ensures panic <==> MayWrite(c, s, p, b) && LogWritePanics(c, s)
    ensures !panic ==> Made(c, s, CallWrite(p, b, data), tt, qs) && Reached(log, c, tt[|tt| - 1], after, nextId)
  {
    panic, after, tt, qs := false, procs, [s], [];
    var l, logged := log.layout, b in log.pinned;
    if p < |procs| && procs[p].InOp? && b < |log.disk| && !(l.start <= b < l.start + l.size) && (logged || procs[p].used < maxOp) {
      ghost var t;
      var r: Log.Outcome;
      r, t := LogWriteOp(log, b, data, c, s, p);
      panic := r != Log.Done;
      after := procs[p := InOp(procs[p].id, procs[p].used + if logged then 0 else 1)];
      tt, qs := [s, t], [LogWriteStep(p, b, data)];
    }
  }

  method Ends(log: Log.Log, p: nat, procs: seq<Proc>, nextId: nat, ghost c: Config, ghost s: State)
    returns (after: seq<Proc>, ghost tt: seq<State>, ghost qs: seq<Step>, ghost ws: seq<Write>)
    requires Reached(log, c, s, procs, nextId) && !s.committing
    modifies log`n, log`disk, log`pinned, log`trace, log`outstanding, log`committing
    ensures Made(c, s, CallEnd(p), tt, qs) && Reached(log, c, tt[|tt| - 1], after, nextId)
    ensures Passes(tt, s.disk, ws) && log.trace == old(log.trace) + ws
  {
    after, tt, qs, ws := procs, [s], [], [];
    PassesNone(tt, s.disk);
    if p < |procs| && procs[p].InOp? {
      var r: Log.Outcome;
      r, tt, qs, ws := EndOp(log, c, s, p);
      after := procs[p := Idle];
    }
  }

  method Call(log: Log.Log, op: Op, maxOp: nat, procs: seq<Proc>, nextId: nat, ghost c: Config, ghost s: State)
    returns (panic: bool, after: seq<Proc>, next: nat, ghost tt: seq<State>, ghost qs: seq<Step>, ghost ws: seq<Write>)
    requires Reached(log, c, s, procs, nextId) && c.maxOp == maxOp && |s.now| == |s.disk| && !s.committing
    modifies log, log.block
    ensures panic <==> op.CallWrite? && MayWrite(c, s, op.p, op.b) && LogWritePanics(c, s)
    ensures !panic ==> Made(c, s, op, tt, qs) && Reached(log, c, tt[|tt| - 1], after, next)
    ensures !panic ==> Passes(tt, s.disk, ws) && log.trace == old(log.trace) + ws
    ensures panic ==> log.trace == old(log.trace)
  {
    panic, next, ws := false, nextId, [];
    match op {
      case CallBegin(p) => after, next, tt, qs := Begins(log, p, procs, nextId, c, s);
      case CallWrite(p, b, data) => panic, after, tt, qs := Writes(log, p, b, data, maxOp, procs, nextId, c, s);
      case CallEnd(p) => after, tt, qs, ws := Ends(log, p, procs, nextId, c, s);
    }
    if !panic && !op.CallEnd? { PassesNone(tt, s.disk); }
  }

  /** A run of the protocol with the calls it answers, as in Answered, and the block writes it makes. */
  datatype History = History(ss: seq<State>, steps: seq<Step>, at: seq<nat>, made: seq<Write>)

  ghost predicate Serving(c: Config, h: History, ops: seq<Op>, done: nat) {
    Run(c, h.ss, h.steps) && Answered(c, h.ss, h.steps, ops, h.at, done) && Passes(h.ss, c.init, h.made)
  }

  ghost function Now(h: History): State
    requires |h.ss| > 0
  {
    h.ss[|h.ss| - 1]
  }

  lemma ServingMore(c: Config, h: History, ops: seq<Op>, done: nat, tt: seq<State>, qs: seq<Step>, ws: seq<Write>)
    returns (h': History)
    requires Serving(c, h, ops, done) && done < |ops|
    requires Made(c, Now(h), ops[done], tt, qs) && Passes(tt, Now(h).disk, ws)
    ensures Serving(c, h', ops, done + 1) && Now(h') == tt[|tt| - 1] && h'.made == h.made + ws
  {
    h' := History(h.ss + tt[1..], h.steps + qs, h.at + [|h.steps| + |qs|], h.made + ws);
    JoinedTwo(c, h.ss, h.steps, tt, qs);
    AnsweredMore(c, h.ss, h.steps, ops, h.at, done, tt, qs);
    PassesMore(h.ss, tt, c.init, h.made, ws);
  }

  lemma ServingNone(c: Config, procs: seq<Proc>, ops: seq<Op>) returns (h: History)
    requires ConfigOk(c) && forall p :: 0 <= p < |procs| ==> procs[p] == Idle
    ensures Serving(c, h, ops, 0) && Now(h) == Booted(c.init, procs) && h.made == []
  {
    h := History([Booted(c.init, procs)], [], [0], []);
    PassesNone(h.ss, c.init);
  }

  /**
   * Any calls by any processes, each where its process may make it: a process begins when it is not in an
   * operation, and otherwise logs home blocks, at most maxOp new ones, or ends.  The calls are a run of the
   * protocol, each answered by its own steps up to the call that panics, if one does.  end_op never panics,
   * and log_write can only do so if maxOp is not below MAXOPBLOCKS.  The writes to disk are those of the
   * recovery at boot and then those of the run, and after every single one of these the disk is that of a
   * state of the run.
   */
  method Serve(l: Layout, d: Image, ghost bs: seq<nat>, maxOp: nat, nproc: nat, ops: seq<Op>)
    returns (log: Log.Log, panic: bool, done: nat, ghost c: Config, ghost h: History, ghost boot: seq<Write>)
    requires WellFormed(l, d, bs)
    ensures c.l == l && c.maxOp == maxOp && RecoverAll(l, d, bs, boot, c.init)
    ensures done <= |ops| && Serving(c, h, ops, done) && log.trace == boot + h.made
    ensures !panic ==> done == |ops| && Shows(log, c, Now(h))
    ensures panic ==> done < |ops| && ops[done].CallWrite? && PanicsAt(c, h.ss, h.steps, |h.ss| - 1)
    ensures l.size == NLOG && maxOp < MAXOPBLOCKS ==> !panic
  {
    log := new Log.Log(l, d, bs);
    var procs: seq<Proc>, nextId: nat := seq(nproc, i => Idle), 0;
    panic, done, c, boot := false, 0, Config(l, log.disk, maxOp), log.trace;
    h := ServingNone(c, procs, ops);
    while done < |ops|
      invariant done <= |ops| && Serving(c, h, ops, done) && log.trace == boot + h.made
      invariant fresh(log) && fresh(log.block) && Reached(log, c, Now(h), procs, nextId)
    {
      panic, procs, nextId, h := ServeOne(log, maxOp, procs, nextId, ops, done, c, h, boot);
      if panic { return; }
      done := done + 1;
    }
  }

  /** The next call: if it panics the run stays as it is. */
  method ServeOne(log: Log.Log, maxOp: nat, procs: seq<Proc>, nextId: nat, ops: seq<Op>, done: nat, ghost c: Config,
                  ghost h: History, ghost boot: seq<Write>)
    returns (panic: bool, after: seq<Proc>, next: nat, ghost h': History)
    requires done < |ops| && Serving(c, h, ops, done) && Reached(log, c, Now(h), procs, nextId) && c.maxOp == maxOp
    requires log.trace == boot + h.made
    modifies log, log.block
    ensures Serving(c, h', ops, if panic then done else done + 1) && log.trace == boot + h'.made
    ensures !panic ==> Reached(log, c, Now(h'), after, next)
    ensures panic ==> ops[done].CallWrite? && PanicsAt(c, h'.ss, h'.steps, |h'.ss| - 1)
    ensures panic ==> c.l.size != NLOG || maxOp >= MAXOPBLOCKS
  {
    ghost var tt, qs, ws;
    Sane(c, h.ss, h.steps, |h.ss| - 1);
    panic, after, next, tt, qs, ws := Call(log, ops[done], maxOp, procs, nextId, c, Now(h));
    if panic {
      Blame(c, h.ss, h.steps, |h.ss| - 1, ops[done].p, ops[done].b);
      h' := h;
    } else {
      h' := ServingMore(c, h, ops, done, tt, qs, ws);
      assert boot + h.made + ws == boot + (h.made + ws);
    }
  }

  lemma Blame(c: Config, ss: seq<State>, steps: seq<Step>, i: nat, p: nat, b: nat)
    requires PanicAt(c, ss, steps, i, p, b)
    ensures PanicsAt(c, ss, steps, i) && (c.l.size != NLOG || c.maxOp >= MAXOPBLOCKS)
  {
    if c.l.size == NLOG && c.maxOp < MAXOPBLOCKS { NineIsSafe(c, ss, steps, i, p, b); }
  }

  /**
   * So a crash of the code after any of its block writes, also in the middle of a commit, recovers to the
   * effect of whole operations.
   */
  lemma CrashInCall(c: Config, h: History, ops: seq<Op>, done: nat, k: nat, r: Image) returns (i: nat)
    requires Serving(c, h, ops, done) && k <= |h.made| && Recovers(c.l, Apply(c.init, h.made, k), r)
    ensures i < |h.ss| && h.ss[i].disk == Apply(c.init, h.made, k)
    ensures var s := h.ss[i];
            && Clean(c.l, r) && Whole(s) && Fits(c.init, s.hist)
            && SameHomes(c.l, r, Apply(c.init, s.hist, s.durable))
  {
    assert DiskIn(h.ss, Apply(c.init, h.made, k));
    i :| 0 <= i < |h.ss| && h.ss[i].disk == Apply(c.init, h.made, k);
    RecoveredIsWhole(c, h.ss, h.steps, i, r);
  }

  /** After boot nothing is logged and no process is in an operation. */
  ghost function Booted(d: Image, procs: seq<Proc>): State {
    State(d, map[], [], 0, false, procs, Running, d, [], [], [], 0, [], [], 0, 0, 0, d, d)
  }
}
