/**
 * The log as a protocol: any number of processes interleave begin_op, log_write and
 * end_op; a commit and a recovery advance one block write at a time; the machine may
 * crash, also while recovering, whenever it likes.
 *
 * Two history variables make the claim sayable: hist is every logged block write in
 * order, ops the operation each belongs to.
 */
module LogProtocol {
  import opened Disk
  import opened Seqs
  import opened LogSpec
  import Log

  /** A process is inside an operation, having added used new block numbers to the log, or not. */
  datatype Proc = Idle | InOp(id: nat, used: nat)

  datatype Mode = Running | Committing | Recovering

  datatype State = State(
    disk: Image, pinned: Pins, lh: seq<nat>, outstanding: int, committing: bool,
    procs: seq<Proc>, mode: Mode,
    // the commit or recovery in progress: the disk it started from, its blocks, writes and progress
    base: Image, bs: seq<nat>, data: seq<Block>, ws: seq<Write>, k: nat,
    // history: the logged writes, their operations, how many survive a crash, and the id of
    // the first operation that began after those; the disks all, and those, writes describe
    hist: seq<Write>, ops: seq<nat>, durable: nat, cut: nat, nextId: nat,
    now: Image, kept: Image)

  /** The static facts: where the log is, the disk at first boot, and the most new blocks an operation may add. */
  datatype Config = Config(l: Layout, init: Image, maxOp: nat)

  ghost predicate ConfigOk(c: Config) {
    Clean(c.l, c.init)
  }

  // ---- Steps --------------------------------------------------------------------

  ghost predicate SameDisk(s: State, t: State) {
    t.disk == s.disk && t.pinned == s.pinned
  }

  ghost predicate SameTask(s: State, t: State) {
    t.mode == s.mode && t.base == s.base && t.bs == s.bs && t.data == s.data && t.ws == s.ws && t.k == s.k
  }

  ghost predicate SameHistory(s: State, t: State) {
    t.hist == s.hist && t.ops == s.ops && t.durable == s.durable && t.cut == s.cut &&
    t.now == s.now && t.kept == s.kept
  }

  ghost predicate SameOps(s: State, t: State) {
    t.lh == s.lh && t.outstanding == s.outstanding && t.committing == s.committing &&
    t.procs == s.procs && t.nextId == s.nextId
  }

  /** begin_op would admit process p at once. */
  ghost predicate MayBegin(s: State, p: nat) {
    && p < |s.procs| && s.procs[p] == Idle && s.mode != Recovering
    && !s.committing && |s.lh| + (s.outstanding + 1) * MAXOPBLOCKS <= LOGSIZE
  }

  /** begin_op admits process p. */
  ghost predicate Begin(c: Config, s: State, t: State, p: nat) {
    && MayBegin(s, p)
    && t.outstanding == s.outstanding + 1
    && t.procs == s.procs[p := InOp(s.nextId, 0)] && t.nextId == s.nextId + 1
    && t.lh == s.lh && t.committing == s.committing
    && SameDisk(s, t) && SameTask(s, t) && SameHistory(s, t)
  }

  /** log_write's two panics. */
  ghost predicate LogWritePanics(c: Config, s: State) {
    |s.lh| >= LOGSIZE || |s.lh| >= c.l.size - 1 || s.outstanding < 1
  }

  /** Process p, inside an operation, may log block b: an operation adds at most maxOp new ones. */
  ghost predicate MayWrite(c: Config, s: State, p: nat, b: nat) {
    && p < |s.procs| && s.procs[p].InOp? && s.mode != Recovering
    && Home(c.l, |s.disk|, b)
    && (b in s.lh || s.procs[p].used < c.maxOp)
  }

  /** Process p changes block b to data and calls log_write. */
  ghost predicate LogWrite(c: Config, s: State, t: State, p: nat, b: nat, data: Block) {
    && MayWrite(c, s, p, b) && !LogWritePanics(c, s)
    && t.lh == Log.Absorb(s.lh, b)
    && t.procs == s.procs[p := InOp(s.procs[p].id, s.procs[p].used + if b in s.lh then 0 else 1)]
    && t.disk == s.disk && t.pinned == s.pinned[b := data]
    && t.hist == s.hist + [Write(b, data)] && t.ops == s.ops + [s.procs[p].id]
    && |s.now| == |s.disk| && t.now == s.now[b := data] && t.kept == s.kept
    && t.durable == s.durable && t.cut == s.cut && t.nextId == s.nextId
    && t.outstanding == s.outstanding && t.committing == s.committing
    && SameTask(s, t)
  }

  ghost predicate MayEnd(s: State, p: nat) {
    p < |s.procs| && s.procs[p].InOp? && s.mode != Recovering
  }

  /** end_op of process p; the last one out starts the commit. */
  ghost predicate End(c: Config, s: State, t: State, p: nat) {
    && MayEnd(s, p) && !s.committing
    && t.outstanding == s.outstanding - 1 && t.procs == s.procs[p := Idle]
    && t.lh == s.lh && t.nextId == s.nextId
    && SameDisk(s, t) && SameHistory(s, t)
    && (t.outstanding != 0 ==> t.committing == s.committing && SameTask(s, t))
    && (t.outstanding == 0 ==> t.committing && t.mode == Committing && Planned(c, t))
  }

  /** The commit about to run: commit() does nothing when no block is logged. */
  ghost predicate Planned(c: Config, t: State) {
    && t.base == t.disk && t.bs == t.lh && |t.data| == |t.bs| && t.k == 0
    && (forall i :: 0 <= i < |t.bs| ==> t.bs[i] < |t.disk| && t.data[i] == View(t.disk, t.pinned, t.bs[i]))
    && (t.bs == [] ==> t.ws == [])
    && (t.bs != [] ==> CommitRun(c.l, t.base, t.bs, t.data, t.ws))
  }

  /** The next block write of the commit. */
  ghost predicate CommitWrite(c: Config, s: State, t: State) {
    && s.mode == Committing && s.k < |s.ws| && s.ws[s.k].blockno < |s.disk|
    && t.disk == s.disk[s.ws[s.k].blockno := s.ws[s.k].data]
    && t.pinned == Unpin(s.pinned, s.ws[s.k].blockno)
    && t.k == s.k + 1
    && t.mode == s.mode && t.base == s.base && t.bs == s.bs && t.data == s.data && t.ws == s.ws
    && t.hist == s.hist && t.ops == s.ops
    // the header write is what makes everything logged so far durable
    && t.durable == (if s.k == |s.bs| then |s.hist| else s.durable)
    && t.cut == (if s.k == |s.bs| then s.nextId else s.cut)
    && t.now == s.now && t.kept == (if s.k == |s.bs| then s.now else s.kept)
    && SameOps(s, t)
  }

  ghost predicate CommitDone(c: Config, s: State, t: State) {
    && s.mode == Committing && s.k == |s.ws|
    && t.mode == Running && !t.committing && t.lh == []
    && t.outstanding == s.outstanding && t.procs == s.procs && t.nextId == s.nextId
    && SameDisk(s, t) && SameHistory(s, t)
  }

  /** Memory is lost; so is whatever no recovery can bring back.  Recovery starts. */
  ghost predicate Crash(c: Config, s: State, t: State) {
    && t.disk == s.disk && t.pinned == map[] && t.lh == [] && t.outstanding == 0 && !t.committing
    && |t.procs| == |s.procs| && (forall p :: 0 <= p < |t.procs| ==> t.procs[p] == Idle)
    && t.mode == Recovering && t.base == t.disk && t.k == 0
    && WellFormed(c.l, t.base, t.bs) && RecoverWrites(c.l, t.base, t.bs, t.ws) && Fits(t.base, t.ws)
    && s.durable <= |s.hist| && s.durable <= |s.ops|
    && t.hist == s.hist[..s.durable] && t.ops == s.ops[..s.durable]
    && t.durable == s.durable && t.cut == s.cut && t.nextId == s.nextId
    && t.now == s.kept && t.kept == s.kept
  }

  ghost predicate RecoverWrite(c: Config, s: State, t: State) {
    && s.mode == Recovering && s.k < |s.ws| && s.ws[s.k].blockno < |s.disk|
    && t.disk == s.disk[s.ws[s.k].blockno := s.ws[s.k].data] && t.pinned == s.pinned && t.k == s.k + 1
    && t.mode == s.mode && t.base == s.base && t.bs == s.bs && t.data == s.data && t.ws == s.ws
    && SameHistory(s, t) && SameOps(s, t)
  }

  ghost predicate RecoverDone(c: Config, s: State, t: State) {
    && s.mode == Recovering && s.k == |s.ws| && t.mode == Running
    && SameDisk(s, t) && SameHistory(s, t) && SameOps(s, t)
  }

  datatype Step =
    | BeginStep(p: nat) | LogWriteStep(p: nat, b: nat, data: Block) | EndStep(p: nat)
    | CommitWriteStep | CommitDoneStep | CrashStep | RecoverWriteStep | RecoverDoneStep

  ghost predicate Next(c: Config, s: State, step: Step, t: State) {
    match step
    case BeginStep(p) => Begin(c, s, t, p)
    case LogWriteStep(p, b, data) => LogWrite(c, s, t, p, b, data)
    case EndStep(p) => End(c, s, t, p)
    case CommitWriteStep => CommitWrite(c, s, t)
    case CommitDoneStep => CommitDone(c, s, t)
    case CrashStep => Crash(c, s, t)
    case RecoverWriteStep => RecoverWrite(c, s, t)
    case RecoverDoneStep => RecoverDone(c, s, t)
  }

  ghost predicate Initial(c: Config, s: State) {
    && ConfigOk(c)
    && s.disk == c.init && s.pinned == map[] && s.lh == [] && s.outstanding == 0 && !s.committing
    && (forall p :: 0 <= p < |s.procs| ==> s.procs[p] == Idle) && s.mode == Running
    && s.hist == [] && s.ops == [] && s.durable == 0 && s.cut == 0
    && s.now == c.init && s.kept == c.init
  }

  /** The states ss are joined by the steps. */
  ghost predicate Joined(c: Config, ss: seq<State>, steps: seq<Step>) {
    |ss| == |steps| + 1 && forall i {:trigger steps[i]} :: 0 <= i < |steps| ==> Next(c, ss[i], steps[i], ss[i + 1])
  }

  lemma JoinedMore(c: Config, ss: seq<State>, steps: seq<Step>, step: Step, t: State)
    requires Joined(c, ss, steps) && Next(c, ss[|ss| - 1], step, t)
    ensures Joined(c, ss + [t], steps + [step])
  {
    var tt, qs := ss + [t], steps + [step];
    forall i {:trigger qs[i]} | 0 <= i < |qs| ensures Next(c, tt[i], qs[i], tt[i + 1]) {
      if i < |steps| { assert Next(c, ss[i], steps[i], ss[i + 1]); }
    }
  }

  ghost predicate Run(c: Config, ss: seq<State>, steps: seq<Step>) {
    Joined(c, ss, steps) && Initial(c, ss[0])
  }

  // ---- The invariant ---------------------------------------------------------------

  /** Sum over the operations in progress among the first k processes: each counts a, less b per block used. */
  ghost function Sum(procs: seq<Proc>, a: int, b: int, k: nat): int
    requires k <= |procs|
    decreases k
  {
    if k == 0 then 0
    else Sum(procs, a, b, k - 1) + if procs[k - 1].InOp? then a - b * procs[k - 1].used else 0
  }

  /** The counters agree with the processes, and nobody is in an operation during a commit or a recovery. */
  ghost predicate Counted(s: State) {
    && s.outstanding == Sum(s.procs, 1, 0, |s.procs|)
    && (s.committing <==> s.mode == Committing)
    && (s.mode != Running ==> forall p :: 0 <= p < |s.procs| ==> s.procs[p] == Idle)
  }

  /** now and kept are what the logged writes, all of them or the durable ones, make of the first disk. */
  ghost predicate Described(c: Config, s: State) {
    && |s.disk| == |c.init| && Fits(c.init, s.hist) && s.durable <= |s.hist|
    && s.now == Apply(c.init, s.hist, |s.hist|)
    && s.kept == Apply(c.init, s.hist, s.durable)
  }

  /** Operations before the cut are over and wholly durable; the others are not durable at all. */
  ghost predicate Whole(s: State) {
    && |s.ops| == |s.hist| && s.durable <= |s.hist| && s.cut <= s.nextId
    && (forall i :: 0 <= i < |s.ops| ==> (i < s.durable <==> s.ops[i] < s.cut) && s.ops[i] < s.nextId)
    && (forall p :: 0 <= p < |s.procs| && s.procs[p].InOp? ==> s.cut <= s.procs[p].id < s.nextId)
  }

  /** Every reader sees the last logged contents. */
  ghost predicate Coherent(c: Config, s: State) {
    |s.disk| == |s.kept| && Views(c.l, s.disk, s.pinned, s.now)
  }

  /** What is cached, or on disk if it is not, is the image now. */
  ghost predicate Views(l: Layout, d: Image, p: Pins, now: Image) {
    && |d| == |now|
    && forall b: nat :: Home(l, |d|, b) ==> View(d, p, b) == now[b]
  }

  ghost predicate RunningOk(c: Config, s: State) {
    && Clean(c.l, s.disk) && Loggable(c.l, |s.disk|, s.lh)
    && (forall b :: b in s.pinned <==> b in s.lh)
    && Coherent(c, s) && SameHomes(c.l, s.disk, s.kept)
    && (s.lh == [] ==> s.durable == |s.hist|)
  }

  /** Only logged blocks are pinned, and of those not the ones that are installed. */
  ghost predicate Pinned(p: Pins, bs: seq<nat>, ws: seq<Write>, k: nat)
    requires k <= |ws|
  {
    && (forall b :: b in p ==> b in bs)
    && (forall i {:trigger ws[i]} :: |bs| < i < k ==> ws[i].blockno !in p)
  }

  ghost predicate CommittingOk(c: Config, s: State) {
    && CommitRun(c.l, s.base, s.bs, s.data, s.ws) && s.k <= |s.ws| && s.disk == Apply(s.base, s.ws, s.k)
    && Coherent(c, s)
    && Pinned(s.pinned, s.bs, s.ws, s.k)
    && Updates(c.l, s.base, s.bs, s.data, s.now)
    && (s.k <= |s.bs| ==> SameHomes(c.l, s.base, s.kept))
    && (s.k > |s.bs| ==> s.kept == s.now && s.durable == |s.hist|)
  }

  /** Whatever a recovery from d ends with is clean, and kept outside the log. */
  ghost predicate Keeps(l: Layout, d: Image, kept: Image) {
    forall r :: Recovers(l, d, r) ==> Clean(l, r) && SameHomes(l, r, kept)
  }

  ghost predicate RecoveringOk(c: Config, s: State) {
    && RecoverRun(c.l, s.base, s.bs, s.ws, s.k, s.disk) && Keeps(c.l, s.base, s.kept)
    && s.pinned == map[] && s.lh == [] && s.now == s.kept && |s.kept| == |s.disk|
  }

  ghost predicate Contents(c: Config, s: State) {
    match s.mode
    case Running => RunningOk(c, s) && (s.outstanding == 0 ==> s.lh == [])
    case Committing => if s.bs == [] then RunningOk(c, s) && s.lh == [] && s.ws == [] && s.k == 0
                       else CommittingOk(c, s)
    case Recovering => RecoveringOk(c, s) && s.durable == |s.hist|
  }

  ghost predicate Inv(c: Config, s: State) {
    ConfigOk(c) && Counted(s) && Described(c, s) && Whole(s) && Contents(c, s)
  }

  // ---- Counting --------------------------------------------------------------------

  lemma {:induction false} SumUpdate(ps: seq<Proc>, p: nat, x: Proc, a: int, b: int, k: nat)
    requires p < |ps| && k <= |ps|
    ensures p >= k ==> Sum(ps[p := x], a, b, k) == Sum(ps, a, b, k)
    ensures p < k ==> Sum(ps[p := x], a, b, k) == Sum(ps, a, b, k)
                      - (if ps[p].InOp? then a - b * ps[p].used else 0) + (if x.InOp? then a - b * x.used else 0)
    decreases k
  {
    if k > 0 { SumUpdate(ps, p, x, a, b, k - 1); }
  }

  lemma {:induction false} SumIdle(ps: seq<Proc>, a: int, b: int, k: nat)
    requires k <= |ps| && forall p :: 0 <= p < |ps| ==> ps[p] == Idle
    ensures Sum(ps, a, b, k) == 0
    decreases k
  {
    if k > 0 { SumIdle(ps, a, b, k - 1); }
  }

  lemma {:induction false} SumPositive(ps: seq<Proc>, k: nat)
    requires k <= |ps|
    ensures Sum(ps, 1, 0, k) >= 0
    ensures forall p :: 0 <= p < k && ps[p].InOp? ==> Sum(ps, 1, 0, k) >= 1
    decreases k
  {
    if k > 0 { SumPositive(ps, k - 1); }
  }

  lemma CountedNext(c: Config, s: State, step: Step, t: State)
    requires Counted(s) && Next(c, s, step, t)
    ensures Counted(t)
  {
    var n := |s.procs|;
    match step
    case BeginStep(p) => SumUpdate(s.procs, p, InOp(s.nextId, 0), 1, 0, n);
    case LogWriteStep(p, b, data) => SumUpdate(s.procs, p, t.procs[p], 1, 0, n);
    case EndStep(p) =>
      SumUpdate(s.procs, p, Idle, 1, 0, n);
      SumPositive(t.procs, n);
    case CrashStep => SumIdle(t.procs, 1, 0, n);
    case _ =>
  }

  // ---- History ---------------------------------------------------------------------

  lemma DescribedNext(c: Config, s: State, step: Step, t: State)
    requires Described(c, s) && Next(c, s, step, t) && |s.now| == |s.disk|
    ensures Described(c, t)
  {
    match step
    case LogWriteStep(p, b, data) =>
      ApplyAgree(c.init, s.hist, t.hist, |s.hist|);
      ApplyAgree(c.init, s.hist, t.hist, s.durable);
    case CrashStep =>
      ApplyAgree(c.init, s.hist, t.hist, s.durable);
    case _ =>
  }

  lemma WholeNext(c: Config, s: State, step: Step, t: State)
    requires Counted(s) && Whole(s) && Next(c, s, step, t)
    ensures Whole(t)
  {
  }

  // ---- Contents --------------------------------------------------------------------

  lemma LogWriteContents(c: Config, s: State, t: State, p: nat, b: nat, data: Block)
    requires RunningOk(c, s) && LogWrite(c, s, t, p, b, data)
    ensures RunningOk(c, t) && t.lh != []
  {
  }

  /** The last end_op plans a commit whose effect is the current contents. */
  lemma PlanContents(c: Config, s: State)
    requires RunningOk(c, s) && Planned(c, s) && s.bs != []
    ensures CommittingOk(c, s)
  {
    assert Apply(s.base, s.ws, 0) == s.base;
    forall i | 0 <= i < |s.bs| ensures s.bs[i] < |s.now| && s.now[s.bs[i]] == s.data[i] {
      assert Home(c.l, |s.disk|, s.bs[i]);
    }
  }

  lemma CommitWriteContents(c: Config, s: State, t: State)
    requires CommittingOk(c, s) && CommitWrite(c, s, t)
    ensures CommittingOk(c, t)
  {
    CommitWriteCoherent(c, s, t);
    PinnedKept(s.pinned, s.bs, s.ws, s.k);
    OneMore(s.base, s.ws, s.k);
    assert CommitRun(c.l, t.base, t.bs, t.data, t.ws) && Updates(c.l, t.base, t.bs, t.data, t.now);
    assert Pinned(t.pinned, t.bs, t.ws, t.k);
  }

  lemma PinnedKept(p: Pins, bs: seq<nat>, ws: seq<Write>, k: nat)
    requires k < |ws| && Pinned(p, bs, ws, k)
    ensures Pinned(Unpin(p, ws[k].blockno), bs, ws, k + 1)
  {
  }

  lemma OneMore(d: Image, ws: seq<Write>, k: nat)
    requires k < |ws| && Fits(d, ws)
    ensures Apply(d, ws, k + 1) == Apply(d, ws, k)[ws[k].blockno := ws[k].data]
  {
  }

  lemma CommitWriteCoherent(c: Config, s: State, t: State)
    requires CommittingOk(c, s) && CommitWrite(c, s, t)
    ensures Coherent(c, t)
  {
    CommitTarget(c.l, s.base, s.bs, s.data, s.ws, s.now, s.k);
    ViewsKept(c.l, s.disk, s.pinned, s.now, s.ws[s.k]);
  }

  /** Each write of a commit goes to the log, or puts the current contents in place. */
  lemma CommitTarget(l: Layout, d: Image, bs: seq<nat>, data: seq<Block>, ws: seq<Write>, now: Image, k: nat)
    requires CommitRun(l, d, bs, data, ws) && Updates(l, d, bs, data, now) && k < |ws|
    ensures InLog(l, ws[k].blockno) || (ws[k].blockno < |now| && now[ws[k].blockno] == ws[k].data)
  {
    var n := |bs|;
    if n < k <= 2 * n {
      var i := k - n - 1;
      assert ws[k] == Write(bs[i], data[i]) && now[bs[i]] == data[i];
    } else if k < n {
      assert ws[k] == Write(l.start + 1 + k, data[k]);
    }
  }

  /** Such a write leaves every reader's view as it is. */
  lemma ViewsKept(l: Layout, d: Image, p: Pins, now: Image, w: Write)
    requires Views(l, d, p, now) && w.blockno < |d| && (InLog(l, w.blockno) || now[w.blockno] == w.data)
    ensures Views(l, d[w.blockno := w.data], Unpin(p, w.blockno), now)
  {
    var d', p' := d[w.blockno := w.data], Unpin(p, w.blockno);
    forall b: nat | Home(l, |d'|, b) ensures View(d', p', b) == now[b] { assert View(d, p, b) == now[b]; }
  }

  lemma CommitDoneContents(c: Config, s: State, t: State)
    requires CommittingOk(c, s) && s.bs != [] && CommitDone(c, s, t)
    ensures RunningOk(c, t)
  {
    CommitFinished(c.l, s.base, s.bs, s.data, s.ws);
    forall b | b in s.bs ensures b !in s.pinned {
      var i :| 0 <= i < |s.bs| && s.bs[i] == b;
      assert s.ws[|s.bs| + 1 + i].blockno == b;
    }
  }

  lemma RunningKeeps(c: Config, s: State)
    requires RunningOk(c, s)
    ensures Keeps(c.l, s.disk, s.kept)
  {
    forall r | Recovers(c.l, s.disk, r) ensures Clean(c.l, r) && SameHomes(c.l, r, s.kept) {
      RecoverClean(c.l, s.disk, r);
    }
  }

  lemma CommittingKeeps(c: Config, s: State)
    requires CommittingOk(c, s)
    ensures Keeps(c.l, s.disk, s.kept)
  {
    forall r | Recovers(c.l, s.disk, r) ensures Clean(c.l, r) && SameHomes(c.l, r, s.kept) {
      CrashAtomicity(c.l, s.base, s.bs, s.data, s.ws, s.k, [s.disk], r);
      if s.k > |s.bs| { UpdatesUnique(c.l, s.base, s.bs, s.data, r, s.now); }
    }
  }

  lemma UpdatesUnique(l: Layout, d: Image, bs: seq<nat>, data: seq<Block>, e: Image, f: Image)
    requires Updates(l, d, bs, data, e) && Updates(l, d, bs, data, f)
    ensures SameHomes(l, e, f)
  {
    forall b: nat | Home(l, |e|, b) ensures e[b] == f[b] {
      if b in bs {
        var i :| 0 <= i < |bs| && bs[i] == b;
        assert e[bs[i]] == data[i] == f[bs[i]];
      }
    }
  }

  lemma RecoveringKeeps(c: Config, s: State)
    requires RecoveringOk(c, s)
    ensures Keeps(c.l, s.disk, s.kept)
  {
    assert Attempt(c.l, s.base, s.disk);
    forall r | Recovers(c.l, s.disk, r) ensures Clean(c.l, r) && SameHomes(c.l, r, s.kept) {
      RecoverResumes(c.l, s.base, s.disk, r);
    }
  }

  lemma RecoverDoneContents(c: Config, s: State, t: State)
    requires RecoveringOk(c, s) && s.durable == |s.hist| && RecoverDone(c, s, t)
    ensures RunningOk(c, t)
  {
    assert RecoverAll(c.l, s.base, s.bs, s.ws, s.disk);
    assert Recovers(c.l, s.base, s.disk);
  }

  /** In every mode, every recovery from the disk as it stands yields what was kept. */
  lemma ContentsKeep(c: Config, s: State)
    requires Contents(c, s)
    ensures Keeps(c.l, s.disk, s.kept)
  {
    match s.mode
    case Running => RunningKeeps(c, s);
    case Committing => if s.bs == [] { RunningKeeps(c, s); } else { CommittingKeeps(c, s); }
    case Recovering => RecoveringKeeps(c, s);
  }

  lemma ContentsNext(c: Config, s: State, step: Step, t: State)
    requires Counted(s) && Contents(c, s) && Next(c, s, step, t)
    ensures Contents(c, t)
  {
    match step
    case BeginStep(p) => SumPositive(s.procs, |s.procs|);
    case LogWriteStep(p, b, data) => LogWriteContents(c, s, t, p, b, data);
    case EndStep(p) =>
      if t.outstanding == 0 && t.bs != [] {
        assert RunningOk(c, t);
        PlanContents(c, t);
      }
    case CommitWriteStep => if s.bs != [] { CommitWriteContents(c, s, t); }
    case CommitDoneStep => if s.bs != [] { CommitDoneContents(c, s, t); }
    case CrashStep => CrashContents(c, s, t);
    case RecoverWriteStep =>
    case RecoverDoneStep => RecoverDoneContents(c, s, t);
  }

  lemma CrashContents(c: Config, s: State, t: State)
    requires Contents(c, s) && Crash(c, s, t)
    ensures Contents(c, t)
  {
    ContentsKeep(c, s);
    assert Apply(t.base, t.ws, 0) == t.base;
  }

  lemma {:induction false} InvHolds(c: Config, ss: seq<State>, steps: seq<Step>, i: nat)
    requires Run(c, ss, steps) && i < |ss|
    ensures Inv(c, ss[i])
    decreases i
  {
    if i == 0 {
      SumIdle(ss[0].procs, 1, 0, |ss[0].procs|);
    } else {
      InvHolds(c, ss, steps, i - 1);
      var s, step, t := ss[i - 1], steps[i - 1], ss[i];
      assert Next(c, s, step, t);
      CountedNext(c, s, step, t);
      DescribedNext(c, s, step, t);
      WholeNext(c, s, step, t);
      ContentsNext(c, s, step, t);
    }
  }

  /**
   * Whole-operation commits.  At every point of every run, whatever a recovery from the disk
   * as it stands ends with is the effect of exactly the operations before the cut: each of
   * them has ended, all of its writes are in, and no write of any other operation is.
   */
  lemma RecoveredIsWhole(c: Config, ss: seq<State>, steps: seq<Step>, i: nat, r: Image)
    requires Run(c, ss, steps) && i < |ss| && Recovers(c.l, ss[i].disk, r)
    ensures var s := ss[i];
            && Clean(c.l, r) && Whole(s) && Fits(c.init, s.hist)
            && SameHomes(c.l, r, Apply(c.init, s.hist, s.durable))
  {
    InvHolds(c, ss, steps, i);
    ContentsKeep(c, ss[i]);
  }

  /** The header on disk always lists a transaction that recovery can install. */
  lemma Listed(c: Config, s: State) returns (bs: seq<nat>)
    requires Contents(c, s)
    ensures WellFormed(c.l, s.disk, bs)
  {
    match s.mode
    case Running => bs := [];
    case Committing =>
      if s.bs == [] {
        bs := [];
      } else if s.k <= |s.bs| {
        CommitBefore(c.l, s.base, s.bs, s.data, s.ws, s.k);
        bs := [];
      } else if s.k < |s.ws| {
        CommitLogged(c.l, s.base, s.bs, s.data, s.ws, s.k);
        bs := s.bs;
      } else {
        CommitFinished(c.l, s.base, s.bs, s.data, s.ws);
        bs := [];
      }
    case Recovering =>
      if s.k <= |s.bs| {
        RecoverInterrupted(c.l, s.base, s.bs, s.ws, s.k);
        bs := s.bs;
      } else {
        RecoverLast(c.l, s.base, s.bs, s.ws, s.base, |s.bs|);
        bs := [];
      }
  }

  /** At every point of every run the machine can crash, and then recover. */
  lemma CanCrash(c: Config, ss: seq<State>, steps: seq<Step>, i: nat) returns (t: State, r: Image)
    requires Run(c, ss, steps) && i < |ss|
    ensures Crash(c, ss[i], t) && Recovers(c.l, ss[i].disk, r)
  {
    InvHolds(c, ss, steps, i);
    var s := ss[i];
    var bs := Listed(c, s);
    var ws := RecoverWritesExist(c.l, s.disk, bs);
    WritesFit(c.l, s.disk, bs, ws);
    r := Apply(s.disk, ws, |ws|);
    assert RecoverAll(c.l, s.disk, bs, ws, r);
    t := s.(pinned := map[], lh := [], outstanding := 0, committing := false, procs := seq(|s.procs|, p => Idle),
            mode := Recovering, base := s.disk, bs := bs, ws := ws, k := 0,
            hist := s.hist[..s.durable], ops := s.ops[..s.durable], now := s.kept);
  }

  /** A commit runs with no operation outstanding, so end_op never finds one under way. */
  lemma EndNeverPanics(c: Config, ss: seq<State>, steps: seq<Step>, i: nat, p: nat)
    requires Run(c, ss, steps) && i < |ss|
    ensures ss[i].committing ==> ss[i].outstanding == 0
    ensures MayEnd(ss[i], p) ==> !ss[i].committing && ss[i].outstanding >= 1
  {
    InvHolds(c, ss, steps, i);
    var s := ss[i];
    SumPositive(s.procs, |s.procs|);
    if s.committing { SumIdle(s.procs, 1, 0, |s.procs|); }
  }

  /** Outside a recovery every reader sees the last logged contents, even in mid-commit. */
  lemma ReadersSeeLastWrite(c: Config, ss: seq<State>, steps: seq<Step>, i: nat, b: nat)
    requires Run(c, ss, steps) && i < |ss| && ss[i].mode != Recovering && Home(c.l, |ss[i].disk|, b)
    ensures var s := ss[i];
            && Fits(c.init, s.hist) && |s.disk| == |c.init|
            && View(s.disk, s.pinned, b) == Apply(c.init, s.hist, |s.hist|)[b]
  {
    InvHolds(c, ss, steps, i);
  }
}
