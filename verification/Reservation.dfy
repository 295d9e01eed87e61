/**
 * Log space.  begin_op admits an operation only if MAXOPBLOCKS more blocks fit for it and
 * for every operation outstanding; log_write panics when the list reaches the log's size.
 */
module Reservation {
  import opened Disk
  import opened LogSpec
  import opened LogProtocol
  import Log

  /** mkfs gives the log LOGSIZE blocks, its header included. */
  const NLOG: nat := LOGSIZE

  /** What the list's length and the unused shares of the operations can add up to. */
  ghost function Limit(maxOp: nat): nat {
    if maxOp < MAXOPBLOCKS then LOGSIZE - 2 else LOGSIZE
  }

  ghost predicate Reserved(c: Config, s: State) {
    && (forall p :: 0 <= p < |s.procs| && s.procs[p].InOp? ==> s.procs[p].used <= c.maxOp)
    && |s.lh| + Sum(s.procs, c.maxOp, 1, |s.procs|) <= Limit(c.maxOp)
  }

  /** Operations hold at most their full share each. */
  lemma {:induction false} SumShares(ps: seq<Proc>, m: nat, k: nat)
    requires k <= |ps|
    ensures Sum(ps, m, 1, k) <= m * Sum(ps, 1, 0, k)
    decreases k
  {
    if k > 0 { SumShares(ps, m, k - 1); }
  }

  lemma {:induction false} SumUnused(ps: seq<Proc>, m: nat, k: nat)
    requires k <= |ps| && forall p :: 0 <= p < |ps| && ps[p].InOp? ==> ps[p].used <= m
    ensures Sum(ps, m, 1, k) >= 0
    decreases k
  {
    if k > 0 { SumUnused(ps, m, k - 1); }
  }

  /** What admission leaves: every share but one falls short of MAXOPBLOCKS by one when maxOp does. */
  lemma AdmissionFits(n: nat, out: nat, maxOp: nat)
    requires n + (out + 1) * MAXOPBLOCKS <= LOGSIZE && maxOp <= MAXOPBLOCKS
    requires out == 0 ==> n == 0
    ensures n + maxOp * out + maxOp <= Limit(maxOp)
  {
    if maxOp < MAXOPBLOCKS {
      assert maxOp * out <= (MAXOPBLOCKS - 1) * out;
    }
  }

  lemma ReservedNext(c: Config, s: State, step: Step, t: State)
    requires Counted(s) && Contents(c, s) && Reserved(c, s) && c.maxOp <= MAXOPBLOCKS && Next(c, s, step, t)
    ensures Reserved(c, t)
  {
    var n := |s.procs|;
    match step
    case BeginStep(p) =>
      SumPositive(s.procs, n);
      SumShares(s.procs, c.maxOp, n);
      SumUpdate(s.procs, p, t.procs[p], c.maxOp, 1, n);
      AdmissionFits(|s.lh|, s.outstanding, c.maxOp);
    case LogWriteStep(p, b, data) =>
      SumUpdate(s.procs, p, t.procs[p], c.maxOp, 1, n);
    case EndStep(p) =>
      SumUpdate(s.procs, p, Idle, c.maxOp, 1, n);
    case CrashStep =>
      SumIdle(t.procs, c.maxOp, 1, n);
    case _ =>
  }

  lemma {:induction false} ReservedHolds(c: Config, ss: seq<State>, steps: seq<Step>, i: nat)
    requires Run(c, ss, steps) && i < |ss| && c.maxOp <= MAXOPBLOCKS
    ensures Reserved(c, ss[i])
    decreases i
  {
    if i == 0 {
      SumIdle(ss[0].procs, c.maxOp, 1, |ss[0].procs|);
    } else {
      ReservedHolds(c, ss, steps, i - 1);
      InvHolds(c, ss, steps, i - 1);
      assert Next(c, ss[i - 1], steps[i - 1], ss[i]);
      ReservedNext(c, ss[i - 1], steps[i - 1], ss[i]);
    }
  }

  /** If each operation keeps to maxOp new blocks, the list and all unused shares fit the array. */
  lemma ReservationSound(c: Config, ss: seq<State>, steps: seq<Step>, i: nat)
    requires Run(c, ss, steps) && i < |ss| && c.maxOp <= MAXOPBLOCKS
    ensures 0 <= Sum(ss[i].procs, c.maxOp, 1, |ss[i].procs|)
    ensures |ss[i].lh| + Sum(ss[i].procs, c.maxOp, 1, |ss[i].procs|) <= Limit(c.maxOp) <= LOGSIZE
  {
    ReservedHolds(c, ss, steps, i);
    SumUnused(ss[i].procs, c.maxOp, |ss[i].procs|);
  }

  /** Some process of some run calls log_write where it panics. */
  ghost predicate PanicAt(c: Config, ss: seq<State>, steps: seq<Step>, i: nat, p: nat, b: nat) {
    Run(c, ss, steps) && i < |ss| && MayWrite(c, ss[i], p, b) && LogWritePanics(c, ss[i])
  }

  /** With at most nine new blocks per operation, log_write's guards never fire. */
  lemma NineIsSafe(c: Config, ss: seq<State>, steps: seq<Step>, i: nat, p: nat, b: nat)
    requires c.l.size == NLOG && c.maxOp < MAXOPBLOCKS
    ensures !PanicAt(c, ss, steps, i, p, b)
  {
    if PanicAt(c, ss, steps, i, p, b) {
      ReservationSound(c, ss, steps, i);
      EndNeverPanics(c, ss, steps, i, p);
    }
  }

  // ---- Ten is not ---------------------------------------------------------------

  /** The i-th block after the log. */
  ghost function Spare(c: Config, i: nat): nat {
    c.l.start + c.l.size + i
  }

  ghost predicate HasSpares(c: Config) {
    ConfigOk(c) && Spare(c, LOGSIZE) <= |c.init|
  }

  /** The run ends running, with n spare blocks logged, out operations outstanding and the given processes. */
  ghost predicate At(c: Config, ss: seq<State>, steps: seq<Step>, n: nat, out: int, ps: seq<Proc>) {
    && Run(c, ss, steps)
    && var s := ss[|ss| - 1];
       && s.mode == Running && !s.committing && |s.disk| == |s.now| == |c.init|
       && |s.lh| == n && (forall i :: 0 <= i < n ==> s.lh[i] == Spare(c, i))
       && s.outstanding == out && s.procs == ps
  }

  lemma BeginMore(c: Config, ss: seq<State>, steps: seq<Step>, n: nat, out: int, ps: seq<Proc>, p: nat)
    returns (tt: seq<State>, qs: seq<Step>, id: nat)
    requires At(c, ss, steps, n, out, ps) && p < |ps| && ps[p] == Idle
    requires n + (out + 1) * MAXOPBLOCKS <= LOGSIZE
    ensures At(c, tt, qs, n, out + 1, ps[p := InOp(id, 0)])
  {
    var s := ss[|ss| - 1];
    id := s.nextId;
    var t := s.(outstanding := out + 1, procs := ps[p := InOp(id, 0)], nextId := id + 1);
    JoinedMore(c, ss, steps, BeginStep(p), t);
    tt, qs := ss + [t], steps + [BeginStep(p)];
  }

  lemma EndMore(c: Config, ss: seq<State>, steps: seq<Step>, n: nat, out: int, ps: seq<Proc>, p: nat)
    returns (tt: seq<State>, qs: seq<Step>)
    requires At(c, ss, steps, n, out, ps) && p < |ps| && ps[p].InOp? && out > 1
    ensures At(c, tt, qs, n, out - 1, ps[p := Idle])
  {
    var s := ss[|ss| - 1];
    var t := s.(outstanding := out - 1, procs := ps[p := Idle]);
    JoinedMore(c, ss, steps, EndStep(p), t);
    tt, qs := ss + [t], steps + [EndStep(p)];
  }

  lemma WriteMore(c: Config, ss: seq<State>, steps: seq<Step>, n: nat, out: int, ps: seq<Proc>, p: nat)
    returns (tt: seq<State>, qs: seq<Step>)
    requires HasSpares(c) && At(c, ss, steps, n, out, ps) && out >= 1
    requires p < |ps| && ps[p].InOp? && ps[p].used < c.maxOp && n < c.l.size - 1 && n < LOGSIZE
    ensures At(c, tt, qs, n + 1, out, ps[p := InOp(ps[p].id, ps[p].used + 1)])
  {
    var s := ss[|ss| - 1];
    var b, data := Spare(c, n), s.disk[Spare(c, n)];
    assert b !in s.lh;
    var t := s.(lh := s.lh + [b], procs := ps[p := InOp(ps[p].id, ps[p].used + 1)], pinned := s.pinned[b := data],
                hist := s.hist + [Write(b, data)], ops := s.ops + [ps[p].id], now := s.now[b := data]);
    assert t.lh == Log.Absorb(s.lh, b);
    JoinedMore(c, ss, steps, LogWriteStep(p, b, data), t);
    tt, qs := ss + [t], steps + [LogWriteStep(p, b, data)];
  }

  /** Process p logs k more blocks. */
  lemma {:induction false} WriteMany(c: Config, ss: seq<State>, steps: seq<Step>, n: nat, out: int, ps: seq<Proc>,
                                     p: nat, k: nat)
    returns (tt: seq<State>, qs: seq<Step>)
    requires HasSpares(c) && At(c, ss, steps, n, out, ps) && out >= 1
    requires p < |ps| && ps[p].InOp? && ps[p].used + k <= c.maxOp && n + k <= c.l.size - 1 && n + k <= LOGSIZE
    ensures At(c, tt, qs, n + k, out, ps[p := InOp(ps[p].id, ps[p].used + k)])
    decreases k
  {
    if k == 0 {
      assert ps[p := InOp(ps[p].id, ps[p].used)] == ps;
      tt, qs := ss, steps;
    } else {
      tt, qs := WriteMore(c, ss, steps, n, out, ps, p);
      var rs := ps[p := InOp(ps[p].id, ps[p].used + 1)];
      tt, qs := WriteMany(c, tt, qs, n + 1, out, rs, p, k - 1);
      assert rs[p := InOp(rs[p].id, rs[p].used + (k - 1))] == ps[p := InOp(ps[p].id, ps[p].used + k)];
    }
  }

  /**
   * MAXOPBLOCKS blocks per operation, which param.h allows, can overrun the log: with one
   * operation waiting, two others of ten blocks each are admitted, and the first panics
   * when it adds its tenth.
   */
  lemma TenCanPanic(c: Config, s: State) returns (ss: seq<State>, steps: seq<Step>)
    requires HasSpares(c) && c.l.size == NLOG && c.maxOp >= MAXOPBLOCKS
    requires Initial(c, s) && s.procs == [Idle, Idle, Idle]
    ensures |ss| > 0 && PanicAt(c, ss, steps, |ss| - 1, 0, Spare(c, LOGSIZE - 1))
  {
    var a: nat, b: nat, d: nat;
    ss, steps := [s], [];
    ss, steps, a := BeginMore(c, ss, steps, 0, 0, s.procs, 0);
    ss, steps, b := BeginMore(c, ss, steps, 0, 1, s.procs[0 := InOp(a, 0)], 1);
    var ps := s.procs[0 := InOp(a, 0)][1 := InOp(b, 0)];
    ss, steps := WriteMany(c, ss, steps, 0, 2, ps, 1, 10);
    ss, steps := EndMore(c, ss, steps, 10, 2, ps[1 := InOp(b, 10)], 1);
    ps := ps[1 := InOp(b, 10)][1 := Idle];
    ss, steps, d := BeginMore(c, ss, steps, 10, 1, ps, 2);
    ps := ps[2 := InOp(d, 0)];
    ss, steps := WriteMany(c, ss, steps, 10, 2, ps, 2, 10);
    ps := ps[2 := InOp(d, 10)];
    ss, steps := WriteMany(c, ss, steps, 20, 2, ps, 0, 9);
  }

  /** Exactly when log_write is safe: iff no operation may add MAXOPBLOCKS new blocks. */
  lemma PanicFreeIff(c: Config, s: State)
    requires HasSpares(c) && c.l.size == NLOG && Initial(c, s) && s.procs == [Idle, Idle, Idle]
    ensures (forall ss, steps, i: nat, p: nat, b: nat :: !PanicAt(c, ss, steps, i, p, b)) <==> c.maxOp < MAXOPBLOCKS
  {
    if c.maxOp < MAXOPBLOCKS {
      forall ss, steps, i: nat, p: nat, b: nat ensures !PanicAt(c, ss, steps, i, p, b) {
        NineIsSafe(c, ss, steps, i, p, b);
      }
    } else {
      var ss, steps := TenCanPanic(c, s);
    }
  }
}
