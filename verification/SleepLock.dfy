/**
 * One sleep lock and any number of processes, step by step: the spin lock lk that guards
 * its fields, ptable.lock, and the process states that sleep and wakeup change.  A step is
 * what one process does between two points where another may run.
 */
module SleepLock {
  import opened Basics

  /** Where a process is. */
  datatype PC =
    | Outside
    // acquiresleep
    | WantLk                // acquire(&lk->lk), or again after sleep
    | Testing               // holds lk, about to test locked
    | Taken                 // holds lk, has set locked
    | Holding               // back from acquiresleep
    // sleep, called because locked was set
    | WantPtable            // holds lk
    | HasBoth               // holds lk and ptable.lock, about to release lk
    | Dozing                // holds ptable.lock, about to become SLEEPING
    | Switching             // SLEEPING, in sched, ptable.lock not yet released
    | Asleep                // SLEEPING
    | Woken                 // RUNNABLE
    | Resumed               // holds ptable.lock, about to release it
    // releasesleep
    | Releasing             // wants lk
    | Clearing              // holds lk, about to clear locked
    | WakeWant              // holds lk, locked cleared, wakeup wants ptable.lock
    | Waking                // holds lk and ptable.lock, about to run wakeup1
    | WakeDone              // holds lk and ptable.lock
    | Leaving               // holds lk

  datatype State = State(locked: bool, owner: Option<nat>, lk: Option<nat>, ptable: Option<nat>, pcs: seq<PC>)

  predicate HoldsLk(pc: PC) {
    pc == Testing || pc == Taken || pc == WantPtable || pc == HasBoth ||
    pc == Clearing || pc == WakeWant || pc == Waking || pc == WakeDone || pc == Leaving
  }

  predicate HoldsPtable(pc: PC) {
    pc == HasBoth || pc == Dozing || pc == Switching || pc == Resumed || pc == Waking || pc == WakeDone
  }

  predicate Sleeping(pc: PC) {
    pc == Switching || pc == Asleep
  }

  /** Between acquiresleep setting locked and releasesleep clearing it. */
  predicate Owns(pc: PC) {
    pc == Taken || pc == Holding || pc == Releasing || pc == Clearing
  }

  /** wakeup1: every sleeper on the lock becomes runnable. */
  function WakeAll(pcs: seq<PC>): (r: seq<PC>)
    ensures |r| == |pcs|
    ensures forall p :: 0 <= p < |pcs| ==> r[p] == if Sleeping(pcs[p]) then Woken else pcs[p]
  {
    seq(|pcs|, p requires 0 <= p < |pcs| => if Sleeping(pcs[p]) then Woken else pcs[p])
  }

  ghost predicate Moves(s: State, t: State, p: nat, from: PC, to: PC) {
    p < |s.pcs| && s.pcs[p] == from && t.pcs == s.pcs[p := to]
  }

  ghost predicate Keeps(s: State, t: State) {
    t.locked == s.locked && t.owner == s.owner
  }

  ghost predicate AcquireStep(s: State, t: State, p: nat) {
    || (Moves(s, t, p, Outside, WantLk) && Keeps(s, t) && t.lk == s.lk && t.ptable == s.ptable)
    || (Moves(s, t, p, WantLk, Testing) && Keeps(s, t) && s.lk == None && t.lk == Some(p) && t.ptable == s.ptable)
    || (Moves(s, t, p, Testing, Taken) && !s.locked && t.locked && t.owner == Some(p) && t.lk == s.lk && t.ptable == s.ptable)
    || (Moves(s, t, p, Taken, Holding) && Keeps(s, t) && t.lk == None && t.ptable == s.ptable)
    || (Moves(s, t, p, Testing, WantPtable) && s.locked && Keeps(s, t) && t.lk == s.lk && t.ptable == s.ptable)
  }

  ghost predicate SleepStep(s: State, t: State, p: nat) {
    || (Moves(s, t, p, WantPtable, HasBoth) && Keeps(s, t) && s.ptable == None && t.ptable == Some(p) && t.lk == s.lk)
    || (Moves(s, t, p, HasBoth, Dozing) && Keeps(s, t) && t.lk == None && t.ptable == s.ptable)
    || (Moves(s, t, p, Dozing, Switching) && Keeps(s, t) && t.lk == s.lk && t.ptable == s.ptable)
    || (Moves(s, t, p, Switching, Asleep) && Keeps(s, t) && t.lk == s.lk && t.ptable == None)
    || (Moves(s, t, p, Woken, Resumed) && Keeps(s, t) && s.ptable == None && t.ptable == Some(p) && t.lk == s.lk)
    || (Moves(s, t, p, Resumed, WantLk) && Keeps(s, t) && t.ptable == None && t.lk == s.lk)
    // kill, by any process, under ptable.lock
    || (Moves(s, t, p, Asleep, Woken) && Keeps(s, t) && s.ptable == None && t.lk == s.lk && t.ptable == s.ptable)
  }

  ghost predicate ReleaseStep(s: State, t: State, p: nat) {
    || (Moves(s, t, p, Holding, Releasing) && Keeps(s, t) && t.lk == s.lk && t.ptable == s.ptable)
    || (Moves(s, t, p, Releasing, Clearing) && Keeps(s, t) && s.lk == None && t.lk == Some(p) && t.ptable == s.ptable)
    || (Moves(s, t, p, Clearing, WakeWant) && !t.locked && t.owner == None && t.lk == s.lk && t.ptable == s.ptable)
    || (Moves(s, t, p, WakeWant, Waking) && Keeps(s, t) && s.ptable == None && t.ptable == Some(p) && t.lk == s.lk)
    || (Moves(s, t, p, WakeDone, Leaving) && Keeps(s, t) && t.ptable == None && t.lk == s.lk)
    || (Moves(s, t, p, Leaving, Outside) && Keeps(s, t) && t.lk == None && t.ptable == s.ptable)
  }

  ghost predicate WakeStep(s: State, t: State, p: nat) {
    p < |s.pcs| && s.pcs[p] == Waking && t.pcs == WakeAll(s.pcs)[p := WakeDone] &&
    Keeps(s, t) && t.lk == s.lk && t.ptable == s.ptable
  }

  /** A step of process p. */
  ghost predicate Next(s: State, t: State, p: nat) {
    AcquireStep(s, t, p) || SleepStep(s, t, p) || ReleaseStep(s, t, p) || WakeStep(s, t, p)
  }

  ghost predicate Initial(s: State) {
    !s.locked && s.owner == None && s.lk == None && s.ptable == None &&
    forall p :: 0 <= p < |s.pcs| ==> s.pcs[p] == Outside
  }

  /** A run: states joined by steps of the given processes. */
  ghost predicate Run(ss: seq<State>, who: seq<nat>) {
    && |ss| == |who| + 1 && Initial(ss[0])
    && forall i {:trigger who[i]} :: 0 <= i < |who| ==> Next(ss[i], ss[i + 1], who[i])
  }

  // ---- The invariant --------------------------------------------------------------

  ghost predicate LkHeld(s: State) {
    && (forall p {:trigger s.pcs[p]} :: 0 <= p < |s.pcs| ==> (HoldsLk(s.pcs[p]) <==> s.lk == Some(p)))
    && (s.lk.Some? ==> s.lk.value < |s.pcs|)
  }

  ghost predicate PtableHeld(s: State) {
    && (forall p {:trigger s.pcs[p]} :: 0 <= p < |s.pcs| ==> (HoldsPtable(s.pcs[p]) <==> s.ptable == Some(p)))
    && (s.ptable.Some? ==> s.ptable.value < |s.pcs|)
  }

  ghost predicate Owned(s: State) {
    && (forall p {:trigger s.pcs[p]} :: 0 <= p < |s.pcs| ==> (Owns(s.pcs[p]) <==> s.owner == Some(p)))
    && (s.owner.Some? ==> s.owner.value < |s.pcs|)
    && (s.locked <==> s.owner.Some?)
  }

  ghost predicate Locks(s: State) {
    LkHeld(s) && PtableHeld(s) && Owned(s)
  }

  /** A process inside releasesleep has cleared locked and not finished wakeup1. */
  predicate WakeupPending(s: State) {
    s.lk.Some? && s.lk.value < |s.pcs| && (s.pcs[s.lk.value] == WakeWant || s.pcs[s.lk.value] == Waking)
  }

  /** Whoever decided to sleep still has cause to, or will be woken. */
  ghost predicate NotLost(s: State) {
    forall p {:trigger s.pcs[p]} :: 0 <= p < |s.pcs| ==>
      && (s.pcs[p] == WantPtable || s.pcs[p] == HasBoth ==> s.locked)
      && (s.pcs[p] == Dozing || Sleeping(s.pcs[p]) ==> s.locked || WakeupPending(s))
  }

  ghost predicate Inv(s: State) {
    Locks(s) && NotLost(s)
  }

  /** Process p moves, taking and dropping the locks that its new place differs in. */
  ghost predicate LockMove(s: State, t: State, p: nat, from: PC, to: PC) {
    Moves(s, t, p, from, to) && LkMove(s, t, p, from, to) && PtableMove(s, t, p, from, to) && OwnerMove(s, t, p, from, to)
  }

  ghost predicate LkMove(s: State, t: State, p: nat, from: PC, to: PC) {
    && t.lk == (if HoldsLk(to) then Some(p) else if HoldsLk(from) then None else s.lk)
    && (HoldsLk(to) && !HoldsLk(from) ==> s.lk == None)
  }

  ghost predicate PtableMove(s: State, t: State, p: nat, from: PC, to: PC) {
    && t.ptable == (if HoldsPtable(to) then Some(p) else if HoldsPtable(from) then None else s.ptable)
    && (HoldsPtable(to) && !HoldsPtable(from) ==> s.ptable == None)
  }

  ghost predicate OwnerMove(s: State, t: State, p: nat, from: PC, to: PC) {
    && t.owner == (if Owns(to) then Some(p) else if Owns(from) then None else s.owner)
    && (Owns(to) && !Owns(from) ==> s.owner == None)
    && (t.locked <==> t.owner.Some?)
  }

  lemma LkKept(s: State, t: State, p: nat, from: PC, to: PC)
    requires LkHeld(s) && Moves(s, t, p, from, to) && LkMove(s, t, p, from, to)
    ensures LkHeld(t)
  {
  }

  lemma PtableKept(s: State, t: State, p: nat, from: PC, to: PC)
    requires PtableHeld(s) && Moves(s, t, p, from, to) && PtableMove(s, t, p, from, to)
    ensures PtableHeld(t)
  {
  }

  lemma OwnerKept(s: State, t: State, p: nat, from: PC, to: PC)
    requires Owned(s) && Moves(s, t, p, from, to) && OwnerMove(s, t, p, from, to)
    ensures Owned(t)
  {
  }

  lemma LocksKept(s: State, t: State, p: nat, from: PC, to: PC)
    requires Locks(s) && LockMove(s, t, p, from, to)
    ensures Locks(t)
  {
    LkKept(s, t, p, from, to);
    PtableKept(s, t, p, from, to);
    OwnerKept(s, t, p, from, to);
  }

  /** The others lose no cause to sleep, and p has one where it needs it. */
  lemma NotLostKept(s: State, t: State, p: nat, from: PC, to: PC)
    requires NotLost(s) && Moves(s, t, p, from, to)
    requires s.locked || WakeupPending(s) ==> t.locked || WakeupPending(t)
    requires s.locked && !t.locked ==> forall q {:trigger s.pcs[q]} :: 0 <= q < |s.pcs| ==> s.pcs[q] != WantPtable && s.pcs[q] != HasBoth
    requires to == WantPtable || to == HasBoth ==> t.locked
    requires to == Dozing || Sleeping(to) ==> t.locked || WakeupPending(t)
    ensures NotLost(t)
  {
  }

  /** A wakeup that is pending stays so while p, not the process that owes it, moves and lk stays as it is. */
  lemma PendingKept(s: State, t: State, p: nat, from: PC, to: PC)
    requires Moves(s, t, p, from, to) && t.locked == s.locked && t.lk == s.lk && from != WakeWant && from != Waking
    ensures s.locked || WakeupPending(s) ==> t.locked || WakeupPending(t)
  {
  }

  lemma AcquireKeeps(s: State, t: State, p: nat)
    requires Inv(s) && AcquireStep(s, t, p)
    ensures Inv(t)
  {
    var from, to := s.pcs[p], t.pcs[p];
    assert LockMove(s, t, p, from, to);
    LocksKept(s, t, p, from, to);
    NotLostKept(s, t, p, from, to);
  }

  lemma SleepLk(s: State, t: State, p: nat, from: PC, to: PC)
    requires LkHeld(s) && SleepStep(s, t, p) && from == s.pcs[p] && to == t.pcs[p]
    ensures LkMove(s, t, p, from, to)
  {
  }

  lemma SleepPtable(s: State, t: State, p: nat, from: PC, to: PC)
    requires PtableHeld(s) && SleepStep(s, t, p) && from == s.pcs[p] && to == t.pcs[p]
    ensures PtableMove(s, t, p, from, to)
  {
  }

  lemma SleepOwner(s: State, t: State, p: nat, from: PC, to: PC)
    requires Owned(s) && SleepStep(s, t, p) && from == s.pcs[p] && to == t.pcs[p]
    ensures OwnerMove(s, t, p, from, to)
  {
  }

  /** sleep releases lk only while locked holds, so that nobody's cause is lost. */
  lemma SleepPending(s: State, t: State, p: nat)
    requires Locks(s) && NotLost(s) && SleepStep(s, t, p)
    ensures s.locked || WakeupPending(s) ==> t.locked || WakeupPending(t)
  {
    if s.pcs[p] != HasBoth { PendingKept(s, t, p, s.pcs[p], t.pcs[p]); }
  }

  lemma SleepKeeps(s: State, t: State, p: nat)
    requires Inv(s) && SleepStep(s, t, p)
    ensures Inv(t)
  {
    var from, to := s.pcs[p], t.pcs[p];
    SleepLk(s, t, p, from, to);
    SleepPtable(s, t, p, from, to);
    SleepOwner(s, t, p, from, to);
    LocksKept(s, t, p, from, to);
    SleepPending(s, t, p);
    NotLostKept(s, t, p, from, to);
  }

  lemma ReleaseLk(s: State, t: State, p: nat, from: PC, to: PC)
    requires LkHeld(s) && ReleaseStep(s, t, p) && from == s.pcs[p] && to == t.pcs[p]
    ensures LkMove(s, t, p, from, to)
  {
  }

  lemma ReleasePtable(s: State, t: State, p: nat, from: PC, to: PC)
    requires PtableHeld(s) && ReleaseStep(s, t, p) && from == s.pcs[p] && to == t.pcs[p]
    ensures PtableMove(s, t, p, from, to)
  {
  }

  lemma ReleaseOwner(s: State, t: State, p: nat, from: PC, to: PC)
    requires Owned(s) && ReleaseStep(s, t, p) && from == s.pcs[p] && to == t.pcs[p]
    ensures OwnerMove(s, t, p, from, to)
  {
  }

  /** releasesleep clears locked under lk, and owes a wakeup from then on. */
  lemma ReleasePending(s: State, t: State, p: nat)
    requires Locks(s) && ReleaseStep(s, t, p)
    ensures s.locked || WakeupPending(s) ==> t.locked || WakeupPending(t)
    ensures s.locked && !t.locked ==> forall q {:trigger s.pcs[q]} :: 0 <= q < |s.pcs| ==> s.pcs[q] != WantPtable && s.pcs[q] != HasBoth
  {
  }

  lemma ReleaseKeeps(s: State, t: State, p: nat)
    requires Inv(s) && ReleaseStep(s, t, p)
    ensures Inv(t)
  {
    var from, to := s.pcs[p], t.pcs[p];
    ReleaseLk(s, t, p, from, to);
    ReleasePtable(s, t, p, from, to);
    ReleaseOwner(s, t, p, from, to);
    LocksKept(s, t, p, from, to);
    ReleasePending(s, t, p);
    NotLostKept(s, t, p, from, to);
  }

  lemma WakeKeeps(s: State, t: State, p: nat)
    requires Inv(s) && WakeStep(s, t, p)
    ensures Inv(t)
  {
  }

  lemma {:induction false} InvHolds(ss: seq<State>, who: seq<nat>, i: nat)
    requires Run(ss, who) && i < |ss|
    ensures Inv(ss[i])
    decreases i
  {
    if i > 0 {
      InvHolds(ss, who, i - 1);
      var s, t, p := ss[i - 1], ss[i], who[i - 1];
      if AcquireStep(s, t, p) { AcquireKeeps(s, t, p); }
      else if SleepStep(s, t, p) { SleepKeeps(s, t, p); }
      else if ReleaseStep(s, t, p) { ReleaseKeeps(s, t, p); }
      else { WakeKeeps(s, t, p); }
    }
  }

  /** At most one process is ever between acquiresleep and releasesleep. */
  lemma MutualExclusion(ss: seq<State>, who: seq<nat>, i: nat, p: nat, q: nat)
    requires Run(ss, who) && i < |ss| && p < |ss[i].pcs| && q < |ss[i].pcs|
    requires Owns(ss[i].pcs[p]) && Owns(ss[i].pcs[q])
    ensures p == q && ss[i].locked && ss[i].owner == Some(p)
  {
    InvHolds(ss, who, i);
  }

  /** If the lock is free while a process sleeps on it, a releaser is about to wake it. */
  lemma NoLostWakeup(ss: seq<State>, who: seq<nat>, i: nat, p: nat)
    requires Run(ss, who) && i < |ss| && p < |ss[i].pcs| && Sleeping(ss[i].pcs[p]) && !ss[i].locked
    ensures exists r: nat :: r < |ss[i].pcs| && (ss[i].pcs[r] == WakeWant || ss[i].pcs[r] == Waking)
  {
    InvHolds(ss, who, i);
    assert ss[i].pcs[ss[i].lk.value] == WakeWant || ss[i].pcs[ss[i].lk.value] == Waking;
  }

  // ---- Leaving acquiresleep, and getting there -----------------------------------------

  /** Inside acquiresleep. */
  predicate Acquiring(pc: PC) {
    pc == WantLk || pc == Testing || pc == Taken || pc == WantPtable || pc == HasBoth || pc == Dozing ||
    pc == Switching || pc == Asleep || pc == Woken || pc == Resumed
  }

  /** Inside releasesleep. */
  predicate Freeing(pc: PC) {
    pc == Releasing || pc == Clearing || pc == WakeWant || pc == Waking || pc == WakeDone || pc == Leaving
  }

  /** What a step may do to process p: it leaves acquiresleep only with the lock, and releasesleep only without it. */
  ghost predicate Proper(s: State, t: State, p: nat)
    requires p < |s.pcs| == |t.pcs|
  {
    && (Acquiring(s.pcs[p]) && !Acquiring(t.pcs[p]) ==> t.pcs[p] == Holding && t.owner == Some(p) && t.locked)
    && (Freeing(s.pcs[p]) && !Freeing(t.pcs[p]) ==> s.pcs[p] == Leaving && t.pcs[p] == Outside && t.owner != Some(p))
  }

  lemma MoveProper(s: State, t: State, q: nat, from: PC, to: PC, p: nat)
    requires Inv(t) && Moves(s, t, q, from, to) && p < |s.pcs|
    requires Acquiring(from) && !Acquiring(to) ==> to == Holding
    requires Freeing(from) && !Freeing(to) ==> from == Leaving && to == Outside
    ensures |t.pcs| == |s.pcs| && Proper(s, t, p)
  {
  }

  ghost predicate Shaped(s: State, t: State, q: nat) {
    && q < |s.pcs| == |t.pcs| && Moves(s, t, q, s.pcs[q], t.pcs[q])
    && (Acquiring(s.pcs[q]) && !Acquiring(t.pcs[q]) ==> t.pcs[q] == Holding)
    && (Freeing(s.pcs[q]) && !Freeing(t.pcs[q]) ==> s.pcs[q] == Leaving && t.pcs[q] == Outside)
  }

  lemma AcquireShaped(s: State, t: State, q: nat)
    requires AcquireStep(s, t, q)
    ensures Shaped(s, t, q)
  {
  }

  lemma SleepShaped(s: State, t: State, q: nat)
    requires SleepStep(s, t, q)
    ensures Shaped(s, t, q)
  {
  }

  lemma ReleaseShaped(s: State, t: State, q: nat)
    requires ReleaseStep(s, t, q)
    ensures Shaped(s, t, q)
  {
  }

  lemma WakeProper(s: State, t: State, q: nat, p: nat)
    requires WakeStep(s, t, q) && p < |s.pcs|
    ensures |t.pcs| == |s.pcs| && Proper(s, t, p)
  {
  }

  /**
   * Whoever comes out of acquiresleep has the lock, and whoever comes out of releasesleep has given it up: it is
   * either free or somebody else's.
   */
  lemma ReturnsWithLock(ss: seq<State>, who: seq<nat>, i: nat, p: nat)
    requires Run(ss, who) && i + 1 < |ss| && p < |ss[i].pcs|
    ensures |ss[i + 1].pcs| == |ss[i].pcs| && Proper(ss[i], ss[i + 1], p)
  {
    InvHolds(ss, who, i + 1);
    var s, t, q := ss[i], ss[i + 1], who[i];
    assert Next(s, t, q);
    if WakeStep(s, t, q) {
      WakeProper(s, t, q, p);
    } else {
      if AcquireStep(s, t, q) { AcquireShaped(s, t, q); }
      else if SleepStep(s, t, q) { SleepShaped(s, t, q); }
      else { ReleaseShaped(s, t, q); }
      MoveProper(s, t, q, s.pcs[q], t.pcs[q], p);
    }
  }

  /** Process p is asleep, or spins on a lock that another holds. */
  predicate Waits(s: State, p: nat)
    requires p < |s.pcs|
  {
    || s.pcs[p] == Asleep
    || ((s.pcs[p] == WantLk || s.pcs[p] == Releasing) && s.lk != None)
    || ((s.pcs[p] == WantPtable || s.pcs[p] == Woken || s.pcs[p] == WakeWant) && s.ptable != None)
  }

  /** The next step of a process that does not wait. */
  function Go(s: State, p: nat): State
    requires p < |s.pcs|
  {
    var pcs := s.pcs;
    match pcs[p]
    case Outside => s.(pcs := pcs[p := WantLk])
    case WantLk => s.(pcs := pcs[p := Testing], lk := Some(p))
    case Testing => if s.locked then s.(pcs := pcs[p := WantPtable]) else s.(pcs := pcs[p := Taken], locked := true, owner := Some(p))
    case Taken => s.(pcs := pcs[p := Holding], lk := None)
    case Holding => s.(pcs := pcs[p := Releasing])
    case WantPtable => s.(pcs := pcs[p := HasBoth], ptable := Some(p))
    case HasBoth => s.(pcs := pcs[p := Dozing], lk := None)
    case Dozing => s.(pcs := pcs[p := Switching])
    case Switching => s.(pcs := pcs[p := Asleep], ptable := None)
    case Asleep => s
    case Woken => s.(pcs := pcs[p := Resumed], ptable := Some(p))
    case Resumed => s.(pcs := pcs[p := WantLk], ptable := None)
    case Releasing => s.(pcs := pcs[p := Clearing], lk := Some(p))
    case Clearing => s.(pcs := pcs[p := WakeWant], locked := false, owner := None)
    case WakeWant => s.(pcs := pcs[p := Waking], ptable := Some(p))
    case Waking => s.(pcs := WakeAll(pcs)[p := WakeDone])
    case WakeDone => s.(pcs := pcs[p := Leaving], ptable := None)
    case Leaving => s.(pcs := pcs[p := Outside], lk := None)
  }

  lemma AcquireGoes(s: State, p: nat)
    requires p < |s.pcs| && !Waits(s, p) && s.pcs[p] in {Outside, WantLk, Testing, Taken}
    ensures AcquireStep(s, Go(s, p), p)
  {
  }

  lemma SleepGoes(s: State, p: nat)
    requires p < |s.pcs| && !Waits(s, p) && s.pcs[p] in {WantPtable, HasBoth, Dozing, Switching, Woken, Resumed}
    ensures SleepStep(s, Go(s, p), p)
  {
  }

  lemma ReleaseGoes(s: State, p: nat)
    requires p < |s.pcs| && !Waits(s, p) && s.pcs[p] in {Holding, Releasing, Clearing, WakeWant, WakeDone, Leaving}
    ensures ReleaseStep(s, Go(s, p), p)
  {
  }

  /** Nobody is stuck anywhere: a process that neither sleeps nor spins has a step. */
  lemma GoesOn(s: State, p: nat)
    requires p < |s.pcs| && !Waits(s, p)
    ensures Next(s, Go(s, p), p)
  {
    match s.pcs[p]
    case Outside | WantLk | Testing | Taken => AcquireGoes(s, p);
    case WantPtable | HasBoth | Dozing | Switching | Woken | Resumed => SleepGoes(s, p);
    case Waking =>
    case _ => ReleaseGoes(s, p);
  }

  /** One that does has none, except that a sleeper can be killed awake while nobody has ptable.lock. */
  lemma WaitsForOthers(s: State, t: State, p: nat)
    requires p < |s.pcs| && Waits(s, p)
    ensures Next(s, t, p) <==> s.pcs[p] == Asleep && s.ptable == None && t == s.(pcs := s.pcs[p := Woken])
  {
    if s.pcs[p] == Asleep && s.ptable == None && t == s.(pcs := s.pcs[p := Woken]) { assert SleepStep(s, t, p); }
  }

  /** And somebody always can: there is no deadlock. */
  lemma SomeoneMoves(ss: seq<State>, who: seq<nat>, i: nat) returns (p: nat)
    requires Run(ss, who) && i < |ss| && ss[i].pcs != []
    ensures p < |ss[i].pcs| && !Waits(ss[i], p) && Next(ss[i], Go(ss[i], p), p)
  {
    InvHolds(ss, who, i);
    var s := ss[i];
    if s.ptable.Some? {
      p := s.ptable.value;
    } else if s.lk.Some? {
      p := s.lk.value;
    } else if s.locked {
      p := s.owner.value;
    } else {
      p := 0;
    }
    assert HoldsPtable(s.pcs[p]) || HoldsLk(s.pcs[p]) || Owns(s.pcs[p]) || s.pcs[p] != Asleep;
    GoesOn(s, p);
  }

  // ---- Everybody can get the lock -------------------------------------------------------

  ghost function Now(ss: seq<State>): State
    requires |ss| > 0
  {
    ss[|ss| - 1]
  }

  /** A run that goes on from ss. */
  ghost predicate Later(ss: seq<State>, tt: seq<State>, who: seq<nat>) {
    Run(tt, who) && 0 < |ss| <= |tt| && tt[..|ss|] == ss && |Now(tt).pcs| == |Now(ss).pcs|
  }

  /** Process q takes its next step. */
  lemma Solo(ss: seq<State>, who: seq<nat>, q: nat) returns (tt: seq<State>, ww: seq<nat>)
    requires Run(ss, who) && q < |Now(ss).pcs| && !Waits(Now(ss), q)
    ensures Later(ss, tt, ww) && Now(tt) == Go(Now(ss), q) && Inv(Now(tt))
  {
    GoesOn(Now(ss), q);
    tt, ww := ss + [Go(Now(ss), q)], who + [q];
    forall i | 0 <= i < |ww| ensures Next(tt[i], tt[i + 1], ww[i]) {
      if i < |who| { assert Next(ss[i], ss[i + 1], who[i]); }
    }
    InvHolds(tt, ww, |tt| - 1);
  }

  /** The steps a process takes until it has no spin lock, or has come back from the lock. */
  function Steps(pc: PC): nat {
    match pc
    case Testing => 5
    case WantPtable => 4
    case HasBoth => 3
    case Dozing => 2
    case Switching => 1
    case Taken => 1
    case Resumed => 1
    case Holding => 7
    case Releasing => 6
    case Clearing => 5
    case WakeWant => 4
    case Waking => 3
    case WakeDone => 2
    case Leaving => 1
    case _ => 0
  }

  ghost function StepsOf(s: State, h: Option<nat>): nat {
    if h.Some? && h.value < |s.pcs| then Steps(s.pcs[h.value]) else 0
  }

  /** Until nobody holds a spin lock. */
  ghost function Work(s: State): nat {
    StepsOf(s, s.lk) + if s.ptable == s.lk then 0 else StepsOf(s, s.ptable)
  }

  /** Process p is on its way to the lock, or has it. */
  ghost predicate Coming(s: State, p: nat) {
    p < |s.pcs| && (Acquiring(s.pcs[p]) || s.pcs[p] == Holding)
  }

  lemma PtableGoes(s: State, q: nat)
    requires Inv(s) && s.ptable == Some(q)
    ensures q < |s.pcs| && !Waits(s, q) && HoldsPtable(s.pcs[q]) && Work(Go(s, q)) < Work(s)
  {
    assert HoldsPtable(s.pcs[q]) && (HoldsLk(s.pcs[q]) <==> s.lk == Some(q));
  }

  lemma LkGoes(s: State, q: nat)
    requires Inv(s) && s.ptable == None && s.lk == Some(q)
    ensures q < |s.pcs| && !Waits(s, q) && HoldsLk(s.pcs[q]) && Work(Go(s, q)) < Work(s)
  {
    assert HoldsLk(s.pcs[q]) && !HoldsPtable(s.pcs[q]);
  }

  lemma ComingKept(s: State, q: nat, p: nat)
    requires q < |s.pcs| && (HoldsLk(s.pcs[q]) || HoldsPtable(s.pcs[q])) && Coming(s, p)
    ensures Coming(Go(s, q), p)
  {
  }

  /** The holders of spin locks go on until nobody has one. */
  lemma {:induction false} Drain(ss: seq<State>, who: seq<nat>, p: nat) returns (tt: seq<State>, ww: seq<nat>)
    requires Run(ss, who) && Coming(Now(ss), p)
    ensures Later(ss, tt, ww) && Coming(Now(tt), p) && Now(tt).lk == None && Now(tt).ptable == None
    decreases Work(Now(ss))
  {
    tt, ww := ss, who;
    InvHolds(ss, who, |ss| - 1);
    if Now(ss).lk != None || Now(ss).ptable != None {
      var q: nat;
      if Now(ss).ptable != None {
        q := Now(ss).ptable.value;
        PtableGoes(Now(ss), q);
      } else {
        q := Now(ss).lk.value;
        LkGoes(Now(ss), q);
      }
      ComingKept(Now(ss), q, p);
      var uu, vv := Solo(ss, who, q);
      tt, ww := Drain(uu, vv, p);
    }
  }

  /** Only q has, or may take, a spin lock. */
  ghost predicate Alone(s: State, q: nat) {
    Inv(s) && q < |s.pcs| && (s.lk == None || s.lk == Some(q)) && (s.ptable == None || s.ptable == Some(q))
  }

  /** A process that waits for nothing but the sleep lock. */
  ghost predicate Aside(s: State, p: nat) {
    p < |s.pcs| && (s.pcs[p] == WantLk || s.pcs[p] == Asleep || s.pcs[p] == Woken)
  }

  /** The owner lets go, and wakes whoever sleeps. */
  lemma {:induction false} LetGo(ss: seq<State>, who: seq<nat>, q: nat, p: nat) returns (tt: seq<State>, ww: seq<nat>)
    requires Run(ss, who) && Alone(Now(ss), q) && p != q && Aside(Now(ss), p)
    requires Now(ss).pcs[q] == Holding || Freeing(Now(ss).pcs[q]) || Now(ss).pcs[q] == Outside
    requires Owns(Now(ss).pcs[q]) || !Now(ss).locked
    ensures Later(ss, tt, ww) && Aside(Now(tt), p) && Inv(Now(tt))
    ensures Now(tt).lk == None && Now(tt).ptable == None && !Now(tt).locked
    decreases Steps(Now(ss).pcs[q])
  {
    tt, ww := ss, who;
    var s := Now(ss);
    assert (HoldsLk(s.pcs[q]) <==> s.lk == Some(q)) && (HoldsPtable(s.pcs[q]) <==> s.ptable == Some(q));
    if s.pcs[q] != Outside {
      var uu, vv := Solo(ss, who, q);
      tt, ww := LetGo(uu, vv, q, p);
    }
  }

  function ToGo(pc: PC): nat {
    match pc
    case Woken => 5
    case Resumed => 4
    case WantLk => 3
    case Testing => 2
    case Taken => 1
    case _ => 0
  }

  /** With the lock free and nobody in the way, p takes it. */
  lemma {:induction false} TakeIt(ss: seq<State>, who: seq<nat>, p: nat) returns (tt: seq<State>, ww: seq<nat>)
    requires Run(ss, who) && Alone(Now(ss), p) && Now(ss).pcs[p] in {Woken, Resumed, WantLk, Testing, Taken, Holding}
    requires Owns(Now(ss).pcs[p]) || !Now(ss).locked
    ensures Later(ss, tt, ww) && p < |Now(tt).pcs| && Now(tt).pcs[p] == Holding
    decreases ToGo(Now(ss).pcs[p])
  {
    tt, ww := ss, who;
    var s := Now(ss);
    assert (HoldsLk(s.pcs[p]) <==> s.lk == Some(p)) && (HoldsPtable(s.pcs[p]) <==> s.ptable == Some(p));
    if s.pcs[p] != Holding {
      var uu, vv := Solo(ss, who, p);
      tt, ww := TakeIt(uu, vv, p);
    }
  }

  lemma LaterStill(ss: seq<State>, tt: seq<State>, ww: seq<nat>, uu: seq<State>, vv: seq<nat>)
    requires Later(ss, tt, ww) && Later(tt, uu, vv)
    ensures Later(ss, uu, vv)
  {
    assert ss == tt[..|ss|] == uu[..|tt|][..|ss|] == uu[..|ss|];
  }

  /** From a state in which nobody has a spin lock. */
  lemma FromQuiet(ss: seq<State>, who: seq<nat>, p: nat) returns (tt: seq<State>, ww: seq<nat>)
    requires Run(ss, who) && Inv(Now(ss)) && Coming(Now(ss), p) && Now(ss).lk == None && Now(ss).ptable == None
    ensures Later(ss, tt, ww) && p < |Now(tt).pcs| && Now(tt).pcs[p] == Holding
  {
    var s := Now(ss);
    tt, ww := ss, who;
    assert !HoldsLk(s.pcs[p]) && !HoldsPtable(s.pcs[p]);
    if s.pcs[p] != Holding {
      if s.locked {
        var q := s.owner.value;
        assert Owns(s.pcs[q]) && !HoldsLk(s.pcs[q]);
        tt, ww := LetGo(ss, who, q, p);
      }
      NotAsleep(Now(tt), p);
      var uu, vv := TakeIt(tt, ww, p);
      LaterStill(ss, tt, ww, uu, vv);
      tt, ww := uu, vv;
    }
  }

  lemma NotAsleep(s: State, p: nat)
    requires Inv(s) && s.lk == None && !s.locked && p < |s.pcs|
    ensures s.pcs[p] != Asleep
  {
  }

  /** At every point of every run, each process inside acquiresleep can still come back with the lock. */
  lemma CanAcquire(ss: seq<State>, who: seq<nat>, p: nat) returns (tt: seq<State>, ww: seq<nat>)
    requires Run(ss, who) && p < |Now(ss).pcs| && Acquiring(Now(ss).pcs[p])
    ensures Later(ss, tt, ww) && p < |Now(tt).pcs| && Now(tt).pcs[p] == Holding && Now(tt).owner == Some(p)
  {
    var uu, vv := Drain(ss, who, p);
    InvHolds(uu, vv, |uu| - 1);
    tt, ww := FromQuiet(uu, vv, p);
    LaterStill(ss, uu, vv, tt, ww);
    MutualExclusion(tt, ww, |tt| - 1, p, p);
  }

  // ---- The process table -------------------------------------------------------------

  datatype Procstate = UNUSED | EMBRYO | SLEEPING | RUNNABLE | RUNNING | ZOMBIE

  class Ptable {
    const state: array<Procstate>
    const chan: array<nat>

    ghost predicate Valid() {
      state.Length == chan.Length && state as object != chan
    }

    constructor (n: nat)
      ensures Valid() && fresh(state) && fresh(chan) && state.Length == n
    {
      state, chan := new Procstate[n](i => UNUSED), new nat[n](i => 0);
    }

    /** Wake up all processes sleeping on c, and no other. */
    method Wakeup1(c: nat)
      requires Valid()
      modifies state
      ensures forall p :: 0 <= p < state.Length ==>
                state[p] == if old(state[p]) == SLEEPING && chan[p] == c then RUNNABLE else old(state[p])
    {
      for p := 0 to state.Length
        invariant forall q :: 0 <= q < state.Length ==>
          state[q] == if q < p && old(state[q]) == SLEEPING && chan[q] == c then RUNNABLE else old(state[q])
      {
        if state[p] == SLEEPING && chan[p] == c {
          state[p] := RUNNABLE;
        }
      }
    }
  }
}
