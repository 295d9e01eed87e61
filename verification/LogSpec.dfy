/**
 * The redo log on disk: what a commit and a recovery write, and what survives a
 * crash between any two of those writes.
 */
module LogSpec {
  import opened Disk
  import opened Seqs

  /** MAXOPBLOCKS and LOGSIZE. */
  const MAXOPBLOCKS: nat := 10
  const LOGSIZE: nat := 30

  /** Where the log lives: its header at start, its data blocks after it. */
  datatype Layout = Layout(start: nat, size: nat)

  ghost predicate InLog(l: Layout, b: nat) {
    l.start <= b < l.start + l.size
  }

  ghost predicate Roomy(l: Layout, d: Image) {
    1 <= l.size && l.start + l.size <= |d|
  }

  ghost predicate Home(l: Layout, size: nat, b: nat) {
    b < size && !InLog(l, b)
  }

  /** A list of home block numbers that the on-disk log can hold. */
  ghost predicate Loggable(l: Layout, size: nat, bs: seq<nat>) {
    && |bs| <= LOGSIZE
    && |bs| <= l.size - 1
    && (forall i :: 0 <= i < |bs| ==> Home(l, size, bs[i]))
    && Distinct(bs)
  }

  // The header block is struct logheader: the count, then that many block numbers.

  ghost predicate Heads(h: Block, bs: seq<nat>) {
    |bs| <= LOGSIZE && h[0] == |bs| && forall i :: 0 <= i < |bs| ==> h[1 + i] == bs[i]
  }

  /** The block numbers of a header, which must be in range. */
  ghost predicate WellFormed(l: Layout, d: Image, bs: seq<nat>) {
    Roomy(l, d) && Loggable(l, |d|, bs) && Heads(d[l.start], bs)
  }

  ghost predicate Clean(l: Layout, d: Image) {
    Roomy(l, d) && d[l.start][0] == 0
  }

  /** write_head: only the count and the entries in use are overwritten. */
  ghost predicate Overwrites(h: Block, bs: seq<nat>, r: Block) {
    Heads(r, bs) && forall i :: |bs| < i < BWORDS ==> r[i] == h[i]
  }

  /** ws is what recover_from_log writes, in order, when the header lists bs. */
  ghost predicate RecoverWrites(l: Layout, d: Image, bs: seq<nat>, ws: seq<Write>)
    requires Roomy(l, d) && |bs| < l.size
  {
    && |ws| == |bs| + 1
    && (forall i {:trigger ws[i]} :: 0 <= i < |bs| ==> ws[i] == Write(bs[i], d[l.start + 1 + i]))
    && ws[|bs|] == Write(l.start, d[l.start][0 := 0])
  }

  /** ws is what commit writes, in order, for logged blocks bs with cached contents data. */
  ghost predicate CommitWrites(l: Layout, h: Block, bs: seq<nat>, data: seq<Block>, ws: seq<Write>)
    requires |bs| == |data|
  {
    && |ws| == 2 * |bs| + 2
    && (forall i {:trigger ws[i]} :: 0 <= i < |bs| ==> ws[i] == Write(l.start + 1 + i, data[i]))
    && ws[|bs|].blockno == l.start && Overwrites(h, bs, ws[|bs|].data)
    && (forall i {:trigger ws[i]} :: |bs| < i <= 2 * |bs| ==> ws[i] == Write(bs[i - |bs| - 1], data[i - |bs| - 1]))
    && ws[2 * |bs| + 1] == Write(l.start, ws[|bs|].data[0 := 0])
  }

  /** From number k on, ws copies the log blocks of d to the home blocks bs. */
  ghost predicate Installs(l: Layout, d: Image, bs: seq<nat>, ws: seq<Write>, k: nat) {
    && Roomy(l, d) && |bs| < l.size && k + |bs| <= |ws|
    && forall i {:trigger ws[i]} :: k <= i < k + |bs| ==> ws[i] == Write(bs[i - k], d[l.start + 1 + i - k])
  }

  lemma OverwritesUnique(h: Block, bs: seq<nat>, r: Block, q: Block)
    requires Overwrites(h, bs, r) && Overwrites(h, bs, q)
    ensures r == q
  {
    forall i | 0 <= i < BWORDS ensures r[i] == q[i] {
      if 0 < i <= |bs| { assert r[1 + (i - 1)] == bs[i - 1]; assert q[1 + (i - 1)] == bs[i - 1]; }
    }
  }

  lemma CommitWritesExist(l: Layout, h: Block, bs: seq<nat>, data: seq<Block>) returns (ws: seq<Write>)
    requires |bs| == |data| <= LOGSIZE
    ensures CommitWrites(l, h, bs, data, ws)
  {
    var head := seq(BWORDS, i requires 0 <= i < BWORDS => if i == 0 then |bs| else if i <= |bs| then bs[i - 1] else h[i]);
    ws := seq(2 * |bs| + 2, i requires 0 <= i < 2 * |bs| + 2 =>
                if i < |bs| then Write(l.start + 1 + i, data[i])
                else if i == |bs| then Write(l.start, head)
                else if i <= 2 * |bs| then Write(bs[i - |bs| - 1], data[i - |bs| - 1])
                else Write(l.start, head[0 := 0]));
  }

  lemma RecoverWritesExist(l: Layout, d: Image, bs: seq<nat>) returns (ws: seq<Write>)
    requires Roomy(l, d) && |bs| < l.size
    ensures RecoverWrites(l, d, bs, ws)
  {
    ws := seq(|bs| + 1, i requires 0 <= i <= |bs| =>
                if i < |bs| then Write(bs[i], d[l.start + 1 + i]) else Write(l.start, d[l.start][0 := 0]));
  }

  /** d and e agree outside the log. */
  ghost predicate SameHomes(l: Layout, d: Image, e: Image) {
    |d| == |e| && forall b: nat :: Home(l, |d|, b) ==> d[b] == e[b]
  }

  /** e is d with the blocks bs replaced by data, outside the log. */
  ghost predicate Updates(l: Layout, d: Image, bs: seq<nat>, data: seq<Block>, e: Image) {
    && |d| == |e| && |bs| == |data|
    && (forall b: nat :: Home(l, |d|, b) && b !in bs ==> e[b] == d[b])
    && (forall i :: 0 <= i < |bs| ==> bs[i] < |e| && e[bs[i]] == data[i])
  }

  // ---- Recovery -------------------------------------------------------------

  lemma WritesFit(l: Layout, d: Image, bs: seq<nat>, ws: seq<Write>)
    requires WellFormed(l, d, bs) && RecoverWrites(l, d, bs, ws)
    ensures Fits(d, ws)
  {
    forall i | 0 <= i < |ws| ensures ws[i].blockno < |d| {
      if i < |bs| { assert Home(l, |d|, bs[i]); }
    }
  }

  /** A block is written by recovery at most once. */
  lemma RecoverLast(l: Layout, d: Image, bs: seq<nat>, ws: seq<Write>, e: Image, i: nat)
    requires WellFormed(l, d, bs) && RecoverWrites(l, d, bs, ws) && i < |ws|
    requires |e| == |d| && Fits(e, ws)
    ensures Apply(e, ws, |ws|)[ws[i].blockno] == ws[i].data
  {
    forall j | i < j < |ws| ensures ws[j].blockno != ws[i].blockno {
      assert Home(l, |d|, bs[i]);
      if j < |bs| { assert Apart(bs, i, j); }
    }
    ApplyLast(e, ws, |ws|, i);
  }

  /** Recovery installs the logged data, leaves other home blocks alone and clears the log. */
  lemma RecoverInstalls(l: Layout, d: Image, bs: seq<nat>, ws: seq<Write>, data: seq<Block>)
    requires WellFormed(l, d, bs) && RecoverWrites(l, d, bs, ws) && Fits(d, ws)
    requires |data| == |bs| && forall i :: 0 <= i < |bs| ==> data[i] == d[l.start + 1 + i]
    ensures Clean(l, Apply(d, ws, |ws|))
    ensures Updates(l, d, bs, data, Apply(d, ws, |ws|))
  {
    RecoverLast(l, d, bs, ws, d, |bs|);
    forall b: nat | Home(l, |d|, b) && b !in bs ensures Apply(d, ws, |ws|)[b] == d[b] {
      ApplyUntouched(d, ws, |ws|, b);
    }
    forall i | 0 <= i < |bs| ensures bs[i] < |d| && Apply(d, ws, |ws|)[bs[i]] == data[i] {
      assert Home(l, |d|, bs[i]);
      RecoverLast(l, d, bs, ws, d, i);
    }
  }

  /** An interrupted recovery has not touched the log. */
  lemma RecoverInterrupted(l: Layout, d: Image, bs: seq<nat>, ws: seq<Write>, j: nat)
    requires WellFormed(l, d, bs) && RecoverWrites(l, d, bs, ws) && Fits(d, ws) && j <= |bs|
    ensures WellFormed(l, Apply(d, ws, j), bs) && RecoverWrites(l, Apply(d, ws, j), bs, ws)
  {
    var e := Apply(d, ws, j);
    forall b: nat | InLog(l, b) ensures e[b] == d[b] {
      forall i | 0 <= i < j ensures ws[i].blockno != b { assert Home(l, |d|, bs[i]); }
      ApplyUntouched(d, ws, j, b);
    }
    forall i | 0 <= i < |bs| ensures ws[i] == Write(bs[i], e[l.start + 1 + i]) { assert InLog(l, l.start + 1 + i); }
    assert InLog(l, l.start);
  }

  /** Redoing all the writes after j of them gives what they give. */
  lemma RecoverRedone(l: Layout, d: Image, bs: seq<nat>, ws: seq<Write>, j: nat)
    requires WellFormed(l, d, bs) && RecoverWrites(l, d, bs, ws) && Fits(d, ws) && j <= |ws|
    ensures Apply(Apply(d, ws, j), ws, |ws|) == Apply(d, ws, |ws|)
  {
    var e := Apply(d, ws, j);
    forall b | 0 <= b < |d| ensures Apply(e, ws, |ws|)[b] == Apply(d, ws, |ws|)[b] {
      if i :| 0 <= i < |ws| && ws[i].blockno == b {
        RecoverLast(l, d, bs, ws, d, i);
        RecoverLast(l, d, bs, ws, e, i);
      } else {
        ApplyUntouched(d, ws, |ws|, b);
        ApplyUntouched(e, ws, |ws|, b);
        ApplyUntouched(d, ws, j, b);
      }
    }
  }

  /** The first j writes of a recovery lead from d to e. */
  ghost predicate RecoverRun(l: Layout, d: Image, bs: seq<nat>, ws: seq<Write>, j: nat, e: Image) {
    && WellFormed(l, d, bs) && RecoverWrites(l, d, bs, ws) && Fits(d, ws)
    && j <= |ws| && e == Apply(d, ws, j)
  }

  /** A recovery attempt, possibly cut short, leads from d to e. */
  ghost predicate Attempt(l: Layout, d: Image, e: Image) {
    exists bs: seq<nat>, ws: seq<Write>, j: nat :: RecoverRun(l, d, bs, ws, j, e)
  }

  ghost predicate RecoverAll(l: Layout, d: Image, bs: seq<nat>, ws: seq<Write>, e: Image) {
    RecoverRun(l, d, bs, ws, |ws|, e)
  }

  /** A complete recovery leads from d to e. */
  ghost predicate Recovers(l: Layout, d: Image, e: Image) {
    exists bs: seq<nat>, ws: seq<Write> :: RecoverAll(l, d, bs, ws, e)
  }

  lemma HeadsUnique(h: Block, bs: seq<nat>, cs: seq<nat>)
    requires Heads(h, bs) && Heads(h, cs)
    ensures bs == cs
  {
  }

  lemma RecoverWritesUnique(l: Layout, d: Image, bs: seq<nat>, ws: seq<Write>, vs: seq<Write>)
    requires Roomy(l, d) && |bs| < l.size && RecoverWrites(l, d, bs, ws) && RecoverWrites(l, d, bs, vs)
    ensures ws == vs
  {
    assert forall i :: 0 <= i < |ws| ==> ws[i] == vs[i];
  }

  lemma RecoverClean(l: Layout, d: Image, e: Image)
    requires Clean(l, d) && Recovers(l, d, e)
    ensures e == d
  {
    var bs, ws :| RecoverAll(l, d, bs, ws, e);
    assert Apply(d, ws, 0) == d;
    assert d[l.start][0 := 0] == d[l.start];
  }

  /** After an attempt cut short anywhere, a complete recovery ends where it would have from the start. */
  lemma RecoverResumes(l: Layout, d: Image, e: Image, r: Image)
    requires Attempt(l, d, e) && Recovers(l, e, r)
    ensures Recovers(l, d, r)
  {
    var bs: seq<nat>, ws: seq<Write>, j: nat :| RecoverRun(l, d, bs, ws, j, e);
    if j <= |bs| {
      var cs, vs :| RecoverAll(l, e, cs, vs, r);
      RecoverInterrupted(l, d, bs, ws, j);
      HeadsUnique(e[l.start], bs, cs);
      RecoverWritesUnique(l, e, bs, ws, vs);
      RecoverRedone(l, d, bs, ws, j);
      assert RecoverAll(l, d, bs, ws, r);
    } else {
      RecoverLast(l, d, bs, ws, d, |bs|);
      RecoverClean(l, e, r);
      assert RecoverAll(l, d, bs, ws, r);
    }
  }

  ghost predicate Attempts(l: Layout, ds: seq<Image>) {
    forall i :: 0 <= i < |ds| - 1 ==> Attempt(l, ds[i], ds[i + 1])
  }

  /** Any number of interrupted recoveries followed by a complete one is one complete recovery. */
  lemma {:induction false} RecoverAfterCrashes(l: Layout, ds: seq<Image>, k: nat, r: Image)
    requires k < |ds| && Attempts(l, ds) && Recovers(l, ds[k], r)
    ensures Recovers(l, ds[0], r)
    decreases k
  {
    if k > 0 {
      assert Attempt(l, ds[k - 1], ds[k - 1 + 1]);
      RecoverResumes(l, ds[k - 1], ds[k], r);
      RecoverAfterCrashes(l, ds, k - 1, r);
    }
  }

  // ---- Commit ---------------------------------------------------------------

  ghost predicate CommitRun(l: Layout, d: Image, bs: seq<nat>, data: seq<Block>, ws: seq<Write>) {
    && Clean(l, d) && Loggable(l, |d|, bs) && |bs| == |data|
    && CommitWrites(l, d[l.start], bs, data, ws) && Fits(d, ws)
  }

  lemma CommitFits(l: Layout, d: Image, bs: seq<nat>, data: seq<Block>, ws: seq<Write>)
    requires Clean(l, d) && Loggable(l, |d|, bs) && |bs| == |data|
    requires CommitWrites(l, d[l.start], bs, data, ws)
    ensures Fits(d, ws)
  {
    forall j | 0 <= j < |ws| ensures ws[j].blockno < |d| {
      if |bs| < j < |ws| - 1 {
        assert Home(l, |d|, bs[j - |bs| - 1]);
      }
    }
  }

  /** Before the header is written: the log is empty and the home blocks are old. */
  lemma CommitBefore(l: Layout, d: Image, bs: seq<nat>, data: seq<Block>, ws: seq<Write>, k: nat)
    requires CommitRun(l, d, bs, data, ws) && k <= |bs|
    ensures Clean(l, Apply(d, ws, k)) && SameHomes(l, Apply(d, ws, k), d)
  {
    ApplyUntouched(d, ws, k, l.start);
    forall b: nat | Home(l, |d|, b) ensures Apply(d, ws, k)[b] == d[b] {
      ApplyUntouched(d, ws, k, b);
    }
  }

  /** While the header stands, the log holds the whole transaction. */
  lemma CommitLogged(l: Layout, d: Image, bs: seq<nat>, data: seq<Block>, ws: seq<Write>, k: nat)
    requires CommitRun(l, d, bs, data, ws) && |bs| < k < |ws|
    ensures Apply(d, ws, k)[l.start] == ws[|bs|].data && WellFormed(l, Apply(d, ws, k), bs)
    ensures forall i :: 0 <= i < |bs| ==> data[i] == Apply(d, ws, k)[l.start + 1 + i]
  {
    CommitHomeWrites(l, d, bs, data, ws);
    ApplyLast(d, ws, k, |bs|);
    forall i | 0 <= i < |bs| ensures data[i] == Apply(d, ws, k)[l.start + 1 + i] {
      assert ws[i].blockno == l.start + 1 + i;
      ApplyLast(d, ws, k, i);
    }
  }

  /** After the header, the writes left are what install_trans will read in the log. */
  lemma CommitInstalls(l: Layout, d: Image, bs: seq<nat>, data: seq<Block>, ws: seq<Write>)
    requires CommitRun(l, d, bs, data, ws)
    ensures var k := |bs| + 1;
            var e := Apply(d, ws, k);
            && e[l.start] == ws[|bs|].data
            && Installs(l, e, bs, ws, k)
  {
    CommitLogged(l, d, bs, data, ws, |bs| + 1);
  }

  /** Between its two header writes a commit writes each block of bs, and only home blocks. */
  lemma CommitHomeWrites(l: Layout, d: Image, bs: seq<nat>, data: seq<Block>, ws: seq<Write>)
    requires CommitRun(l, d, bs, data, ws)
    ensures forall j :: |bs| < j < |ws| - 1 ==> ws[j].blockno == bs[j - |bs| - 1] && Home(l, |d|, ws[j].blockno)
  {
    forall j | |bs| < j < |ws| - 1
      ensures ws[j].blockno == bs[j - |bs| - 1] && Home(l, |d|, ws[j].blockno)
    {
      assert Home(l, |d|, bs[j - |bs| - 1]);
    }
  }

  lemma CommitUntouched(l: Layout, d: Image, bs: seq<nat>, data: seq<Block>, ws: seq<Write>, k: nat, b: nat)
    requires CommitRun(l, d, bs, data, ws) && k <= |ws| && Home(l, |d|, b) && b !in bs
    ensures Apply(d, ws, k)[b] == d[b]
  {
    CommitHomeWrites(l, d, bs, data, ws);
    ApplyUntouched(d, ws, k, b);
  }

  /** A finished commit has cleared the log and put every block home. */
  lemma CommitFinished(l: Layout, d: Image, bs: seq<nat>, data: seq<Block>, ws: seq<Write>)
    requires CommitRun(l, d, bs, data, ws)
    ensures Clean(l, Apply(d, ws, |ws|)) && Updates(l, d, bs, data, Apply(d, ws, |ws|))
  {
    CommitHomeWrites(l, d, bs, data, ws);
    forall b: nat | Home(l, |d|, b) && b !in bs ensures Apply(d, ws, |ws|)[b] == d[b] {
      CommitUntouched(l, d, bs, data, ws, |ws|, b);
    }
    forall i | 0 <= i < |bs| ensures bs[i] < |d| && Apply(d, ws, |ws|)[bs[i]] == data[i] {
      assert Home(l, |d|, bs[i]) && ws[|bs| + 1 + i].blockno == bs[i];
      forall j | |bs| + 1 + i < j < |ws| ensures ws[j].blockno != bs[i] {
        if j < |ws| - 1 { assert Apart(bs, i, j - |bs| - 1); }
      }
      ApplyLast(d, ws, |ws|, |bs| + 1 + i);
    }
  }

  /** From the header write to the erasure, recovery installs the whole transaction. */
  lemma RecoverLogged(l: Layout, d: Image, bs: seq<nat>, data: seq<Block>, ws: seq<Write>, k: nat, r: Image)
    requires CommitRun(l, d, bs, data, ws) && |bs| < k < |ws| && Recovers(l, Apply(d, ws, k), r)
    ensures Clean(l, r) && Updates(l, d, bs, data, r)
  {
    var e := Apply(d, ws, k);
    var cs, vs :| RecoverAll(l, e, cs, vs, r);
    CommitLogged(l, d, bs, data, ws, k);
    HeadsUnique(e[l.start], bs, cs);
    RecoverInstalls(l, e, bs, vs, data);
    forall b: nat | Home(l, |d|, b) && b !in bs ensures r[b] == d[b] {
      CommitUntouched(l, d, bs, data, ws, k, b);
    }
  }

  /**
   * Crash atomicity.  Stop a commit after any k of its block writes, then recover, with
   * any number of recoveries cut short on the way: outside the log the disk is all old if
   * the header write (number |bs|) was not reached, and all new if it was.
   */
  lemma CrashAtomicity(l: Layout, d: Image, bs: seq<nat>, data: seq<Block>, ws: seq<Write>, k: nat,
                       ds: seq<Image>, r: Image)
    requires CommitRun(l, d, bs, data, ws) && k <= |ws|
    requires |ds| > 0 && ds[0] == Apply(d, ws, k) && Attempts(l, ds) && Recovers(l, ds[|ds| - 1], r)
    ensures Clean(l, r)
    ensures k <= |bs| ==> SameHomes(l, d, r)
    ensures k > |bs| ==> Updates(l, d, bs, data, r)
  {
    var e := Apply(d, ws, k);
    RecoverAfterCrashes(l, ds, |ds| - 1, r);
    if k <= |bs| {
      CommitBefore(l, d, bs, data, ws, k);
      RecoverClean(l, e, r);
    } else if k < |ws| {
      RecoverLogged(l, d, bs, data, ws, k, r);
    } else {
      CommitFinished(l, d, bs, data, ws);
      RecoverClean(l, e, r);
    }
  }

  /** At every crash point a recovery exists. */
  lemma RecoverExists(l: Layout, d: Image, bs: seq<nat>, data: seq<Block>, ws: seq<Write>, k: nat)
    requires CommitRun(l, d, bs, data, ws) && k <= |ws|
    ensures exists r :: Recovers(l, Apply(d, ws, k), r)
  {
    var e := Apply(d, ws, k);
    var cs: seq<nat> := [];
    if |bs| < k < |ws| {
      CommitLogged(l, d, bs, data, ws, k);
      cs := bs;
    } else if k <= |bs| {
      CommitBefore(l, d, bs, data, ws, k);
    } else {
      CommitFinished(l, d, bs, data, ws);
    }
    var vs := RecoverWritesExist(l, e, cs);
    WritesFit(l, e, cs, vs);
    assert RecoverAll(l, e, cs, vs, Apply(e, vs, |vs|));
    assert Recovers(l, e, Apply(e, vs, |vs|));
  }
}
