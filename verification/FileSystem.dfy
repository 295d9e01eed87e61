/**
 * The inode content layer: the bitmap allocator, the map from a file's blocks to disk blocks,
 * truncation, and reading and writing byte ranges, all on blocks as the buffer cache shows
 * them.  log_write is modelled by the set of block numbers that the operation has logged.
 */
module FileSystem {
  import opened Basics
  import opened Blocks
  import opened Ownership
  import opened FileContent
  import opened Capacity

  /** Bit b, as balloc and bfree address it. */
  ghost predicate BitAt(bitmap: seq<Bytes>, bits: seq<bool>, b: nat)
    requires b < |bits|
  {
    b / BPB < |bitmap| && |bitmap[b / BPB]| == BSIZE && Bit(bitmap[b / BPB][b % BPB / 8], b % 8) == bits[b]
  }

  ghost predicate BitmapHolds(bitmap: seq<Bytes>, bits: seq<bool>) {
    forall b: nat :: b < |bits| ==> BitAt(bitmap, bits, b)
  }

  /** No block is free. */
  ghost predicate Full(bits: seq<bool>) {
    forall b :: 0 <= b < |bits| ==> bits[b]
  }

  /** The bitmap after one bit is written. */
  function WithBit(bitmap: seq<Bytes>, b: nat, on: bool): seq<Bytes>
    requires b / BPB < |bitmap| && |bitmap[b / BPB]| == BSIZE
  {
    var x: Bytes := bitmap[b / BPB];
    var y: Bytes := x[b % BPB / 8 := SetBit(x[b % BPB / 8], b % 8, on)];
    bitmap[b / BPB := y]
  }

  lemma BitWritten(bitmap: seq<Bytes>, bits: seq<bool>, b: nat, on: bool)
    requires BitmapHolds(bitmap, bits) && b < |bits|
    ensures BitAt(bitmap, bits, b) && BitmapHolds(WithBit(bitmap, b, on), bits[b := on])
  {
    assert BitAt(bitmap, bits, b);
    var bitmap', bits' := WithBit(bitmap, b, on), bits[b := on];
    forall c: nat | c < |bits'| ensures BitAt(bitmap', bits', c) {
      assert BitAt(bitmap, bits, c);
      if c / BPB == b / BPB && c % BPB / 8 == b % BPB / 8 {
        BitSet(bitmap[b / BPB][b % BPB / 8], b % 8, on, c % 8);
        SameBit(b, c);
      }
    }
  }

  /** Two bits in the same byte at the same place are the same bit. */
  lemma SameBit(b: nat, c: nat)
    requires c / BPB == b / BPB && c % BPB / 8 == b % BPB / 8
    ensures b % 8 == c % 8 <==> b == c
  {
    var u, x, y := b / BPB, b % BPB, c % BPB;
    BitPlace(b, u, x);
    BitPlace(c, u, y);
    Divided(x, x / 8, x % 8);
    Divided(y, y / 8, y % 8);
  }

  /** The indirect block, if there is one. */
  ghost function Indirect(a: seq<nat>): set<nat>
    requires |a| == NDIRECT + 1
  {
    if a[NDIRECT] == 0 then {} else {a[NDIRECT]}
  }

  lemma IndirectKept(addrs: seq<seq<nat>>, blocks: map<nat, Bytes>, owner: map<nat, Slot>,
                     addrs': seq<seq<nat>>, blocks': map<nat, Bytes>, i: nat, k1: nat, k2: nat)
    requires Grown(addrs, blocks, owner, addrs', blocks', i, k1, k2) && i < |addrs|
    ensures Indirect(addrs[i]) <= Indirect(addrs'[i])
  {
    assert At(addrs'[i], blocks', NDIRECT) == addrs'[i][NDIRECT];
  }

  /** How many blocks the bytes off to off + n lie in. */
  function Spanned(off: nat, n: nat): nat {
    if n == 0 then 0 else (off + n - 1) / BSIZE - off / BSIZE + 1
  }

  /** A write at off of n bytes has reached o, between two blocks or at an end, after k blocks. */
  ghost predicate Reached(off: nat, o: nat, tot: nat, n: nat, k: nat) {
    o == off + tot && tot <= n && (tot == 0 || tot == n || o % BSIZE == 0) && k <= Spanned(off, tot)
  }

  lemma ReachedMore(off: nat, o: nat, tot: nat, n: nat, k: nat, m: nat, k': nat)
    requires Reached(off, o, tot, n, k) && tot < n && m == Min(n - tot, BSIZE - o % BSIZE) && k' <= k + 1
    ensures Reached(off, o + m, tot + m, n, k')
  {
    var p, q := off % BSIZE, (off % BSIZE + tot) / BSIZE;
    assert o % BSIZE == (p + tot) % BSIZE;
    assert tot == 0 || (p + tot) % BSIZE == 0;
  }

  /** Every block that changed, and the bitmap block of every bit that did, has been logged. */
  ghost predicate Recorded(blocks: map<nat, Bytes>, bits: seq<bool>, blocks': map<nat, Bytes>, bits': seq<bool>,
                           logged: set<nat>,
                           bmapstart: nat) {
    && blocks'.Keys == blocks.Keys && |bits'| == |bits|
    && (forall b {:trigger blocks'[b]} :: b in blocks' && blocks'[b] != blocks[b] ==> b in logged)
    && (forall b: nat {:trigger bits'[b]} :: b < |bits'| && bits'[b] != bits[b] ==> b / BPB + bmapstart in logged)
  }

  lemma RecordedNone(blocks: map<nat, Bytes>, bits: seq<bool>, logged: set<nat>, bmapstart: nat)
    ensures Recorded(blocks, bits, blocks, bits, logged, bmapstart)
  {
  }

  lemma RecordedMore(d: map<nat, Bytes>, t: seq<bool>, d1: map<nat, Bytes>, t1: seq<bool>, l1: set<nat>, d2: map<nat,
                     Bytes>, t2: seq<bool>,
                     l2: set<nat>, bmapstart: nat)
    requires Recorded(d, t, d1, t1, l1, bmapstart) && Recorded(d1, t1, d2, t2, l2, bmapstart) && l1 <= l2
    ensures Recorded(d, t, d2, t2, l2, bmapstart)
  {
    forall b {:trigger d2[b]} | b in d2 && d2[b] != d[b] ensures b in l2 { if d1[b] != d[b] { assert b in l1; } }
    forall b: nat {:trigger t2[b]} | b < |t2| && t2[b] != t[b] ensures b / BPB + bmapstart in l2 {
      if t1[b] != t[b] { assert b / BPB + bmapstart in l1; }
    }
  }

  /** A block allocated, and perhaps an entry x of it written elsewhere. */
  lemma RecordedAlloc(blocks: map<nat, Bytes>, bits: seq<bool>, b: nat, x: nat, e: Bytes, logged: set<nat>, bmapstart: nat)
    requires b in blocks && x in blocks && b < |bits| && {b, x, b / BPB + bmapstart} <= logged
    ensures Recorded(blocks, bits, blocks[b := ZERO], bits[b := true], logged, bmapstart)
    ensures Recorded(blocks, bits, blocks[b := ZERO][x := e], bits[b := true], logged, bmapstart)
  {
  }

  lemma RecordedPut(blocks: map<nat, Bytes>, bits: seq<bool>, b: nat, e: Bytes, logged: set<nat>, bmapstart: nat)
    requires b in blocks && b in logged
    ensures Recorded(blocks, bits, blocks[b := e], bits, logged, bmapstart)
  {
  }

  lemma RecordedFree(blocks: map<nat, Bytes>, bits: seq<bool>, b: nat, logged: set<nat>, bmapstart: nat)
    requires b < |bits| && b / BPB + bmapstart in logged
    ensures Recorded(blocks, bits, blocks, bits[b := false], logged, bmapstart)
  {
  }

  /** The files with the first k bytes of src written at off in file i take more blocks than there are. */
  ghost predicate Overfull(before: seq<Bytes>, i: nat, off: nat, src: Bytes, k: nat, cap: int) {
    && i < |before| && off <= |before[i]| && k <= |src|
    && Used(before[i := Overwrite(before[i], off, src[..k])], |before|) > cap
  }

  lemma OverfullMore(before: seq<Bytes>, i: nat, off: nat, src: Bytes, k: nat, m: nat, cap: int)
    requires Overfull(before, i, off, src, k, cap) && k <= m <= |src|
    ensures Overfull(before, i, off, src, m, cap)
  {
    var c, d := Overwrite(before[i], off, src[..k]), Overwrite(before[i], off, src[..m]);
    SlotsMore(|c|, |d|);
    UsedSet(before, i, c, |before|);
    UsedSet(before, i, d, |before|);
  }

  /** What has been written was not too much. */
  lemma NotOverfull(addrs: seq<seq<nat>>, blocks: map<nat, Bytes>, bits: seq<bool>, owner: map<nat, Slot>, lo: nat,
                    before: seq<Bytes>,
                    content: seq<Bytes>, i: nat, off: nat, src: Bytes)
    requires Owned(addrs, blocks, bits, owner, lo) && Files(addrs, blocks, content) && i < |before| && off <= |before[i]|
    requires content == before[i := Overwrite(before[i], off, src)]
    ensures !Overfull(before, i, off, src, |src|, |bits| - lo)
  {
    Accounts(addrs, blocks, bits, owner, lo, content);
    assert src[..|src|] == src;
  }

  /** A write is too much exactly when the slots it adds to its file outnumber the clear bits. */
  lemma OverfullNeeds(addrs: seq<seq<nat>>, blocks: map<nat, Bytes>, bits: seq<bool>, owner: map<nat, Slot>, lo: nat,
                      content: seq<Bytes>, i: nat, off: nat, src: Bytes)
    requires Owned(addrs, blocks, bits, owner, lo) && Files(addrs, blocks, content) && i < |content| && off <= |content[i]|
    ensures Overfull(content, i, off, src, |src|, |bits| - lo) <==>
              SlotsFor(|Overwrite(content[i], off, src)|) - SlotsFor(|content[i]|) > |Clear(bits, lo)|
    ensures off + |src| <= |content[i]| ==> !Overfull(content, i, off, src, |src|, |bits| - lo)
  {
    Accounts(addrs, blocks, bits, owner, lo, content);
    assert src[..|src|] == src;
    UsedSet(content, i, Overwrite(content[i], off, src), |content|);
  }

  lemma OverfullHere(before: seq<Bytes>, content: seq<Bytes>, i: nat, off: nat, src: Bytes, tot: nat, o: nat,
                     tot': nat, cap: int)
    requires Written(before, content, i, off, src, tot) && tot <= tot' <= |src| && o == off + tot <= |content[i]|
    requires Used(content[i := Overwrite(content[i], o, src[tot..tot'])], |content|) > cap
    ensures Overfull(before, i, off, src, |src|, cap)
  {
    var content' := content[i := Overwrite(content[i], o, src[tot..tot'])];
    WrittenMore(before, content, content', i, off, src, tot, o, tot');
    assert Overfull(before, i, off, src, tot', cap);
    OverfullMore(before, i, off, src, tot', |src|, cap);
  }

  /** A block that lacks slots there are no blocks for, in terms of the write. */
  lemma TooFewFor(addrs: seq<seq<nat>>, blocks: map<nat, Bytes>, bits: seq<bool>, owner: map<nat, Slot>, lo: nat,
                  content: seq<Bytes>,
                  i: nat, bn: nat, o: nat, x: Bytes)
    requires Owned(addrs, blocks, bits, owner, lo) && Files(addrs, blocks, content) && i < |addrs|
    requires bn == o / BSIZE < MAXFILE && 0 < |x| && o % BSIZE + |x| <= BSIZE && o <= |content[i]|
    requires |Clear(bits, lo)| < Lacks(addrs[i], blocks, bn)
    ensures Used(content[i := Overwrite(content[i], o, x)], |content|) > |bits| - lo
  {
    assert SlotDense(addrs[i], blocks, |content[i]|, DataSlot(bn)) && SlotDense(addrs[i], blocks, |content[i]|, NDIRECT);
    TooFew(addrs, blocks, bits, owner, lo, content, i, bn, Overwrite(content[i], o, x));
  }

  lemma ClearLess(bits: seq<bool>, lo: nat, b: nat)
    requires lo <= b < |bits| && !bits[b]
    ensures |Clear(bits, lo)| == |Clear(bits[b := true], lo)| + 1
  {
    assert Clear(bits, lo) == Clear(bits[b := true], lo) + {b};
  }

  lemma FullClear(bits: seq<bool>, lo: nat)
    requires Full(bits)
    ensures Clear(bits, lo) == {}
  {
  }

  lemma SliceMore(c: Bytes, off: nat, o: nat, o': nat)
    requires off <= o <= o' <= |c|
    ensures c[off..o] + c[o..o'] == c[off..o']
  {
  }

  /** Only inode i may differ. */
  ghost predicate OneInode(addrs: seq<seq<nat>>, addrs': seq<seq<nat>>, i: nat) {
    i < |addrs| && |addrs'| == |addrs| && addrs' == addrs[i := addrs'[i]]
  }

  /** The blocks logged since was are bitmap blocks, the blocks touched and the indirect block ind. */
  ghost predicate LoggedOnly(was: set<nat>, logged: set<nat>, bitmap: set<nat>, touched: set<nat>, ind: set<nat>) {
    logged <= was + bitmap + touched + ind
  }

  lemma LoggedMore(was: set<nat>, l: set<nat>, l': set<nat>, bitmap: set<nat>, touched: set<nat>, touched': set<nat>,
                   b: nat, ind: set<nat>,
                   ind': set<nat>)
    requires LoggedOnly(was, l, bitmap, touched, ind) && LoggedOnly(l, l', bitmap, {b}, ind') && ind <= ind'
    requires touched' == touched + {b}
    ensures LoggedOnly(was, l', bitmap, touched', ind') && |touched'| <= |touched| + 1
  {
  }

  /** The first tot bytes of src have been written at off in file i. */
  ghost predicate Written(before: seq<Bytes>, content: seq<Bytes>, i: nat, off: nat, src: Bytes, tot: nat) {
    && i < |before| && off <= |before[i]| && tot <= |src|
    && content == before[i := Overwrite(before[i], off, src[..tot])]
  }

  lemma WrittenNone(before: seq<Bytes>, i: nat, off: nat, src: Bytes)
    requires i < |before| && off <= |before[i]|
    ensures Written(before, before, i, off, src, 0)
  {
    OverwriteNone(before[i], off, src);
  }

  lemma WrittenMore(before: seq<Bytes>, content: seq<Bytes>, content': seq<Bytes>, i: nat, off: nat, src: Bytes,
                    tot: nat, o: nat, tot': nat)
    requires Written(before, content, i, off, src, tot) && tot <= tot' <= |src| && o == off + tot <= |content[i]|
    requires content' == content[i := Overwrite(content[i], o, src[tot..tot'])]
    ensures Written(before, content', i, off, src, tot')
  {
    OverwriteMore(before[i], off, src, tot, tot' - tot);
    SetTwice(before, i, content[i], content'[i]);
  }

  lemma WrittenAll(before: seq<Bytes>, content: seq<Bytes>, i: nat, off: nat, src: Bytes)
    requires Written(before, content, i, off, src, |src|)
    ensures content == before[i := Overwrite(before[i], off, src)]
  {
    assert src[..|src|] == src;
  }

  lemma SetTwice(s: seq<Bytes>, i: nat, x: Bytes, y: Bytes)
    requires i < |s|
    ensures s[i := x][i := y] == s[i := y]
  {
  }

  datatype WriteResult = Count(n: nat) | Error | Panic

  /** ((MAXOPBLOCKS - 1 - 1 - 2) / 2) * BSIZE */
  const CHUNK: nat := (10 - 1 - 1 - 2) / 2 * BSIZE

  lemma {:induction false} SizeOf(a: set<nat>, b: set<nat>)
    requires a <= b
    ensures |a| <= |b|
  {
    if a != {} {
      var x :| x in a;
      SizeOf(a - {x}, b - {x});
    }
  }

  /** The first k bytes of src have been written at off; if none, off may be anything. */
  ghost predicate Progress(before: seq<Bytes>, content: seq<Bytes>, i: nat, off: nat, src: Bytes, k: nat) {
    if k == 0 then content == before else Written(before, content, i, off, src, k)
  }

  lemma ProgressMore(before: seq<Bytes>, content: seq<Bytes>, i: nat, off: nat, src: Bytes, k: nat, m: nat)
    requires Progress(before, content, i, off, src, k) && 0 < m && k + m <= |src|
    requires i < |content| && off + k <= |content[i]|
    ensures Progress(before, content[i := Overwrite(content[i], off + k, src[k..k + m])], i, off, src, k + m)
  {
    if k == 0 { WrittenNone(before, i, off, src); }
    WrittenMore(before, content, content[i := Overwrite(content[i], off + k, src[k..k + m])], i, off, src, k, off + k, k + m);
  }

  const IPB: nat := 8

  ghost predicate Sizes(sz: seq<nat>, content: seq<Bytes>) {
    |sz| == |content| && forall i {:trigger sz[i]} :: 0 <= i < |sz| ==> sz[i] == |content[i]|
  }

  datatype Mapping = Found | OutOfBlocks | OutOfRange

  /** The indirect block, its entries already free, is freed; the block still lists them. */
  lemma PointerFreed(addrs: seq<seq<nat>>, live: map<nat, Bytes>, blocks: map<nat, Bytes>, bits: seq<bool>,
                     owner: map<nat, Slot>, lo: nat, i: nat)
    requires Owned(addrs, live, bits, owner, lo) && i < |addrs| && NoEntries(addrs[i], live) && addrs[i][NDIRECT] != 0
    requires var x := addrs[i][NDIRECT]; x in blocks && |blocks[x]| == BSIZE && blocks == live[x := blocks[x]]
    ensures var x := addrs[i][NDIRECT];
            x < |bits| && bits[x] && Owned(SetAddr(addrs, i, NDIRECT, 0), blocks, bits[x := false], owner - {x}, lo)
  {
    var x := addrs[i][NDIRECT];
    var addrs' := SetAddr(addrs, i, NDIRECT, 0);
    assert BlockAt(addrs, live, bits, owner, lo, 0);
    SetDirect(addrs, live, i, NDIRECT, 0);
    Emptied(addrs, live, bits, owner, lo, addrs', live, i, NDIRECT, x);
    assert BlockAt(addrs', live, bits[x := false], owner - {x}, lo, x);
    Rewritten(addrs', live, bits[x := false], owner - {x}, lo, x, blocks[x]);
  }

  lemma EmptyFile(a: seq<nat>, blocks: map<nat, Bytes>)
    requires |a| == NDIRECT + 1 && forall k: nat {:trigger At(a, blocks, k)} :: k < NSLOTS ==> At(a, blocks, k) == 0
    ensures File(a, blocks, [])
  {
  }

  // ---- What the callers see: files as byte sequences -------------------------------------------

  datatype FileOp = Read(i: nat, off: nat, n: nat) | Write(i: nat, src: Bytes, off: nat) | Trunc(i: nat)

  datatype Outcome = Outcome(count: int, bytes: Bytes)

  /** Offsets and counts are 32-bit. */
  ghost predicate LegalOp(op: FileOp) {
    match op
    case Read(_, off, n) => off < UINT && n < UINT
    case Write(_, src, off) => off < UINT && |src| < UINT
    case Trunc(_) => true
  }

  ghost predicate Legal(ninodes: nat, ops: seq<FileOp>) {
    forall k {:trigger ops[k]} :: 0 <= k < |ops| ==> ops[k].i < ninodes && LegalOp(ops[k])
  }

  ghost predicate Fits(c: Bytes, src: Bytes, off: nat) {
    off <= |c| && off + |src| <= MAXFILE * BSIZE
  }

  ghost function Next(content: seq<Bytes>, op: FileOp): seq<Bytes>
    requires op.i < |content|
  {
    match op
    case Read(_, _, _) => content
    case Write(i, src, off) => if Fits(content[i], src, off) then content[i := Overwrite(content[i], off, src)] else content
    case Trunc(i) => content[i := []]
  }

  ghost function Answer(content: seq<Bytes>, op: FileOp): Outcome
    requires op.i < |content|
  {
    match op
    case Read(i, off, n) =>
      if off > |content[i]| || off + n >= UINT then Outcome(-1, [])
      else var m := Min(n, |content[i]| - off); Outcome(m, content[i][off..off + m])
    case Write(i, src, off) => Outcome(if Fits(content[i], src, off) then |src| else -1, [])
    case Trunc(_) => Outcome(0, [])
  }

  ghost function After(content: seq<Bytes>, ops: seq<FileOp>, k: nat): (c: seq<Bytes>)
    requires k <= |ops| && Legal(|content|, ops)
    ensures |c| == |content|
    decreases k
  {
    if k == 0 then content else Next(After(content, ops, k - 1), ops[k - 1])
  }

  ghost function Answers(content: seq<Bytes>, ops: seq<FileOp>, k: nat): seq<Outcome>
    requires k <= |ops| && Legal(|content|, ops)
    decreases k
  {
    if k == 0 then [] else Answers(content, ops, k - 1) + [Answer(After(content, ops, k - 1), ops[k - 1])]
  }

  /** An operation that needs more blocks than there are: a write the file could hold but the disk cannot. */
  ghost predicate Overflows(content: seq<Bytes>, op: FileOp, cap: int) {
    op.Write? && op.i < |content| && Fits(content[op.i], op.src, op.off) && Overfull(content, op.i, op.off, op.src, |op.src|, cap)
  }

  /** None of the first k operations does. */
  ghost predicate Survives(content: seq<Bytes>, ops: seq<FileOp>, k: nat, cap: int)
    requires k <= |ops| && Legal(|content|, ops)
    decreases k
  {
    k > 0 ==> Survives(content, ops, k - 1, cap) && !Overflows(After(content, ops, k - 1), ops[k - 1], cap)
  }

  lemma {:induction false} SurvivesLess(content: seq<Bytes>, ops: seq<FileOp>, k: nat, m: nat, cap: int)
    requires k <= m <= |ops| && Legal(|content|, ops) && Survives(content, ops, m, cap)
    ensures Survives(content, ops, k, cap)
    decreases m
  {
    if k < m { SurvivesLess(content, ops, k, m - 1, cap); }
  }

  ghost predicate LegalAll(ninodes: nat, others: seq<seq<FileOp>>) {
    forall k {:trigger others[k]} :: 0 <= k < |others| ==> Legal(ninodes, others[k])
  }

  /** What others do before transaction j. */
  ghost function Disturbed(content: seq<Bytes>, others: seq<seq<FileOp>>, j: nat): (c: seq<Bytes>)
    requires LegalAll(|content|, others)
    ensures |c| == |content|
  {
    if j < |others| then After(content, others[j], |others[j]|) else content
  }

  /**
   * filewrite as its callers see it, from where it has written k bytes of src in j transactions and is at o:
   * the files at its end, and how much of src is then in.  The chunks go in one by one, with what others do
   * in between, until one does not fit.
   */
  ghost function FileWritten(content: seq<Bytes>, i: nat, src: Bytes, k: nat, o: nat, others: seq<seq<FileOp>>,
                             j: nat): (r: (seq<Bytes>, nat))
    requires i < |content| && LegalAll(|content|, others) && k <= |src|
    ensures k <= r.1 <= |src| && |r.0| == |content|
    decreases |src| - k
  {
    if k == |src| then (content, k)
    else
      var c := Disturbed(content, others, j);
      var n1 := Min(|src| - k, CHUNK);
      if Fits(c[i], src[k..k + n1], o)
      then FileWritten(c[i := Overwrite(c[i], o, src[k..k + n1])], i, src, k + n1, o + n1, others, j + 1)
      else (c, k)
  }

  /** Whether such a call ends in a panic instead: others use up the blocks, or a chunk finds too few. */
  ghost predicate FilePanics(content: seq<Bytes>, i: nat, src: Bytes, k: nat, o: nat, others: seq<seq<FileOp>>, j: nat,
                             cap: int)
    requires i < |content| && LegalAll(|content|, others) && k <= |src|
    decreases |src| - k
  {
    k < |src| &&
    var c := Disturbed(content, others, j);
    var n1 := Min(|src| - k, CHUNK);
    var x := src[k..k + n1];
    || ChunkPanics(content, i, x, o, others, j, cap)
    || (Fits(c[i], x, o) && FilePanics(c[i := Overwrite(c[i], o, x)], i, src, k + n1, o + n1, others, j + 1, cap))
  }

  ghost predicate ChunkPanics(content: seq<Bytes>, i: nat, x: Bytes, o: nat, others: seq<seq<FileOp>>, j: nat, cap: int)
    requires i < |content| && LegalAll(|content|, others)
  {
    || (j < |others| && !Survives(content, others[j], |others[j]|, cap))
    || Overflows(Disturbed(content, others, j), Write(i, x, o), cap)
  }

  /** How a call that has come so far ends: the files, how much is in, and whether in a panic. */
  datatype Ending = Ending(files: seq<Bytes>, done: nat, fatal: bool)

  ghost function EndOf(content: seq<Bytes>, i: nat, src: Bytes, k: nat, o: nat, others: seq<seq<FileOp>>, j: nat,
                       cap: int): Ending
    requires i < |content| && LegalAll(|content|, others) && k <= |src|
  {
    var r := FileWritten(content, i, src, k, o, others, j);
    Ending(r.0, r.1, FilePanics(content, i, src, k, o, others, j, cap))
  }

  ghost predicate Heads(end: Ending, content: seq<Bytes>, i: nat, src: Bytes, k: nat, o: nat, others: seq<seq<FileOp>>,
                        j: nat,
                        cap: int) {
    && i < |content| && LegalAll(|content|, others) && k <= |src|
    && EndOf(content, i, src, k, o, others, j, cap) == end
  }

  /** Its next chunk x, after what others do: the panic it ends in, the end where it stops, or one step on its way. */
  lemma HeadsOn(end: Ending, content: seq<Bytes>, c: seq<Bytes>, i: nat, src: Bytes, k: nat, o: nat,
                others: seq<seq<FileOp>>, j: nat,
                cap: int, n1: nat)
    requires Heads(end, content, i, src, k, o, others, j, cap) && k < |src| && n1 == Min(|src| - k, CHUNK)
    requires c == Disturbed(content, others, j)
    ensures ChunkPanics(content, i, src[k..k + n1], o, others, j, cap) ==> end.fatal
    ensures !ChunkPanics(content, i, src[k..k + n1], o, others, j, cap) ==>
              if Fits(c[i], src[k..k + n1], o)
              then Heads(end, c[i := Overwrite(c[i], o, src[k..k + n1])], i, src, k + n1, o + n1, others, j + 1, cap)
              else end == Ending(c, k, false)
  {
  }

  lemma HeadsNowhere(end: Ending, content: seq<Bytes>, i: nat, src: Bytes, o: nat, others: seq<seq<FileOp>>, j: nat,
                     cap: int)
    requires Heads(end, content, i, src, |src|, o, others, j, cap)
    ensures end == Ending(content, |src|, false)
  {
  }

  /** A call that has come so far ends with all. */
  ghost predicate Leads(all: (seq<Bytes>, nat), content: seq<Bytes>, i: nat, src: Bytes, k: nat, o: nat,
                        others: seq<seq<FileOp>>, j: nat) {
    && i < |content| && LegalAll(|content|, others) && k <= |src|
    && FileWritten(content, i, src, k, o, others, j) == all
  }

  /** One round of a call that meets no other. */
  lemma LeadsOn(all: (seq<Bytes>, nat), content: seq<Bytes>, i: nat, src: Bytes, k: nat, o: nat, j: nat,
                n1: nat) returns (next: seq<Bytes>)
    requires Leads(all, content, i, src, k, o, [], j) && k < |src| && n1 == Min(|src| - k, CHUNK)
    ensures !Fits(content[i], src[k..k + n1], o) ==> all == (content, k)
    ensures Fits(content[i], src[k..k + n1], o) ==>
              next == content[i := Overwrite(content[i], o, src[k..k + n1])] && Leads(all, next, i, src, k + n1, o + n1, [], j + 1)
  {
    next := if Fits(content[i], src[k..k + n1], o) then content[i := Overwrite(content[i], o, src[k..k + n1])] else content;
  }

  lemma LeadsNowhere(all: (seq<Bytes>, nat), content: seq<Bytes>, i: nat, src: Bytes, o: nat, others: seq<seq<FileOp>>,
                     j: nat)
    requires Leads(all, content, i, src, |src|, o, others, j)
    ensures all == (content, |src|)
  {
  }

  /** Alone, filewrite writes a beginning of src. */
  lemma {:induction false} FileWrittenAlone(all: (seq<Bytes>, nat), before: seq<Bytes>, content: seq<Bytes>, i: nat,
                                            off: nat, src: Bytes, k: nat, j: nat)
    requires Leads(all, content, i, src, k, off + k, [], j) && Progress(before, content, i, off, src, k)
    ensures all.1 <= |src| && Progress(before, all.0, i, off, src, all.1)
    decreases |src| - k
  {
    if k == |src| {
      LeadsNowhere(all, content, i, src, off + k, [], j);
    } else {
      var n1 := Min(|src| - k, CHUNK);
      var next := LeadsOn(all, content, i, src, k, off + k, j, n1);
      if Fits(content[i], src[k..k + n1], off + k) {
        ProgressMore(before, content, i, off, src, k, n1);
        FileWrittenAlone(all, before, next, i, off, src, k + n1, j + 1);
      }
    }
  }

  /** At o in a file of size bytes no more of the m bytes left fits: past the largest file, or o past the end. */
  ghost predicate Stuck(size: nat, o: nat, m: nat) {
    m > 0 ==> o > size || o + Min(CHUNK, m) > MAXFILE * BSIZE
  }

  /** It stops only where no more fits, and after whole chunks. */
  lemma {:induction false} FileWrittenStops(all: (seq<Bytes>, nat), content: seq<Bytes>, i: nat, src: Bytes, k: nat,
                                            o: nat, j: nat)
    requires Leads(all, content, i, src, k, o, [], j)
    ensures k <= all.1 <= |src| && i < |all.0| && Stuck(|all.0[i]|, o + (all.1 - k), |src| - all.1)
    ensures all.1 < |src| ==> (all.1 - k) % CHUNK == 0
    decreases |src| - k
  {
    if k == |src| {
      LeadsNowhere(all, content, i, src, o, [], j);
    } else {
      var n1 := Min(|src| - k, CHUNK);
      var next := LeadsOn(all, content, i, src, k, o, j, n1);
      if Fits(content[i], src[k..k + n1], o) {
        FileWrittenStops(all, next, i, src, k + n1, o + n1, j + 1);
        if all.1 < |src| { ChunkMore(all.1 - k - n1); }
      }
    }
  }

  /**
   * A call alone at off has written done bytes of src: all of it, or the chunks before the first one past the
   * largest file, or none from past the end.
   */
  ghost predicate DoneAlone(before: seq<Bytes>, content: seq<Bytes>, i: nat, off: nat, src: Bytes, done: nat) {
    && i < |before| && done <= |src| && Progress(before, content, i, off, src, done)
    && (done < |src| ==> done % CHUNK == 0 && (off > |before[i]| || off + done + Min(CHUNK, |src| - done) > MAXFILE * BSIZE))
  }

  lemma FilewriteAlone(content: seq<Bytes>, i: nat, src: Bytes, off: nat)
    requires i < |content|
    ensures var r := FileWritten(content, i, src, 0, off, [], 0); DoneAlone(content, r.0, i, off, src, r.1)
  {
    var r := FileWritten(content, i, src, 0, off, [], 0);
    assert Leads(r, content, i, src, 0, off, [], 0);
    FileWrittenAlone(r, content, content, i, off, src, 0, 0);
    FileWrittenStops(r, content, i, src, 0, off, 0);
  }

  lemma ChunkMore(d: nat)
    ensures (CHUNK + d) % CHUNK == d % CHUNK
  {
    assert CHUNK == 1536;
  }

  class FileSystem {
    const size: nat
    const bmapstart: nat
    const inodestart: nat
    const datastart: nat
    var bitmap: seq<Bytes>
    var blocks: map<nat, Bytes>
    /** In-memory inodes, and the inodes as logged. */
    var addrs: seq<seq<nat>>
    var sz: seq<nat>
    var daddrs: seq<seq<nat>>
    var dsz: seq<nat>
    ghost var bits: seq<bool>
    ghost var owner: map<nat, Slot>
    ghost var content: seq<Bytes>
    ghost var logged: set<nat>

    ghost predicate Image()
      reads this
    {
      && |bits| == size && BitmapHolds(bitmap, bits) && Owned(addrs, blocks, bits, owner, datastart)
    }

    /** The bitmap block that holds b's bit. */
    function BBlock(b: nat): nat {
      b / BPB + bmapstart
    }

    ghost predicate IsBitmap(x: nat) {
      exists b: nat :: b < size && x == BBlock(b)
    }

    ghost function BitmapBlocks(): set<nat> {
      set x: nat | x < bmapstart + size && IsBitmap(x)
    }

    /** A mounted image, as mkfs or an earlier run left it. */
    constructor (bmapstart: nat, inodestart: nat, datastart: nat, bitmap: seq<Bytes>, blocks: map<nat, Bytes>,
                 addrs: seq<seq<nat>>, sz: seq<nat>, ghost bits: seq<bool>, ghost owner: map<nat, Slot>, ghost content: seq<Bytes>, size: nat)
      requires |bits| == size && BitmapHolds(bitmap, bits) && Owned(addrs, blocks, bits, owner, datastart)
      requires Files(addrs, blocks, content) && Sizes(sz, content)
      ensures Valid() && this.content == content && this.size == size
    {
      this.size, this.bmapstart, this.inodestart, this.datastart := size, bmapstart, inodestart, datastart;
      this.bitmap, this.blocks, this.addrs, this.sz, daddrs, dsz := bitmap, blocks, addrs, sz, addrs, sz;
      this.bits, this.owner, this.content, logged := bits, owner, content, {};
    }

    /** The first clear bit from b on, within b's bitmap block. */
    method ScanBlock(b: nat) returns (bi: nat)
      requires |bits| == size && BitmapHolds(bitmap, bits) && b < size && b % BPB == 0
      ensures bi <= BPB && b + bi <= size
      ensures forall c: nat :: b <= c < b + bi ==> bits[c]
      ensures if bi < BPB && b + bi < size then !bits[b + bi] else bi == BPB || b + bi == size
    {
      assert BitAt(bitmap, bits, b);
      var data := bitmap[b / BPB];
      bi := 0;
      while bi < BPB && b + bi < size
        invariant bi <= BPB && b + bi <= size
        invariant forall c: nat :: b <= c < b + bi ==> bits[c]
      {
        assert BitAt(bitmap, bits, b + bi);
        BitPlace(b + bi, b / BPB, bi);
        if !Bit(data[bi / 8], bi % 8) { return; }
        bi := bi + 1;
      }
    }

    /** balloc: the first free block, marked in use and zeroed; it fails iff every bit is set. */
    method Balloc() returns (ok: bool, b: nat)
      requires Image()
      modifies this`bitmap, this`bits, this`blocks, this`logged
      ensures |bits| == size && BitmapHolds(bitmap, bits)
      ensures !ok ==> blocks == old(blocks) && bits == old(bits) && Full(bits)
      ensures ok ==>
                && datastart <= b < size && !old(bits)[b] && (forall c: nat :: c < b ==> old(bits)[c])
                && bits == old(bits)[b := true] && blocks == old(blocks)[b := ZERO] && logged == old(logged) + {BBlock(b), b}
    {
      var s := 0;
      while s < size
        modifies {}
        invariant s % BPB == 0 && forall c: nat :: c < s && c < size ==> bits[c]
      {
        var bi := ScanBlock(s);
        if bi < BPB && s + bi < size {
          b := s + bi;
          break;
        }
        s := s + BPB;
      }
      if s >= size { return false, 0; }
      assert BlockAt(addrs, blocks, bits, owner, datastart, b);
      BitWritten(bitmap, bits, b, true);
      bitmap, bits, blocks := WithBit(bitmap, b, true), bits[b := true], blocks[b := ZERO];
      logged := logged + {BBlock(b), b};
      ok := true;
    }

    /** bfree panics iff the block is free already. */
    method Bfree(b: nat) returns (ok: bool)
      requires |bits| == size && BitmapHolds(bitmap, bits) && b < size
      modifies this`bitmap, this`bits, this`logged
      ensures |bits| == size && BitmapHolds(bitmap, bits) && (ok <==> old(bits)[b])
      ensures bits == if ok then old(bits)[b := false] else old(bits)
      ensures logged == if ok then old(logged) + {BBlock(b)} else old(logged)
    {
      assert BitAt(bitmap, bits, b);
      var bi := b % BPB;
      assert bi % 8 == b % 8;
      if !Bit(bitmap[b / BPB][bi / 8], bi % 8) { return false; }
      BitWritten(bitmap, bits, b, false);
      bitmap, bits := WithBit(bitmap, b, false), bits[b := false];
      logged := logged + {BBlock(b)};
      ok := true;
    }

    /** bmap, for a direct block or the indirect block itself: allocate it if there is none. */
    method MapDirect(i: nat, k: nat) returns (ok: bool, addr: nat)
      requires Image() && i < |addrs| && k <= NDIRECT
      modifies this`bitmap, this`bits, this`blocks, this`logged, this`addrs, this`owner
      ensures ok ==> Image() && |addrs| == |old(addrs)| && addr == addrs[i][k] != 0 && addrs == old(addrs)[i := addrs[i]]
      ensures ok ==> Grown(old(addrs), old(blocks), old(owner), addrs, blocks, i, k, k) && Extends(old(owner), owner)
      ensures ok ==> logged <= old(logged) + BitmapBlocks() + {addr}
      ensures ok ==> old(logged) <= logged && Recorded(old(blocks), old(bits), blocks, bits, logged, bmapstart)
      ensures ok ==> |Clear(old(bits), datastart)| == |Clear(bits, datastart)| + if old(addrs)[i][k] == 0 then 1 else 0
      ensures ok && old(addrs)[i][k] == 0 ==> addr in blocks && blocks[addr] == ZERO
      ensures old(addrs)[i][k] != 0 ==>
                ok && addrs == old(addrs) && blocks == old(blocks) && bits == old(bits) && owner == old(owner) && logged == old(logged)
      ensures !ok ==> addrs == old(addrs) && Full(bits) && Clear(old(bits), datastart) == {}
    {
      RecordedNone(blocks, bits, logged, bmapstart);
      addr := addrs[i][k];
      if addr == 0 {
        ok, addr := Balloc();
        if !ok {
          FullClear(bits, datastart);
          return;
        }
        ClearLess(old(bits), datastart, addr);
        assert BlockAt(addrs, old(blocks), old(bits), owner, datastart, addr);
        RecordedAlloc(old(blocks), old(bits), addr, addr, ZERO, logged, bmapstart);
        DirectFilled(addrs, old(blocks), old(bits), owner, datastart, i, k, addr);
        addrs, owner := SetAddr(addrs, i, k, addr), owner[addr := Slot(i, k)];
      }
      ok := true;
    }

    /** bmap, for an entry of the indirect block, which is there. */
    method MapIndirect(i: nat, k: nat) returns (ok: bool, addr: nat)
      requires Image() && i < |addrs| && NDIRECT < k < NSLOTS && addrs[i][NDIRECT] != 0
      modifies this`bitmap, this`bits, this`blocks, this`logged, this`owner
      ensures ok ==> Image() && addr == At(addrs[i], blocks, k) != 0
      ensures ok ==> Grown(addrs, old(blocks), old(owner), addrs, blocks, i, k, k)
      ensures ok ==> logged <= old(logged) + BitmapBlocks() + {addr, addrs[i][NDIRECT]}
      ensures ok ==> old(logged) <= logged && Recorded(old(blocks), old(bits), blocks, bits, logged, bmapstart)
      ensures ok && At(addrs[i], old(blocks), k) == 0 ==> addr in blocks && blocks[addr] == ZERO
      ensures At(addrs[i], old(blocks), k) != 0 ==>
                ok && blocks == old(blocks) && bits == old(bits) && owner == old(owner) && logged == old(logged)
      ensures !ok ==> Full(bits) && Clear(old(bits), datastart) == {}
    {
      RecordedNone(blocks, bits, logged, bmapstart);
      var x, j := addrs[i][NDIRECT], k - NDIRECT - 1;
      assert SlotAt(addrs, blocks, owner, i, NDIRECT) && BlockAt(addrs, blocks, bits, owner, datastart, x);
      addr := Entry(blocks[x], j);
      if addr == 0 {
        ok, addr := Balloc();
        if !ok {
          FullClear(bits, datastart);
          return;
        }
        assert BlockAt(addrs, old(blocks), old(bits), owner, datastart, addr);
        ghost var blocks' := IndirectFilled(addrs, old(blocks), old(bits), owner, datastart, i, k, addr);
        blocks := blocks[x := SetEntry(blocks[x], j, addr)];
        assert blocks == blocks';
        owner, logged := owner[addr := Slot(i, k)], logged + {x};
        RecordedAlloc(old(blocks), old(bits), addr, x, blocks[x], logged, bmapstart);
      }
      ok := true;
    }

    /** bmap, past the direct blocks. */
    method MapLarge(i: nat, bn: nat) returns (ok: bool, addr: nat)
      requires Image() && i < |addrs| && NDIRECT <= bn < MAXFILE
      modifies this`bitmap, this`bits, this`blocks, this`logged, this`addrs, this`owner
      ensures ok ==> Image() && |addrs| == |old(addrs)| && addr == At(addrs[i], blocks, bn + 1) != 0
      ensures ok ==> addrs == old(addrs)[i := addrs[i]]
      ensures ok ==> Grown(old(addrs), old(blocks), old(owner), addrs, blocks, i, PointerSlot(bn), DataSlot(bn))
      ensures ok ==> logged <= old(logged) + BitmapBlocks() + {addr, addrs[i][NDIRECT]} && addrs[i][NDIRECT] != 0
      ensures ok ==> old(logged) <= logged && Recorded(old(blocks), old(bits), blocks, bits, logged, bmapstart)
      ensures ok && At(old(addrs)[i], old(blocks), bn + 1) == 0 ==> addr in blocks && blocks[addr] == ZERO
      ensures At(old(addrs)[i], old(blocks), bn + 1) != 0 ==>
                ok && addrs == old(addrs) && blocks == old(blocks) && bits == old(bits) && owner == old(owner) && logged == old(logged)
      ensures !ok ==> Full(bits) && |Clear(old(bits), datastart)| < Lacks(old(addrs)[i], old(blocks), bn)
    {
      EntryNeedsBlock(addrs, blocks, bits, owner, datastart, i, bn + 1);
      ok, addr := MapDirect(i, NDIRECT);
      if !ok { return; }
      ghost var a1, b1, o1, t1, l1 := addrs, blocks, owner, bits, logged;
      EntryKept(old(addrs), old(blocks), old(owner), a1, b1, i, bn + 1);
      ok, addr := MapIndirect(i, bn + 1);
      if !ok { return; }
      RecordedMore(old(blocks), old(bits), b1, t1, l1, blocks, bits, logged, bmapstart);
      GrownTwice(old(addrs), old(blocks), old(owner), a1, b1, o1, addrs, blocks, i, bn);
    }

    /**
     * bmap: the disk block of block bn of inode i, allocated if there is none.  A block that is
     * there is found without changing anything.
     */
    method Bmap(i: nat, bn: nat) returns (r: Mapping, addr: nat)
      requires Image() && i < |addrs|
      modifies this`bitmap, this`bits, this`blocks, this`logged, this`addrs, this`owner
      ensures r == OutOfRange <==> bn >= MAXFILE
      ensures r == OutOfBlocks ==> Full(bits) && |Clear(old(bits), datastart)| < Lacks(old(addrs)[i], old(blocks), bn)
      ensures r == Found ==> Image() && |addrs| == |old(addrs)| && addr == At(addrs[i], blocks, DataSlot(bn)) != 0
      ensures r == Found ==> addrs == old(addrs)[i := addrs[i]]
      ensures r == Found ==> Grown(old(addrs), old(blocks), old(owner), addrs, blocks, i, PointerSlot(bn), DataSlot(bn))
      ensures r == Found ==> logged <= old(logged) + BitmapBlocks() + {addr} + Indirect(addrs[i])
      ensures r == Found ==> old(logged) <= logged && Recorded(old(blocks), old(bits), blocks, bits, logged, bmapstart)
      ensures r == Found && At(old(addrs)[i], old(blocks), DataSlot(bn)) == 0 ==> addr in blocks && blocks[addr] == ZERO
      ensures bn < MAXFILE && At(old(addrs)[i], old(blocks), DataSlot(bn)) != 0 ==>
                r == Found && addrs == old(addrs) && blocks == old(blocks) && bits == old(bits) && owner == old(owner) && logged == old(logged)
    {
      var ok := true;
      if bn < NDIRECT {
        ok, addr := MapDirect(i, bn);
      } else if bn - NDIRECT < NINDIRECT {
        ok, addr := MapLarge(i, bn);
      } else {
        return OutOfRange, 0;
      }
      r := if ok then Found else OutOfBlocks;
    }

    /** The block that holds inode i. */
    function IBlock(i: nat): nat {
      i / IPB + inodestart
    }

    /** Every file has its contents, without holes, and its size; the logged inodes are the in-memory ones. */
    ghost predicate Valid()
      reads this
    {
      && Image() && Files(addrs, blocks, content) && Sizes(sz, content)
      && daddrs == addrs && dsz == sz
    }

    /** One turn of readi's loop. */
    method ReadBlock(i: nat, o: nat, m: nat) returns (x: Bytes)
      requires Image() && i < |addrs| && i < |content| && File(addrs[i], blocks, content[i])
      requires 0 < m && o + m <= |content[i]| && o % BSIZE + m <= BSIZE
      modifies this`bitmap, this`bits, this`blocks, this`logged, this`addrs, this`owner
      ensures Image() && x == content[i][o..o + m]
      ensures addrs == old(addrs) && blocks == old(blocks) && bits == old(bits) && owner == old(owner)
      ensures logged == old(logged)
    {
      ReadStep(addrs, blocks, content[i], i, o, m);
      var r, addr := Bmap(i, o / BSIZE);
      x := blocks[addr][o % BSIZE..o % BSIZE + m];
    }

    /**
     * readi: -1 if the range starts past the end or wraps around; otherwise the bytes of the
     * file from off on, as many as there are of n.  Nothing is allocated or logged.
     */
    method Readi(i: nat, off: nat, n: nat) returns (r: int, dst: Bytes)
      requires Valid() && i < |addrs| && off < UINT && n < UINT
      modifies this`bitmap, this`bits, this`blocks, this`logged, this`addrs, this`owner
      ensures Valid() && addrs == old(addrs) && blocks == old(blocks) && bits == old(bits) && logged == old(logged)
      ensures off > |content[i]| || off + n >= UINT ==> r == -1
      ensures off <= |content[i]| && off + n < UINT ==>
                0 <= r && r == Min(n, |content[i]| - off) && dst == content[i][off..off + r]
    {
      dst := [];
      if off > sz[i] || (off + n) % UINT < off { return -1, []; }
      var n1 := n;
      if off + n > sz[i] { n1 := sz[i] - off; }
      var tot, o := 0, off;
      while tot < n1
        invariant tot <= n1 && o == off + tot && Valid()
        invariant addrs == old(addrs) && blocks == old(blocks) && bits == old(bits) && owner == old(owner)
        invariant logged == old(logged)
        invariant dst == content[i][off..o]
      {
        var m := Min(n1 - tot, BSIZE - o % BSIZE);
        var x := ReadBlock(i, o, m);
        SliceMore(content[i], off, o, o + m);
        dst := dst + x;
        tot, o := tot + m, o + m;
      }
      r := n1;
    }

    /** iupdate: the in-memory inode is logged. */
    method Iupdate(i: nat)
      requires i < |addrs| && i < |sz| && i < |daddrs| && i < |dsz|
      modifies this`daddrs, this`dsz, this`logged
      ensures daddrs == old(daddrs)[i := addrs[i]] && dsz == old(dsz)[i := sz[i]] && logged == old(logged) + {IBlock(i)}
    {
      daddrs, dsz, logged := daddrs[i := addrs[i]], dsz[i := sz[i]], logged + {IBlock(i)};
    }

    /** One turn of writei's loop: x goes to offset o, which is in one block with all of x. */
    method WriteBlock(i: nat, x: Bytes, o: nat) returns (ok: bool, ghost b: nat)
      requires Image() && Files(addrs, blocks, content) && i < |addrs|
      requires 0 < |x| && o % BSIZE + |x| <= BSIZE && o <= |content[i]| && o + |x| <= MAXFILE * BSIZE
      modifies this`bitmap, this`bits, this`blocks, this`logged, this`addrs, this`owner, this`content
      ensures !ok ==> Full(bits)
      ensures !ok ==> Used(old(content)[i := Overwrite(old(content)[i], o, x)], |old(content)|) > size - datastart
      ensures ok ==> old(logged) <= logged && Recorded(old(blocks), old(bits), blocks, bits, logged, bmapstart)
      ensures ok ==> Image() && Files(addrs, blocks, content) && |addrs| == |old(addrs)|
      ensures ok ==> addrs == old(addrs)[i := addrs[i]]
      ensures ok ==> content == old(content)[i := Overwrite(old(content)[i], o, x)]
      ensures ok && o + |x| <= |old(content)[i]| ==> addrs == old(addrs)
      ensures ok ==> LoggedOnly(old(logged), logged, BitmapBlocks(), {b}, Indirect(addrs[i]))
      ensures ok ==> Indirect(old(addrs)[i]) <= Indirect(addrs[i])
    {
      var bn, p := o / BSIZE, o % BSIZE;
      assert SlotDense(addrs[i], blocks, |content[i]|, DataSlot(bn));
      var r, addr := Bmap(i, bn);
      if r != Found {
        TooFewFor(old(addrs), old(blocks), old(bits), old(owner), datastart, content, i, bn, o, x);
        return false, 0;
      }
      ghost var d1, t1, l1 := blocks, bits, logged;
      IndirectKept(old(addrs), old(blocks), old(owner), addrs, blocks, i, PointerSlot(bn), DataSlot(bn));
      PutBytes(i, bn, p, x, addr, old(addrs), old(blocks), old(bits), old(owner));
      RecordedMore(old(blocks), old(bits), d1, t1, l1, blocks, bits, logged, bmapstart);
      ok, b := true, addr;
    }

    /** x goes to place p of block addr, which bmap has just found or made for block bn of the file. */
    method PutBytes(i: nat, bn: nat, p: nat, x: Bytes, addr: nat, ghost a: seq<seq<nat>>, ghost d: map<nat, Bytes>,
                    ghost t: seq<bool>, ghost w: map<nat, Slot>)
      requires Image() && i < |addrs| && bn < MAXFILE && addr == At(addrs[i], blocks, DataSlot(bn)) != 0
      requires Owned(a, d, t, w, datastart) && Files(a, d, content)
      requires Grown(a, d, w, addrs, blocks, i, PointerSlot(bn), DataSlot(bn))
      requires 0 < |x| && p + |x| <= BSIZE && bn * BSIZE + p <= |content[i]|
      modifies this`blocks, this`logged, this`content
      ensures Image() && Files(addrs, blocks, content) && logged == old(logged) + {addr}
      ensures Recorded(old(blocks), bits, blocks, bits, logged, bmapstart)
      ensures content == old(content)[i := Overwrite(old(content)[i], bn * BSIZE + p, x)]
    {
      DataBlock(addrs, blocks, bits, owner, datastart, i, bn);
      ghost var was := blocks;
      blocks := blocks[addr := Patch(blocks[addr], p, x)];
      WriteStep(a, d, t, w, datastart, addrs, was, bits, owner, blocks, i, bn, p, x, content);
      content := content[i := Overwrite(content[i], bn * BSIZE + p, x)];
      logged := logged + {addr};
      RecordedPut(was, bits, addr, blocks[addr], logged, bmapstart);
    }

    /** The same seen from the whole write: the next piece of src goes to o, and touched grows to t. */
    method WriteNext(i: nat, src: Bytes, off: nat, tot: nat, o: nat, ghost before: seq<Bytes>, ghost was: set<nat>,
                     ghost touched: set<nat>)
      returns (ok: bool, m: nat, ghost t: set<nat>)
      requires Image() && Files(addrs, blocks, content) && i < |addrs| && tot < |src| && off + |src| <= MAXFILE * BSIZE
      requires Reached(off, o, tot, |src|, |touched|) && Written(before, content, i, off, src, tot)
      requires LoggedOnly(was, logged, BitmapBlocks(), touched, Indirect(addrs[i]))
      modifies this`bitmap, this`bits, this`blocks, this`logged, this`addrs, this`owner, this`content
      ensures !ok ==> Full(bits) && Overfull(before, i, off, src, |src|, size - datastart)
      ensures ok ==> old(logged) <= logged && Recorded(old(blocks), old(bits), blocks, bits, logged, bmapstart)
      ensures ok ==> 0 < m && Image() && Files(addrs, blocks, content) && |addrs| == |old(addrs)|
      ensures ok ==> addrs == old(addrs)[i := addrs[i]]
      ensures ok ==> Reached(off, o + m, tot + m, |src|, |t|) && Written(before, content, i, off, src, tot + m)
      ensures ok ==> LoggedOnly(was, logged, BitmapBlocks(), t, Indirect(addrs[i]))
      ensures ok && o + m <= |before[i]| ==> addrs == old(addrs)
    {
      m := Min(|src| - tot, BSIZE - o % BSIZE);
      ghost var b;
      ok, b := WriteBlock(i, src[tot..tot + m], o);
      t := touched + {b};
      if !ok {
        OverfullHere(before, old(content), i, off, src, tot, o, tot + m, size - datastart);
        return;
      }
      WrittenMore(before, old(content), content, i, off, src, tot, o, tot + m);
      LoggedMore(was, old(logged), logged, BitmapBlocks(), touched, t, b, Indirect(old(addrs)[i]), Indirect(addrs[i]));
      ReachedMore(off, o, tot, |src|, |touched|, m, |t|);
    }

    /** writei's loop: the file grows as it is written, block by block; touched are its blocks. */
    method WriteLoop(i: nat, src: Bytes, off: nat) returns (ok: bool, ghost touched: set<nat>)
      requires Image() && Files(addrs, blocks, content) && i < |addrs| && off <= |content[i]|
      requires off + |src| <= MAXFILE * BSIZE
      modifies this`bitmap, this`bits, this`blocks, this`logged, this`addrs, this`owner, this`content
      ensures !ok ==> Full(bits) && Overfull(old(content), i, off, src, |src|, size - datastart)
      ensures ok ==> old(logged) <= logged && Recorded(old(blocks), old(bits), blocks, bits, logged, bmapstart)
      ensures ok ==> Image() && Files(addrs, blocks, content) && |addrs| == |old(addrs)|
      ensures ok ==> addrs == old(addrs)[i := addrs[i]]
      ensures ok ==> content == old(content)[i := Overwrite(old(content)[i], off, src)]
      ensures ok && off + |src| <= |old(content)[i]| ==> addrs == old(addrs)
      ensures ok ==> LoggedOnly(old(logged), logged, BitmapBlocks(), touched, Indirect(addrs[i]))
      ensures ok ==> |touched| <= Spanned(off, |src|)
    {
      touched := {};
      var tot: nat, o: nat := 0, off;
      WrittenNone(content, i, off, src);
      RecordedNone(blocks, bits, logged, bmapstart);
      while tot < |src|
        invariant Reached(off, o, tot, |src|, |touched|) && Written(old(content), content, i, off, src, tot)
        invariant Image() && Files(addrs, blocks, content) && OneInode(old(addrs), addrs, i)
        invariant o <= |old(content)[i]| ==> addrs == old(addrs)
        invariant LoggedOnly(old(logged), logged, BitmapBlocks(), touched, Indirect(addrs[i]))
        invariant old(logged) <= logged && Recorded(old(blocks), old(bits), blocks, bits, logged, bmapstart)
      {
        var m: nat;
        ghost var d1, t1, l1 := blocks, bits, logged;
        ok, m, touched := WriteNext(i, src, off, tot, o, old(content), old(logged), touched);
        if !ok { return; }
        RecordedMore(old(blocks), old(bits), d1, t1, l1, blocks, bits, logged, bmapstart);
        tot, o := tot + m, o + m;
      }
      WrittenAll(old(content), content, i, off, src);
      ok := true;
    }

    /**
     * writei: refused if the range starts past the end, wraps around, or ends past the largest
     * file; otherwise src overwrites or extends the file, and no other file changes.  On return
     * the logged inode is the in-memory one, although it is logged only if the size grew.
     */
    method Writei(i: nat, src: Bytes, off: nat) returns (r: WriteResult, ghost touched: set<nat>)
      requires Valid() && i < |addrs| && off < UINT && |src| < UINT
      modifies this
      ensures off > |old(content)[i]| || off + |src| > MAXFILE * BSIZE ==>
                r == Error && Valid() && content == old(content) && logged == old(logged) && addrs == old(addrs)
      ensures off <= |old(content)[i]| && off + |src| <= MAXFILE * BSIZE ==>
                if Overfull(old(content), i, off, src, |src|, size - datastart) then r == Panic && Full(bits) else r == Count(|src|)
      ensures r.Count? ==> old(logged) <= logged && Recorded(old(blocks), old(bits), blocks, bits, logged, bmapstart)
      ensures off + |src| <= |old(content)[i]| && off + |src| <= MAXFILE * BSIZE ==> r == Count(|src|)
      ensures r.Count? ==> (daddrs == old(daddrs) && dsz == old(dsz)) || IBlock(i) in logged
      ensures r.Count? ==> Valid() && |addrs| == |old(addrs)| && off <= |old(content)[i]|
      ensures r.Count? ==> content == old(content)[i := Overwrite(old(content)[i], off, src)]
      ensures r.Count? ==> logged <= old(logged) + BitmapBlocks() + touched + Indirect(addrs[i]) + {IBlock(i)}
      ensures r.Count? ==> |touched| <= Spanned(off, |src|)
    {
      touched := {};
      if off > sz[i] || (off + |src|) % UINT < off { return Error, {}; }
      if off + |src| > MAXFILE * BSIZE { return Error, {}; }
      OverfullNeeds(addrs, blocks, bits, owner, datastart, content, i, off, src);
      var ok;
      ok, touched := WriteLoop(i, src, off);
      if !ok { return Panic, {}; }
      NotOverfull(addrs, blocks, bits, owner, datastart, old(content), content, i, off, src);
      if |src| > 0 && off + |src| > sz[i] {
        sz := sz[i := off + |src|];
        Iupdate(i);
      }
      r := Count(|src|);
    }

    /** With one bitmap block, an operation that wrote at most CHUNK bytes has logged at most 7 blocks. */
    lemma ChunkFits(i: nat, off: nat, n: nat, touched: set<nat>)
      requires size <= BPB && n <= CHUNK && i < |addrs| && |addrs[i]| == NDIRECT + 1
      requires logged <= BitmapBlocks() + touched + Indirect(addrs[i]) + {IBlock(i)} && |touched| <= Spanned(off, n)
      ensures |logged| <= 7
    {
      var one := {bmapstart};
      assert BitmapBlocks() <= one;
      SizeOf(logged, one + touched + Indirect(addrs[i]) + {IBlock(i)});
    }

    /** One transaction of filewrite: begin_op, writei, end_op; cost is how many blocks it logs. */
    method Transaction(i: nat, x: Bytes, off: nat) returns (w: WriteResult, ghost cost: nat)
      requires Valid() && i < |addrs| && off < UINT && |x| <= CHUNK
      modifies this
      ensures w == Error <==> off > |old(content)[i]| || off + |x| > MAXFILE * BSIZE
      ensures w == Error ==> Valid() && content == old(content)
      ensures w == Panic <==> Fits(old(content)[i], x, off) && Overfull(old(content), i, off, x, |x|, size - datastart)
      ensures w == Panic ==> Full(bits)
      ensures w.Count? ==> cost == |logged| && Recorded(old(blocks), old(bits), blocks, bits, logged, bmapstart)
      ensures w.Count? ==> (daddrs == old(daddrs) && dsz == old(dsz)) || IBlock(i) in logged
      ensures w.Count? ==> w.n == |x| && Valid() && content == old(content)[i := Overwrite(old(content)[i], off, x)]
      ensures w.Count? && size <= BPB ==> cost <= 7
      ensures w != Panic ==> |addrs| == |old(addrs)|
    {
      logged := {};
      ghost var touched;
      w, touched := Writei(i, x, off);
      if w.Count? && size <= BPB { ChunkFits(i, off, |x|, touched); }
      cost := |logged|;
    }

    /**
     * filewrite on an inode: transactions of at most CHUNK bytes each, before each of which other
     * processes may use the file system: others[j] before the one numbered j.
     */
    method Filewrite(i: nat, src: Bytes, off: nat, others: seq<seq<FileOp>>)
      returns (r: int, off': nat, panicked: bool, ghost done: nat, ghost worst: nat)
      requires Valid() && i < |addrs| && off < UINT && |src| < UINT / 2 && LegalAll(|addrs|, others)
      modifies this
      ensures panicked <==> FilePanics(old(content), i, src, 0, off, others, 0, size - datastart)
      ensures panicked ==> Full(bits)
      ensures !panicked ==> Valid() && (content, done) == FileWritten(old(content), i, src, 0, off, others, 0)
      ensures !panicked && others == [] ==> DoneAlone(old(content), content, i, off, src, done)
      ensures !panicked ==> off' == off + done && r == if done == |src| then |src| else -1
      ensures size <= BPB ==> worst <= 7
    {
      FilewriteAlone(content, i, src, off);
      r, off', panicked, done, worst := WriteChunks(i, src, off, others);
    }

    /** Its loop. */
    method WriteChunks(i: nat, src: Bytes, off: nat, others: seq<seq<FileOp>>)
      returns (r: int, off': nat, panicked: bool, ghost done: nat, ghost worst: nat)
      requires Valid() && i < |addrs| && off < UINT && |src| < UINT / 2 && LegalAll(|addrs|, others)
      modifies this
      ensures panicked <==> FilePanics(old(content), i, src, 0, off, others, 0, size - datastart)
      ensures panicked ==> Full(bits)
      ensures !panicked ==> Valid() && (content, done) == FileWritten(old(content), i, src, 0, off, others, 0)
      ensures !panicked ==> off' == off + done && r == if done == |src| then |src| else -1
      ensures size <= BPB ==> worst <= 7
    {
      var k, j := 0, 0;
      off', worst := off, 0;
      ghost var files := content;
      ghost var end := EndOf(files, i, src, 0, off, others, 0, size - datastart);
      while k < |src|
        invariant off' == off + k && off' < UINT && Valid() && |addrs| == |old(addrs)|
        invariant content == files && Heads(end, files, i, src, k, off', others, j, size - datastart)
        invariant size <= BPB ==> worst <= 7
      {
        var n1 := Min(|src| - k, CHUNK);
        ghost var cost;
        var w;
        w, cost, files := NextChunk(i, src, k, off', n1, others, j, end, files);
        if w == Panic { return -1, off', true, k, worst; }
        if w == Error { return -1, off', false, k, worst; }
        worst := if cost > worst then cost else worst;
        k, off', j := k + n1, off' + n1, j + 1;
      }
      HeadsNowhere(end, files, i, src, off', others, j, size - datastart);
      r, panicked, done := |src|, false, k;
    }

    /** A turn of filewrite's loop: it leaves as much to do as the call had, less what it did. */
    method NextChunk(i: nat, src: Bytes, k: nat, o: nat, n1: nat, others: seq<seq<FileOp>>, j: nat,
                     ghost end: Ending, ghost was: seq<Bytes>)
      returns (w: WriteResult, ghost cost: nat, ghost files: seq<Bytes>)
      requires Valid() && i < |addrs| && o < UINT && k < |src| && n1 == Min(|src| - k, CHUNK)
      requires content == was && Heads(end, was, i, src, k, o, others, j, size - datastart)
      modifies this
      ensures w == Panic ==> Full(bits) && end.fatal
      ensures w != Panic ==> Valid() && |addrs| == |old(addrs)|
      ensures content == files
      ensures w == Error ==> end == Ending(files, k, false)
      ensures w.Count? ==> o + n1 < UINT && Heads(end, files, i, src, k + n1, o + n1, others, j + 1, size - datastart)
      ensures size <= BPB ==> cost <= 7
    {
      HeadsOn(end, was, Disturbed(was, others, j), i, src, k, o, others, j, size - datastart, n1);
      w, cost := Round(i, src[k..k + n1], o, others, j);
      files := content;
    }

    /** Others use the file system, then one transaction. */
    method Round(i: nat, x: Bytes, off: nat, others: seq<seq<FileOp>>, j: nat) returns (w: WriteResult, ghost cost: nat)
      requires Valid() && i < |addrs| && off < UINT && |x| <= CHUNK && LegalAll(|addrs|, others)
      modifies this
      ensures w == Panic <==> ChunkPanics(old(content), i, x, off, others, j, size - datastart)
      ensures w == Panic ==> Full(bits)
      ensures w != Panic ==> Valid() && |addrs| == |old(addrs)|
      ensures w != Panic ==> (w == Error <==> !Fits(Disturbed(old(content), others, j)[i], x, off))
      ensures w == Error ==> content == Disturbed(old(content), others, j)
      ensures w.Count? ==> var c := Disturbed(old(content), others, j); content == c[i := Overwrite(c[i], off, x)]
      ensures size <= BPB ==> cost <= 7
    {
      if j < |others| {
        var results, full := Run(others[j]);
        if full { return Panic, 0; }
      }
      w, cost := Transaction(i, x, off);
      if !w.Count? { cost := 0; }
    }

    /** itrunc's first loop: the direct blocks of inode i are freed. */
    method FreeDirect(i: nat) returns (ok: bool)
      requires Image() && i < |addrs|
      modifies this`bitmap, this`bits, this`logged, this`addrs, this`owner
      ensures ok && Image() && |addrs| == |old(addrs)| && addrs == old(addrs)[i := addrs[i]]
      ensures old(logged) <= logged && Recorded(blocks, old(bits), blocks, bits, logged, bmapstart)
      ensures addrs[i][NDIRECT] == old(addrs)[i][NDIRECT] && forall l :: 0 <= l < NDIRECT ==> addrs[i][l] == 0
    {
      RecordedNone(blocks, bits, logged, bmapstart);
      for k := 0 to NDIRECT
        invariant Image() && |addrs| == |old(addrs)| && addrs == old(addrs)[i := addrs[i]]
        invariant old(logged) <= logged && Recorded(blocks, old(bits), blocks, bits, logged, bmapstart)
        invariant addrs[i][NDIRECT] == old(addrs)[i][NDIRECT] && forall l :: 0 <= l < k ==> addrs[i][l] == 0
      {
        if addrs[i][k] != 0 {
          SetDirect(addrs, blocks, i, k, 0);
          Emptied(addrs, blocks, bits, owner, datastart, SetAddr(addrs, i, k, 0), blocks, i, k, addrs[i][k]);
          ghost var t1, l1 := bits, logged;
          ok := Bfree(addrs[i][k]);
          if !ok { return; }
          RecordedFree(blocks, t1, addrs[i][k], logged, bmapstart);
          RecordedMore(blocks, old(bits), blocks, t1, l1, blocks, bits, logged, bmapstart);
          owner, addrs := owner - {addrs[i][k]}, SetAddr(addrs, i, k, 0);
        }
      }
      ok := true;
    }

    /** itrunc's second loop: the blocks in the indirect block are freed, though it still lists them. */
    method FreeEntries(i: nat) returns (ok: bool, ghost live: map<nat, Bytes>)
      requires Image() && i < |addrs| && addrs[i][NDIRECT] != 0
      modifies this`bitmap, this`bits, this`logged, this`owner
      ensures ok && |bits| == size && BitmapHolds(bitmap, bits) && Owned(addrs, live, bits, owner, datastart)
      ensures old(logged) <= logged && Recorded(blocks, old(bits), blocks, bits, logged, bmapstart)
      ensures NoEntries(addrs[i], live) && addrs[i][NDIRECT] in blocks && |blocks[addrs[i][NDIRECT]]| == BSIZE
      ensures blocks == live[addrs[i][NDIRECT] := blocks[addrs[i][NDIRECT]]]
    {
      var x := addrs[i][NDIRECT];
      SetIndirect(addrs, blocks, bits, owner, datastart, i, NDIRECT + 1, 0);
      live := blocks;
      RecordedNone(blocks, bits, logged, bmapstart);
      for j := 0 to NINDIRECT
        invariant |bits| == size && BitmapHolds(bitmap, bits) && Owned(addrs, live, bits, owner, datastart)
        invariant old(logged) <= logged && Recorded(blocks, old(bits), blocks, bits, logged, bmapstart)
        invariant blocks == live[x := blocks[x]]
        invariant Emptying(addrs[i], live, blocks, NDIRECT + 1 + j)
      {
        var b := Entry(blocks[x], j);
        ghost var k := NDIRECT + 1 + j;
        assert At(addrs[i], live, k) == b;
        if b != 0 {
          SetIndirect(addrs, live, bits, owner, datastart, i, k, 0);
          ghost var next := live[x := SetEntry(live[x], j, 0)];
          Emptied(addrs, live, bits, owner, datastart, addrs, next, i, k, b);
          EmptyingMore(addrs, live, next, blocks, i, k);
          ghost var t1, l1 := bits, logged;
          ok := Bfree(b);
          if !ok { return; }
          RecordedFree(blocks, t1, b, logged, bmapstart);
          RecordedMore(blocks, old(bits), blocks, t1, l1, blocks, bits, logged, bmapstart);
          owner, live := owner - {b}, next;
        }
      }
      ok := true;
    }

    /** The indirect block of inode i, and the blocks it lists, are freed. */
    method FreeIndirect(i: nat) returns (ok: bool)
      requires Image() && i < |addrs| && addrs[i][NDIRECT] != 0 && forall l :: 0 <= l < NDIRECT ==> addrs[i][l] == 0
      modifies this`bitmap, this`bits, this`logged, this`addrs, this`owner
      ensures ok && Image() && |addrs| == |old(addrs)| && addrs == old(addrs)[i := addrs[i]]
      ensures old(logged) <= logged && Recorded(blocks, old(bits), blocks, bits, logged, bmapstart)
      ensures forall l :: 0 <= l < NDIRECT + 1 ==> addrs[i][l] == 0
    {
      ghost var live;
      ok, live := FreeEntries(i);
      ghost var t1, l1 := bits, logged;
      PointerFreed(addrs, live, blocks, bits, owner, datastart, i);
      ok := Bfree(addrs[i][NDIRECT]);
      RecordedFree(blocks, t1, addrs[i][NDIRECT], logged, bmapstart);
      RecordedMore(blocks, old(bits), blocks, t1, l1, blocks, bits, logged, bmapstart);
      owner, addrs := owner - {addrs[i][NDIRECT]}, SetAddr(addrs, i, NDIRECT, 0);
    }

    /**
     * itrunc: every slot of inode i is empty, its blocks are free, and no other inode changes;
     * the panic in bfree is not reached.
     */
    method Itrunc(i: nat) returns (ok: bool)
      requires Image() && i < |addrs| && |sz| == |daddrs| == |dsz| == |addrs|
      modifies this`bitmap, this`bits, this`logged, this`addrs, this`owner, this`sz, this`daddrs, this`dsz
      ensures ok && Image() && |addrs| == |old(addrs)| && addrs == old(addrs)[i := addrs[i]] && sz == old(sz)[i := 0]
      ensures forall k: nat {:trigger At(addrs[i], blocks, k)} :: k < NSLOTS ==> At(addrs[i], blocks, k) == 0
      ensures old(logged) <= logged && Recorded(blocks, old(bits), blocks, bits, logged, bmapstart) && IBlock(i) in logged
      ensures daddrs == old(daddrs)[i := addrs[i]] && dsz == old(dsz)[i := 0]
    {
      ok := FreeDirect(i);
      if addrs[i][NDIRECT] != 0 {
        ghost var t0, l0 := bits, logged;
        ok := FreeIndirect(i);
        RecordedMore(blocks, old(bits), blocks, t0, l0, blocks, bits, logged, bmapstart);
      }
      assert BlockAt(addrs, blocks, bits, owner, datastart, 0);
      ghost var l2 := logged;
      sz := sz[i := 0];
      Iupdate(i);
      RecordedNone(blocks, bits, logged, bmapstart);
      RecordedMore(blocks, old(bits), blocks, bits, l2, blocks, bits, logged, bmapstart);
    }

    /** A run of operations on files, until one panics for want of blocks. */
    method Run(ops: seq<FileOp>) returns (results: seq<Outcome>, panicked: bool)
      requires Valid() && Legal(|addrs|, ops)
      modifies this
      ensures |results| <= |ops| && results == Answers(old(content), ops, |results|)
      ensures Survives(old(content), ops, |results|, size - datastart)
      ensures panicked <==> |results| < |ops|
      ensures panicked ==> Full(bits) && Overflows(After(old(content), ops, |results|), ops[|results|], size - datastart)
      ensures panicked <==> !Survives(old(content), ops, |ops|, size - datastart)
      ensures !panicked ==> Valid() && |addrs| == |old(addrs)| && content == After(old(content), ops, |ops|)
    {
      results := [];
      for k := 0 to |ops|
        invariant Valid() && |addrs| == |old(addrs)| && |results| == k
        invariant content == After(old(content), ops, k) && results == Answers(old(content), ops, k)
        invariant Survives(old(content), ops, k, size - datastart)
      {
        var r, p := Do(ops[k]);
        if p {
          assert !Survives(old(content), ops, k + 1, size - datastart);
          if Survives(old(content), ops, |ops|, size - datastart) { SurvivesLess(old(content), ops, k + 1, |ops|, size - datastart); }
          return results, true;
        }
        results := results + [r];
      }
      panicked := false;
    }

    method Do(op: FileOp) returns (r: Outcome, panicked: bool)
      requires Valid() && op.i < |addrs| && LegalOp(op)
      modifies this
      ensures panicked <==> Overflows(old(content), op, size - datastart)
      ensures panicked ==> Full(bits)
      ensures !panicked ==> Valid() && |addrs| == |old(addrs)| && |content| == |old(content)|
      ensures !panicked ==> content == Next(old(content), op) && r == Answer(old(content), op)
    {
      panicked, r := false, Outcome(0, []);
      match op {
        case Read(i, off, n) =>
          var c, dst := Readi(i, off, n);
          r := Outcome(c, if c == -1 then [] else dst);
        case Write(i, src, off) =>
          ghost var touched;
          var w;
          w, touched := Writei(i, src, off);
          panicked := w == Panic;
          r := Outcome(if w.Count? then w.n else -1, []);
        case Trunc(i) =>
          var ok := Itrunc(i);
          EmptyFile(addrs[i], blocks);
          content := content[i := []];
      }
    }
  }
}
