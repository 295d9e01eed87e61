/** What a file's bytes are, and how writing part of a block changes them. */
module FileContent {
  import opened Blocks
  import opened Ownership

  /** Byte o of the file is in its block o / BSIZE. */
  ghost predicate ByteAt(a: seq<nat>, blocks: map<nat, Bytes>, c: Bytes, o: nat)
    requires |a| == NDIRECT + 1 && o < |c|
  {
    && o / BSIZE < MAXFILE
    && var b := At(a, blocks, DataSlot(o / BSIZE)); b in blocks && |blocks[b]| == BSIZE && blocks[b][o % BSIZE] == c[o]
  }

  /** Does a file of n bytes need slot k? */
  ghost predicate Covered(k: nat, n: nat) {
    (if k <= NDIRECT then k else k - 1) * BSIZE < n
  }

  ghost predicate SlotDense(a: seq<nat>, blocks: map<nat, Bytes>, n: nat, k: nat)
    requires |a| == NDIRECT + 1 && k < NSLOTS
  {
    At(a, blocks, k) != 0 <==> Covered(k, n)
  }

  /** The file's contents are c and it has no holes and no blocks past its end. */
  ghost predicate File(a: seq<nat>, blocks: map<nat, Bytes>, c: Bytes) {
    && |a| == NDIRECT + 1
    && (forall o: nat :: o < |c| ==> ByteAt(a, blocks, c, o))
    && (forall k: nat :: k < NSLOTS ==> SlotDense(a, blocks, |c|, k))
  }

  ghost predicate Files(addrs: seq<seq<nat>>, blocks: map<nat, Bytes>, content: seq<Bytes>) {
    && |content| == |addrs|
    && (forall i: nat {:trigger addrs[i]} {:trigger content[i]} :: i < |addrs| ==> File(addrs[i], blocks, content[i]))
  }

  /** memmove of x to p. */
  function Patch(b: Bytes, p: nat, x: Bytes): (r: Bytes)
    requires p + |x| <= |b|
    ensures |r| == |b| && forall o {:trigger r[o]} :: 0 <= o < |r| ==> r[o] == if p <= o < p + |x| then x[o - p] else b[o]
  {
    b[..p] + x + b[p + |x|..]
  }

  /** The file after x is written at off. */
  ghost function Overwrite(c: Bytes, off: nat, x: Bytes): (r: Bytes)
    requires off <= |c|
    ensures |r| == if off + |x| > |c| then off + |x| else |c|
    ensures forall o {:trigger r[o]} :: 0 <= o < |r| ==> r[o] == if off <= o < off + |x| then x[o - off] else c[o]
  {
    c[..off] + x + (if off + |x| < |c| then c[off + |x|..] else [])
  }

  lemma OverwriteTwice(c: Bytes, off: nat, x: Bytes, y: Bytes)
    requires off <= |c|
    ensures Overwrite(Overwrite(c, off, x), off + |x|, y) == Overwrite(c, off, x + y)
  {
    var r, r' := Overwrite(Overwrite(c, off, x), off + |x|, y), Overwrite(c, off, x + y);
    assert |r| == |r'|;
    forall o | 0 <= o < |r| ensures r[o] == r'[o] {}
  }

  /** Writing a prefix of src, then the next m bytes. */
  lemma OverwriteMore(c: Bytes, off: nat, src: Bytes, tot: nat, m: nat)
    requires off <= |c| && tot + m <= |src|
    ensures Overwrite(Overwrite(c, off, src[..tot]), off + tot, src[tot..tot + m]) == Overwrite(c, off, src[..tot + m])
  {
    assert src[..tot] + src[tot..tot + m] == src[..tot + m];
    OverwriteTwice(c, off, src[..tot], src[tot..tot + m]);
  }

  lemma OverwriteNone(c: Bytes, off: nat, src: Bytes)
    requires off <= |c|
    ensures Overwrite(c, off, src[..0]) == c && src[..|src|] == src
  {
    var r := Overwrite(c, off, src[..0]);
    assert |r| == |c| && forall o :: 0 <= o < |r| ==> r[o] == c[o];
  }

  /** Filling slots changes no file but inode i's, and of that only which slots are empty. */
  lemma Kept(addrs: seq<seq<nat>>, blocks: map<nat, Bytes>, bits: seq<bool>, owner: map<nat, Slot>, lo: nat,
             addrs': seq<seq<nat>>, blocks': map<nat, Bytes>, i: nat, k1: nat, k2: nat, j: nat, c: Bytes, o: nat)
    requires Owned(addrs, blocks, bits, owner, lo) && Grown(addrs, blocks, owner, addrs', blocks', i, k1, k2)
    requires j < |addrs| && o < |c| && ByteAt(addrs[j], blocks, c, o)
    ensures ByteAt(addrs'[j], blocks', c, o)
    ensures At(addrs'[j], blocks', DataSlot(o / BSIZE)) == At(addrs[j], blocks, DataSlot(o / BSIZE))
  {
    var k := DataSlot(o / BSIZE);
    var b := At(addrs[j], blocks, k);
    assert BlockAt(addrs, blocks, bits, owner, lo, 0);
    assert SlotAt(addrs, blocks, owner, j, k);
    assert At(addrs'[j], blocks', k) == b;
  }

  /** The slots of inode j after block bn was mapped and the file's length became n'. */
  lemma DenseStep(addrs: seq<seq<nat>>, blocks: map<nat, Bytes>, owner: map<nat, Slot>, addrs': seq<seq<nat>>,
                  blocks': map<nat, Bytes>,
                  i: nat, bn: nat, n: nat, n': nat, k: nat)
    requires Grown(addrs, blocks, owner, addrs', blocks', i, PointerSlot(bn), DataSlot(bn)) && i < |addrs|
    requires k < NSLOTS && bn < MAXFILE
    requires SlotDense(addrs[i], blocks, n, k) && bn * BSIZE <= n
    requires n' == n > bn * BSIZE || (n <= n' && bn * BSIZE < n' <= bn * BSIZE + BSIZE)
    ensures SlotDense(addrs'[i], blocks', n', k)
  {
    assert At(addrs'[i], blocks', k) == At(addrs'[i], blocks', k);
  }

  /** The block that inode i's block bn is in belongs to that slot, and is not an indirect block. */
  lemma DataBlock(addrs: seq<seq<nat>>, blocks: map<nat, Bytes>, bits: seq<bool>, owner: map<nat, Slot>, lo: nat,
                  i: nat, bn: nat)
    requires Owned(addrs, blocks, bits, owner, lo) && i < |addrs| && bn < MAXFILE && At(addrs[i], blocks, DataSlot(bn)) != 0
    ensures var b := At(addrs[i], blocks, DataSlot(bn));
            b in blocks && |blocks[b]| == BSIZE && b in owner && owner[b] == Slot(i, DataSlot(bn)) && owner[b].k != NDIRECT
  {
    var b := At(addrs[i], blocks, DataSlot(bn));
    assert SlotAt(addrs, blocks, owner, i, DataSlot(bn)) && BlockAt(addrs, blocks, bits, owner, lo, b);
  }

  /** Part of inode i's block bn is written; a byte of inode j. */
  lemma ByteStep(addrs: seq<seq<nat>>, blocks: map<nat, Bytes>, bits: seq<bool>, owner: map<nat, Slot>, lo: nat,
                 i: nat, bn: nat, p: nat, x: Bytes, blocks': map<nat, Bytes>, j: nat, c: Bytes, c': Bytes, o: nat)
    requires Owned(addrs, blocks, bits, owner, lo) && i < |addrs| && j < |addrs| && bn < MAXFILE && p + |x| <= BSIZE
    requires At(addrs[i], blocks, DataSlot(bn)) in blocks && |blocks[At(addrs[i], blocks, DataSlot(bn))]| == BSIZE
    requires var b := At(addrs[i], blocks, DataSlot(bn)); b != 0 && blocks' == blocks[b := Patch(blocks[b], p, x)]
    requires At(addrs[j], blocks', DataSlot(bn)) == At(addrs[j], blocks, DataSlot(bn))
    requires o < |c'|
    requires (o < |c| ==> ByteAt(addrs[j], blocks, c, o) && At(addrs[j], blocks', DataSlot(o / BSIZE)) == At(addrs[j], blocks, DataSlot(o / BSIZE)))
    requires if j == i then bn * BSIZE + p <= |c| && c' == Overwrite(c, bn * BSIZE + p, x) else c' == c
    ensures ByteAt(addrs[j], blocks', c', o)
  {
    DataBlock(addrs, blocks, bits, owner, lo, i, bn);
    var b := At(addrs[i], blocks, DataSlot(bn));
    if o < |c| {
      var d := At(addrs[j], blocks, DataSlot(o / BSIZE));
      assert BlockAt(addrs, blocks, bits, owner, lo, 0) && SlotAt(addrs, blocks, owner, j, DataSlot(o / BSIZE));
      if d == b {
        assert j == i && o / BSIZE == bn;
        assert blocks'[b][o % BSIZE] == if p <= o % BSIZE < p + |x| then x[o % BSIZE - p] else blocks[b][o % BSIZE];
      }
    } else {
      assert o / BSIZE == bn && o % BSIZE == o - bn * BSIZE;
    }
  }

  /** The state after inode i's block bn was mapped and x written at p in it. */
  ghost predicate Wrote(addrs: seq<seq<nat>>, blocks: map<nat, Bytes>, i: nat, bn: nat, p: nat, x: Bytes,
                        blocks': map<nat, Bytes>) {
    && i < |addrs| && |addrs[i]| == NDIRECT + 1 && bn < MAXFILE && p + |x| <= BSIZE
    && var b := At(addrs[i], blocks, DataSlot(bn));
       b != 0 && b in blocks && |blocks[b]| == BSIZE && blocks' == blocks[b := Patch(blocks[b], p, x)]
  }

  /** One turn of writei's loop: inode j's file. */
  lemma FileStep(addrs: seq<seq<nat>>, blocks: map<nat, Bytes>, bits: seq<bool>, owner: map<nat, Slot>, lo: nat,
                 a1: seq<seq<nat>>, b1: map<nat, Bytes>, bits1: seq<bool>, o1: map<nat, Slot>, b2: map<nat, Bytes>,
                 i: nat, bn: nat, p: nat, x: Bytes, j: nat, c: Bytes, c': Bytes)
    requires Owned(addrs, blocks, bits, owner, lo) && Owned(a1, b1, bits1, o1, lo)
    requires Grown(addrs, blocks, owner, a1, b1, i, PointerSlot(bn), DataSlot(bn)) && Wrote(a1, b1, i, bn, p, x, b2)
    requires 0 < |x|
    requires j < |addrs| && File(addrs[j], blocks, c)
    requires forall k: nat {:trigger At(a1[j], b2, k)} :: k < NSLOTS ==> At(a1[j], b2, k) == At(a1[j], b1, k)
    requires if j == i then bn * BSIZE + p <= |c| && c' == Overwrite(c, bn * BSIZE + p, x) else c' == c
    ensures File(a1[j], b2, c')
  {
    forall o: nat | o < |c'| ensures ByteAt(a1[j], b2, c', o) {
      if o < |c| {
        assert ByteAt(addrs[j], blocks, c, o);
        Kept(addrs, blocks, bits, owner, lo, a1, b1, i, PointerSlot(bn), DataSlot(bn), j, c, o);
      }
      ByteStep(a1, b1, bits1, o1, lo, i, bn, p, x, b2, j, c, c', o);
    }
    forall k: nat | k < NSLOTS ensures SlotDense(a1[j], b2, |c'|, k) {
      assert SlotDense(addrs[j], blocks, |c|, k) && At(a1[j], b2, k) == At(a1[j], b1, k);
      if j == i { DenseStep(addrs, blocks, owner, a1, b1, i, bn, |c|, |c'|, k); }
    }
  }

  /** One turn of writei's loop. */
  lemma WriteStep(addrs: seq<seq<nat>>, blocks: map<nat, Bytes>, bits: seq<bool>, owner: map<nat, Slot>, lo: nat,
                  a1: seq<seq<nat>>, b1: map<nat, Bytes>, bits1: seq<bool>, o1: map<nat, Slot>, b2: map<nat, Bytes>,
                  i: nat, bn: nat, p: nat, x: Bytes, content: seq<Bytes>)
    requires Owned(addrs, blocks, bits, owner, lo) && Owned(a1, b1, bits1, o1, lo)
    requires Grown(addrs, blocks, owner, a1, b1, i, PointerSlot(bn), DataSlot(bn)) && Wrote(a1, b1, i, bn, p, x, b2)
    requires 0 < |x|
    requires Files(addrs, blocks, content) && bn * BSIZE + p <= |content[i]|
    ensures Owned(a1, b2, bits1, o1, lo) && Files(a1, b2, content[i := Overwrite(content[i], bn * BSIZE + p, x)])
  {
    DataBlock(a1, b1, bits1, o1, lo, i, bn);
    var b := At(a1[i], b1, DataSlot(bn));
    Rewritten(a1, b1, bits1, o1, lo, b, b2[b]);
    var content' := content[i := Overwrite(content[i], bn * BSIZE + p, x)];
    forall j: nat | j < |a1| ensures File(a1[j], b2, content'[j]) {
      assert File(addrs[j], blocks, content[j]);
      FileStep(addrs, blocks, bits, owner, lo, a1, b1, bits1, o1, b2, i, bn, p, x, j, content[j], content'[j]);
    }
  }

  /** Reading m bytes at o, within one block. */
  lemma ReadStep(addrs: seq<seq<nat>>, blocks: map<nat, Bytes>, c: Bytes, i: nat, o: nat, m: nat)
    requires i < |addrs| && File(addrs[i], blocks, c) && 0 < m && o + m <= |c| && o % BSIZE + m <= BSIZE
    ensures o / BSIZE < MAXFILE
    ensures var b := At(addrs[i], blocks, DataSlot(o / BSIZE));
            b != 0 && b in blocks && |blocks[b]| == BSIZE && blocks[b][o % BSIZE..o % BSIZE + m] == c[o..o + m]
  {
    assert ByteAt(addrs[i], blocks, c, o) && SlotDense(addrs[i], blocks, |c|, DataSlot(o / BSIZE));
    var b := At(addrs[i], blocks, DataSlot(o / BSIZE));
    var x, y := blocks[b][o % BSIZE..o % BSIZE + m], c[o..o + m];
    forall k: nat | k < m ensures x[k] == y[k] {
      assert ByteAt(addrs[i], blocks, c, o + k);
      assert (o + k) / BSIZE == o / BSIZE && (o + k) % BSIZE == o % BSIZE + k;
    }
  }
}
