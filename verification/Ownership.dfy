/**
 * Which inode slot owns which disk block.  An inode has NSLOTS slots: NDIRECT direct blocks,
 * slot NDIRECT for the indirect block, then the entries of the indirect block.
 */
module Ownership {
  import opened Blocks

  const NDIRECT: nat := 12
  const MAXFILE: nat := NDIRECT + NINDIRECT
  const NSLOTS: nat := NDIRECT + 1 + NINDIRECT

  datatype Slot = Slot(i: nat, k: nat)

  /** The slot for the file's block number bn. */
  function DataSlot(bn: nat): nat {
    if bn < NDIRECT then bn else bn + 1
  }

  /** The disk block in slot k of an inode with the given addresses; 0 if none. */
  ghost function At(a: seq<nat>, blocks: map<nat, Bytes>, k: nat): nat
    requires |a| == NDIRECT + 1 && k < NSLOTS
  {
    if k <= NDIRECT then a[k]
    else if a[NDIRECT] in blocks && |blocks[a[NDIRECT]]| == BSIZE then Entry(blocks[a[NDIRECT]], k - NDIRECT - 1)
    else 0
  }

  // ---- The invariant ---------------------------------------------------------------------------

  ghost predicate Inodes(addrs: seq<seq<nat>>) {
    forall i :: 0 <= i < |addrs| ==> |addrs[i]| == NDIRECT + 1
  }

  /** Block b's bit is set iff it is metadata or is in the one slot that owns it. */
  ghost predicate BlockAt(addrs: seq<seq<nat>>, blocks: map<nat, Bytes>, bits: seq<bool>, owner: map<nat, Slot>,
                          lo: nat, b: nat)
    requires Inodes(addrs)
  {
    if b < lo || b >= |bits| then b !in blocks && b !in owner && (b < |bits| ==> bits[b])
    else
      && b in blocks && |blocks[b]| == BSIZE && (bits[b] <==> b in owner)
      && (b in owner ==> owner[b].i < |addrs| && owner[b].k < NSLOTS && At(addrs[owner[b].i], blocks, owner[b].k) == b)
  }

  /** What slot k of inode i holds it owns. */
  ghost predicate SlotAt(addrs: seq<seq<nat>>, blocks: map<nat, Bytes>, owner: map<nat, Slot>, i: nat, k: nat)
    requires Inodes(addrs) && i < |addrs| && k < NSLOTS
  {
    var b := At(addrs[i], blocks, k);
    b != 0 ==> b in owner && owner[b] == Slot(i, k)
  }

  /** The blocks from lo on are data; the ones below are metadata. */
  ghost predicate Owned(addrs: seq<seq<nat>>, blocks: map<nat, Bytes>, bits: seq<bool>, owner: map<nat, Slot>, lo: nat) {
    && Inodes(addrs) && 0 < lo <= |bits| <= 0x1_0000_0000
    && (forall b: nat :: BlockAt(addrs, blocks, bits, owner, lo, b))
    && (forall i: nat, k: nat :: i < |addrs| && k < NSLOTS ==> SlotAt(addrs, blocks, owner, i, k))
  }

  // ---- Its changes -------------------------------------------------------------------------------

  lemma {:induction false} ZeroEntries(k: nat)
    requires k < NINDIRECT
    ensures Entry(ZERO, k) == 0
  {
  }

  /** Block b, which is not an indirect block, is rewritten: no slot changes. */
  lemma Rewritten(addrs: seq<seq<nat>>, blocks: map<nat, Bytes>, bits: seq<bool>, owner: map<nat, Slot>, lo: nat,
                  b: nat, x: Bytes)
    requires Owned(addrs, blocks, bits, owner, lo) && b in blocks && |x| == BSIZE && (b in owner ==> owner[b].k != NDIRECT)
    ensures Owned(addrs, blocks[b := x], bits, owner, lo)
    ensures forall i: nat, k: nat {:trigger At(addrs[i], blocks[b := x], k)} :: i < |addrs| && k < NSLOTS ==>
              At(addrs[i], blocks[b := x], k) == At(addrs[i], blocks, k)
  {
    var blocks' := blocks[b := x];
    forall i: nat, k: nat | i < |addrs| && k < NSLOTS
      ensures At(addrs[i], blocks', k) == At(addrs[i], blocks, k) && SlotAt(addrs, blocks', owner, i, k)
    {
      assert BlockAt(addrs, blocks, bits, owner, lo, 0) && SlotAt(addrs, blocks, owner, i, k) && SlotAt(addrs, blocks, owner, i, NDIRECT);
    }
    forall c: nat ensures BlockAt(addrs, blocks', bits, owner, lo, c) {
      assert BlockAt(addrs, blocks, bits, owner, lo, c);
    }
  }

  /** The inode addresses and blocks after slot k of inode i is set to b. */
  ghost predicate Sets(addrs: seq<seq<nat>>, blocks: map<nat, Bytes>, addrs': seq<seq<nat>>, blocks': map<nat, Bytes>,
                       i: nat, k: nat, b: nat)
  {
    && Inodes(addrs) && Inodes(addrs') && |addrs'| == |addrs| && i < |addrs| && k < NSLOTS
    && blocks'.Keys == blocks.Keys && (forall c {:trigger blocks'[c]} :: c in blocks ==> |blocks'[c]| == |blocks[c]|)
    && (forall j: nat, l: nat {:trigger At(addrs'[j], blocks', l)} :: j < |addrs| && l < NSLOTS ==>
          At(addrs'[j], blocks', l) == if j == i && l == k then b else At(addrs[j], blocks, l))
  }

  /** A free block goes into an empty slot. */
  lemma Filled(addrs: seq<seq<nat>>, blocks: map<nat, Bytes>, bits: seq<bool>, owner: map<nat, Slot>, lo: nat,
               addrs': seq<seq<nat>>, blocks': map<nat, Bytes>, i: nat, k: nat, b: nat)
    requires Owned(addrs, blocks, bits, owner, lo) && Sets(addrs, blocks, addrs', blocks', i, k, b)
    requires lo <= b < |bits| && !bits[b] && At(addrs[i], blocks, k) == 0
    ensures Owned(addrs', blocks', bits[b := true], owner[b := Slot(i, k)], lo)
  {
    var bits', owner' := bits[b := true], owner[b := Slot(i, k)];
    assert BlockAt(addrs, blocks, bits, owner, lo, b);
    forall c: nat ensures BlockAt(addrs', blocks', bits', owner', lo, c) { assert BlockAt(addrs, blocks, bits, owner, lo, c); }
    forall j: nat, l: nat | j < |addrs'| && l < NSLOTS ensures SlotAt(addrs', blocks', owner', j, l) {
      assert SlotAt(addrs, blocks, owner, j, l);
    }
  }

  /** Slot k of inode i gives its block up. */
  lemma Emptied(addrs: seq<seq<nat>>, blocks: map<nat, Bytes>, bits: seq<bool>, owner: map<nat, Slot>, lo: nat,
                addrs': seq<seq<nat>>, blocks': map<nat, Bytes>, i: nat, k: nat, b: nat)
    requires Owned(addrs, blocks, bits, owner, lo) && Sets(addrs, blocks, addrs', blocks', i, k, 0)
    requires b == At(addrs[i], blocks, k) != 0
    ensures b < |bits| && bits[b] && Owned(addrs', blocks', bits[b := false], owner - {b}, lo)
  {
    assert SlotAt(addrs, blocks, owner, i, k) && BlockAt(addrs, blocks, bits, owner, lo, b);
    var bits', owner' := bits[b := false], owner - {b};
    forall c: nat ensures BlockAt(addrs', blocks', bits', owner', lo, c) { assert BlockAt(addrs, blocks, bits, owner, lo, c); }
    forall j: nat, l: nat | j < |addrs'| && l < NSLOTS ensures SlotAt(addrs', blocks', owner', j, l) {
      assert SlotAt(addrs, blocks, owner, j, l);
    }
  }

  /** ip->addrs[k] = b, for inode i. */
  function SetAddr(addrs: seq<seq<nat>>, i: nat, k: nat, b: nat): seq<seq<nat>>
    requires i < |addrs| && k < |addrs[i]|
  {
    var a: seq<nat> := addrs[i][k := b];
    addrs[i := a]
  }

  /** A direct slot is set, or the indirect slot while the block has no entries. */
  lemma SetDirect(addrs: seq<seq<nat>>, blocks: map<nat, Bytes>, i: nat, k: nat, b: nat)
    requires Inodes(addrs) && i < |addrs| && k <= NDIRECT
    requires k == NDIRECT ==> NoEntries(addrs[i], blocks) && NoEntries(addrs[i][k := b], blocks)
    ensures Sets(addrs, blocks, SetAddr(addrs, i, k, b), blocks, i, k, b)
  {
    var addrs' := SetAddr(addrs, i, k, b);
    forall j: nat, l: nat | j < |addrs| && l < NSLOTS
      ensures At(addrs'[j], blocks, l) == if j == i && l == k then b else At(addrs[j], blocks, l)
    {
      if k == NDIRECT && l > NDIRECT { assert At(addrs[i], blocks, l) == 0 == At(addrs[i][k := b], blocks, l); }
    }
  }

  ghost predicate NoEntries(a: seq<nat>, blocks: map<nat, Bytes>)
    requires |a| == NDIRECT + 1
  {
    forall k: nat {:trigger At(a, blocks, k)} :: NDIRECT < k < NSLOTS ==> At(a, blocks, k) == 0
  }

  /** In live the indirect entries before slot k are gone, the others as in blocks. */
  ghost predicate Emptying(a: seq<nat>, live: map<nat, Bytes>, blocks: map<nat, Bytes>, k: nat) {
    && |a| == NDIRECT + 1
    && forall l: nat {:trigger At(a, live, l)} :: NDIRECT < l < NSLOTS ==> At(a, live, l) == if l < k then 0 else At(a, blocks, l)
  }

  lemma EmptyingMore(addrs: seq<seq<nat>>, live: map<nat, Bytes>, next: map<nat, Bytes>, blocks: map<nat, Bytes>,
                     i: nat, k: nat)
    requires Inodes(addrs) && i < |addrs| && NDIRECT < k < NSLOTS && Emptying(addrs[i], live, blocks, k)
    requires Sets(addrs, live, addrs, next, i, k, 0)
    ensures Emptying(addrs[i], next, blocks, k + 1)
  {
  }

  /** Entry k of inode i's indirect block is set. */
  lemma SetIndirect(addrs: seq<seq<nat>>, blocks: map<nat, Bytes>, bits: seq<bool>, owner: map<nat, Slot>, lo: nat,
                    i: nat, k: nat, b: nat)
    requires Owned(addrs, blocks, bits, owner, lo) && i < |addrs| && NDIRECT < k < NSLOTS && b < 0x1_0000_0000
    requires addrs[i][NDIRECT] != 0
    ensures var x := addrs[i][NDIRECT];
            && x in blocks && |blocks[x]| == BSIZE
            && Sets(addrs, blocks, addrs, blocks[x := SetEntry(blocks[x], k - NDIRECT - 1, b)], i, k, b)
  {
    var x := addrs[i][NDIRECT];
    assert SlotAt(addrs, blocks, owner, i, NDIRECT) && BlockAt(addrs, blocks, bits, owner, lo, x);
    var blocks' := blocks[x := SetEntry(blocks[x], k - NDIRECT - 1, b)];
    forall j: nat, l: nat | j < |addrs| && l < NSLOTS
      ensures At(addrs[j], blocks', l) == if j == i && l == k then b else At(addrs[j], blocks, l)
    {
      assert SlotAt(addrs, blocks, owner, j, NDIRECT);
      if l > NDIRECT { EntrySet(blocks[x], k - NDIRECT - 1, b, l - NDIRECT - 1); }
    }
  }

  // ---- Allocation --------------------------------------------------------------------------------

  /** The slot that must be filled before block bn's own: the indirect block's, for a large bn. */
  function PointerSlot(bn: nat): nat {
    if bn < NDIRECT then bn else NDIRECT
  }

  ghost predicate Extends(owner: map<nat, Slot>, owner': map<nat, Slot>) {
    forall b {:trigger owner'[b]} {:trigger b in owner'} :: b in owner ==> b in owner' && owner'[b] == owner[b]
  }

  /** Slots are only filled, slots k1 and k2 of inode i, and no data block changes. */
  ghost predicate Grown(addrs: seq<seq<nat>>, blocks: map<nat, Bytes>, owner: map<nat, Slot>,
                        addrs': seq<seq<nat>>, blocks': map<nat, Bytes>, i: nat, k1: nat, k2: nat)
  {
    && Inodes(addrs) && Inodes(addrs') && |addrs'| == |addrs| && blocks'.Keys == blocks.Keys
    && (forall j: nat, l: nat {:trigger At(addrs'[j], blocks', l)} :: j < |addrs| && l < NSLOTS ==>
          if j == i && (l == k1 || l == k2) && At(addrs[j], blocks, l) == 0 then At(addrs'[j], blocks', l) != 0
          else At(addrs'[j], blocks', l) == At(addrs[j], blocks, l))
    && (forall b {:trigger blocks'[b]} :: b in owner && b in blocks && owner[b].k != NDIRECT ==> blocks'[b] == blocks[b])
  }

  /** A free block, zeroed, becomes direct block or indirect block k of inode i. */
  lemma DirectFilled(addrs: seq<seq<nat>>, blocks: map<nat, Bytes>, bits: seq<bool>, owner: map<nat, Slot>, lo: nat,
                     i: nat, k: nat, b: nat)
    requires Owned(addrs, blocks, bits, owner, lo) && i < |addrs| && k <= NDIRECT && addrs[i][k] == 0
    requires lo <= b < |bits| && !bits[b]
    ensures Owned(SetAddr(addrs, i, k, b), blocks[b := ZERO], bits[b := true], owner[b := Slot(i, k)], lo)
    ensures Extends(owner, owner[b := Slot(i, k)])
    ensures Grown(addrs, blocks, owner, SetAddr(addrs, i, k, b), blocks[b := ZERO], i, k, k)
  {
    assert BlockAt(addrs, blocks, bits, owner, lo, b) && BlockAt(addrs, blocks, bits, owner, lo, 0);
    Rewritten(addrs, blocks, bits, owner, lo, b, ZERO);
    var blocks' := blocks[b := ZERO];
    if k == NDIRECT {
      var a: seq<nat> := addrs[i][k := b];
      forall l: nat | NDIRECT < l < NSLOTS ensures At(a, blocks', l) == 0 { ZeroEntries(l - NDIRECT - 1); }
    }
    SetDirect(addrs, blocks', i, k, b);
    Filled(addrs, blocks', bits, owner, lo, SetAddr(addrs, i, k, b), blocks', i, k, b);
  }

  /** A free block, zeroed, goes into an entry of inode i's indirect block. */
  lemma IndirectFilled(addrs: seq<seq<nat>>, blocks: map<nat, Bytes>, bits: seq<bool>, owner: map<nat, Slot>, lo: nat,
                       i: nat, k: nat, b: nat)
    returns (blocks': map<nat, Bytes>)
    requires Owned(addrs, blocks, bits, owner, lo) && i < |addrs| && NDIRECT < k < NSLOTS && addrs[i][NDIRECT] != 0
    requires At(addrs[i], blocks, k) == 0 && lo <= b < |bits| && !bits[b]
    ensures var x := addrs[i][NDIRECT];
            && x in blocks && |blocks[x]| == BSIZE && x != b
            && blocks' == blocks[b := ZERO][x := SetEntry(blocks[x], k - NDIRECT - 1, b)]
    ensures Owned(addrs, blocks', bits[b := true], owner[b := Slot(i, k)], lo) && At(addrs[i], blocks', k) == b
    ensures blocks'[b] == ZERO
    ensures Grown(addrs, blocks, owner, addrs, blocks', i, k, k)
  {
    var x := addrs[i][NDIRECT];
    assert BlockAt(addrs, blocks, bits, owner, lo, b) && SlotAt(addrs, blocks, owner, i, NDIRECT) && BlockAt(addrs, blocks, bits, owner, lo, x);
    Rewritten(addrs, blocks, bits, owner, lo, b, ZERO);
    var zeroed := blocks[b := ZERO];
    SetIndirect(addrs, zeroed, bits, owner, lo, i, k, b);
    blocks' := zeroed[x := SetEntry(zeroed[x], k - NDIRECT - 1, b)];
    Filled(addrs, zeroed, bits, owner, lo, addrs, blocks', i, k, b);
  }

  lemma GrownTwice(addrs: seq<seq<nat>>, blocks: map<nat, Bytes>, owner: map<nat, Slot>, a1: seq<seq<nat>>,
                   b1: map<nat, Bytes>, o1: map<nat, Slot>,
                   a2: seq<seq<nat>>, b2: map<nat, Bytes>, i: nat, bn: nat)
    requires Grown(addrs, blocks, owner, a1, b1, i, NDIRECT, NDIRECT) && Grown(a1, b1, o1, a2, b2, i, bn + 1, bn + 1)
    requires Extends(owner, o1) && bn >= NDIRECT
    ensures Grown(addrs, blocks, owner, a2, b2, i, PointerSlot(bn), DataSlot(bn))
  {
    forall b | b in owner && b in blocks && owner[b].k != NDIRECT ensures b2[b] == blocks[b] {
      assert o1[b] == owner[b] && b1[b] == blocks[b];
    }
  }

  /** Allocating the indirect block leaves its entries as they were. */
  lemma EntryKept(addrs: seq<seq<nat>>, blocks: map<nat, Bytes>, owner: map<nat, Slot>, addrs': seq<seq<nat>>,
                  blocks': map<nat, Bytes>, i: nat, k: nat)
    requires Grown(addrs, blocks, owner, addrs', blocks', i, NDIRECT, NDIRECT) && i < |addrs| && NDIRECT < k < NSLOTS
    ensures At(addrs'[i], blocks', k) == At(addrs[i], blocks, k)
  {
  }

  /** An entry in use means that the indirect block is there. */
  lemma EntryNeedsBlock(addrs: seq<seq<nat>>, blocks: map<nat, Bytes>, bits: seq<bool>, owner: map<nat, Slot>, lo: nat,
                        i: nat, k: nat)
    requires Owned(addrs, blocks, bits, owner, lo) && i < |addrs| && NDIRECT < k < NSLOTS
    ensures At(addrs[i], blocks, k) != 0 ==> addrs[i][NDIRECT] != 0
  {
    assert BlockAt(addrs, blocks, bits, owner, lo, 0);
  }

  // ---- What the invariant says ---------------------------------------------------------------------

  ghost predicate Refers(addrs: seq<seq<nat>>, blocks: map<nat, Bytes>, i: nat, k: nat, b: nat) {
    i < |addrs| && |addrs[i]| == NDIRECT + 1 && k < NSLOTS && At(addrs[i], blocks, k) == b
  }

  /** A bit is set iff the block is metadata or some slot of some inode refers to it, and then only one does. */
  lemma Partition(addrs: seq<seq<nat>>, blocks: map<nat, Bytes>, bits: seq<bool>, owner: map<nat, Slot>, lo: nat, b: nat)
    requires Owned(addrs, blocks, bits, owner, lo) && 0 < b < |bits|
    ensures bits[b] <==> b < lo || exists i: nat, k: nat :: Refers(addrs, blocks, i, k, b)
    ensures b < lo ==> !exists i: nat, k: nat :: Refers(addrs, blocks, i, k, b)
    ensures forall i: nat, k: nat, j: nat, l: nat :: Refers(addrs, blocks, i, k, b) && Refers(addrs, blocks, j, l, b) ==> i == j && k == l
  {
    assert BlockAt(addrs, blocks, bits, owner, lo, b);
    forall i: nat, k: nat | Refers(addrs, blocks, i, k, b) ensures b in owner && owner[b] == Slot(i, k) {
      assert SlotAt(addrs, blocks, owner, i, k);
    }
    if b in owner { assert Refers(addrs, blocks, owner[b].i, owner[b].k, b); }
  }
}
