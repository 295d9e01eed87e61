/** How many blocks files take, and how many are left. */
module Capacity {
  import opened Blocks
  import opened Ownership
  import opened FileContent

  /** The slots of a file of n bytes: its blocks, and the indirect block if it has more than NDIRECT. */
  function SlotsFor(n: nat): nat {
    var d := (n + BSIZE - 1) / BSIZE;
    if d <= NDIRECT then d else d + 1
  }

  /** The blocks that the first k files take. */
  ghost function Used(content: seq<Bytes>, k: nat): nat
    requires k <= |content|
  {
    if k == 0 then 0 else Used(content, k - 1) + SlotsFor(|content[k - 1]|)
  }

  /** The free data blocks. */
  ghost function Clear(bits: seq<bool>, lo: nat): set<nat> {
    set b: nat | lo <= b < |bits| && !bits[b]
  }

  ghost predicate Between(lo: nat, b: nat, hi: nat) {
    lo <= b < hi
  }

  ghost function Numbers(lo: nat, hi: nat): set<nat> {
    set b: nat | b < hi && Between(lo, b, hi)
  }

  lemma {:induction false} NumbersSize(lo: nat, hi: nat)
    requires lo <= hi
    ensures |Numbers(lo, hi)| == hi - lo
    decreases hi - lo
  {
    if lo < hi {
      NumbersSize(lo, hi - 1);
      assert Numbers(lo, hi) == Numbers(lo, hi - 1) + {hi - 1};
    }
  }

  /** A map that takes different keys to different values has as many values as keys. */
  lemma {:induction false} OneToOne(m: map<nat, Slot>, s: set<Slot>)
    requires forall b, c :: b in m && c in m && m[b] == m[c] ==> b == c
    requires forall x :: x in s <==> exists b :: b in m && m[b] == x
    ensures |m| == |s|
    decreases |m|
  {
    if m == map[] {
      assert s == {};
    } else {
      var b :| b in m;
      var m', s' := m - {b}, s - {m[b]};
      assert m'.Keys == m.Keys - {b};
      forall x ensures x in s' <==> exists c :: c in m' && m'[c] == x {
        if x in s' {
          var c :| c in m && m[c] == x;
          assert c in m' && m'[c] == x;
        }
      }
      OneToOne(m', s');
    }
  }

  /** The slots in use among the first n inodes. */
  ghost function Taken(addrs: seq<seq<nat>>, blocks: map<nat, Bytes>, n: nat): set<Slot>
    requires Inodes(addrs) && n <= |addrs|
  {
    set i: nat, k: nat | i < n && k < NSLOTS && At(addrs[i], blocks, k) != 0 :: Slot(i, k)
  }

  lemma OwnerTakes(addrs: seq<seq<nat>>, blocks: map<nat, Bytes>, bits: seq<bool>, owner: map<nat, Slot>, lo: nat)
    requires Owned(addrs, blocks, bits, owner, lo)
    ensures |owner| == |Taken(addrs, blocks, |addrs|)|
  {
    var s := Taken(addrs, blocks, |addrs|);
    forall b, c | b in owner && c in owner && owner[b] == owner[c] ensures b == c {
      assert BlockAt(addrs, blocks, bits, owner, lo, b) && BlockAt(addrs, blocks, bits, owner, lo, c);
    }
    forall x ensures x in s <==> exists b :: b in owner && owner[b] == x {
      if x in s {
        var b := At(addrs[x.i], blocks, x.k);
        assert SlotAt(addrs, blocks, owner, x.i, x.k);
        assert b in owner && owner[b] == x;
      }
      if b :| b in owner && owner[b] == x {
        assert BlockAt(addrs, blocks, bits, owner, lo, b) && BlockAt(addrs, blocks, bits, owner, lo, 0);
        assert At(addrs[x.i], blocks, x.k) != 0;
      }
    }
    OneToOne(owner, s);
  }

  /** Of a file of n bytes exactly the first SlotsFor(n) slots are in use. */
  lemma CoveredFirst(k: nat, n: nat)
    requires k < NSLOTS && n <= MAXFILE * BSIZE
    ensures Covered(k, n) <==> k < SlotsFor(n)
    ensures SlotsFor(n) <= NSLOTS
  {
  }

  /** The slots of inode i. */
  ghost function Row(i: nat, c: nat): set<Slot> {
    set k: nat | k < c :: Slot(i, k)
  }

  lemma {:induction false} RowSize(i: nat, c: nat)
    ensures |Row(i, c)| == c
  {
    if c > 0 {
      RowSize(i, c - 1);
      assert Row(i, c) == Row(i, c - 1) + {Slot(i, c - 1)};
    }
  }

  lemma TakenMore(addrs: seq<seq<nat>>, blocks: map<nat, Bytes>, n: nat, c: nat)
    requires Inodes(addrs) && n < |addrs| && c <= NSLOTS
    requires forall k: nat :: k < NSLOTS ==> (At(addrs[n], blocks, k) != 0 <==> k < c)
    ensures Taken(addrs, blocks, n + 1) == Taken(addrs, blocks, n) + Row(n, c) && Taken(addrs, blocks, n) !! Row(n, c)
  {
    var s, t, r := Taken(addrs, blocks, n + 1), Taken(addrs, blocks, n), Row(n, c);
    forall x ensures x in s <==> x in t || x in r {
      if x in s && x.i == n { assert At(addrs[n], blocks, x.k) != 0; }
      if x in r { assert At(addrs[n], blocks, x.k) != 0; }
    }
  }

  lemma {:induction false} TakenIsUsed(addrs: seq<seq<nat>>, blocks: map<nat, Bytes>, content: seq<Bytes>, n: nat)
    requires Inodes(addrs) && Files(addrs, blocks, content) && n <= |addrs|
    ensures |Taken(addrs, blocks, n)| == Used(content, n)
    decreases n
  {
    if n > 0 {
      TakenIsUsed(addrs, blocks, content, n - 1);
      var c := SlotsFor(|content[n - 1]|);
      RowSize(n - 1, c);
      FileRow(addrs, blocks, content, n - 1);
      TakenMore(addrs, blocks, n - 1, c);
    } else {
      assert Taken(addrs, blocks, 0) == {};
    }
  }

  lemma FileSize(a: seq<nat>, blocks: map<nat, Bytes>, c: Bytes)
    requires File(a, blocks, c)
    ensures |c| <= MAXFILE * BSIZE
  {
    if |c| > 0 { assert ByteAt(a, blocks, c, |c| - 1); }
  }

  lemma FileRow(addrs: seq<seq<nat>>, blocks: map<nat, Bytes>, content: seq<Bytes>, i: nat)
    requires Inodes(addrs) && Files(addrs, blocks, content) && i < |addrs|
    ensures forall k: nat :: k < NSLOTS ==> (At(addrs[i], blocks, k) != 0 <==> k < SlotsFor(|content[i]|))
    ensures SlotsFor(|content[i]|) <= NSLOTS
  {
    var c := content[i];
    assert File(addrs[i], blocks, c);
    FileSize(addrs[i], blocks, c);
    CoveredFirst(0, |c|);
    forall k: nat | k < NSLOTS ensures At(addrs[i], blocks, k) != 0 <==> k < SlotsFor(|c|) {
      assert SlotDense(addrs[i], blocks, |c|, k);
      CoveredFirst(k, |c|);
    }
  }

  /** The blocks the files take and the free ones are all the data blocks. */
  lemma Accounts(addrs: seq<seq<nat>>, blocks: map<nat, Bytes>, bits: seq<bool>, owner: map<nat, Slot>, lo: nat,
                 content: seq<Bytes>)
    requires Owned(addrs, blocks, bits, owner, lo) && Files(addrs, blocks, content)
    ensures Used(content, |content|) + |Clear(bits, lo)| == |bits| - lo
  {
    OwnerTakes(addrs, blocks, bits, owner, lo);
    TakenIsUsed(addrs, blocks, content, |addrs|);
    NumbersSize(lo, |bits|);
    forall b: nat ensures b in Numbers(lo, |bits|) <==> b in owner.Keys + Clear(bits, lo) {
      assert BlockAt(addrs, blocks, bits, owner, lo, b);
    }
    assert owner.Keys !! Clear(bits, lo) by {
      forall b | b in owner ensures b !in Clear(bits, lo) { assert BlockAt(addrs, blocks, bits, owner, lo, b); }
    }
    assert Numbers(lo, |bits|) == owner.Keys + Clear(bits, lo);
  }

  lemma {:induction false} UsedSet(content: seq<Bytes>, i: nat, c: Bytes, k: nat)
    requires i < |content| && k <= |content|
    ensures Used(content[i := c], k) == Used(content, k) + (if i < k then SlotsFor(|c|) - SlotsFor(|content[i]|) else 0)
    decreases k
  {
    if k > 0 { UsedSet(content, i, c, k - 1); }
  }

  lemma SlotsMore(m: nat, n: nat)
    requires m <= n
    ensures SlotsFor(m) <= SlotsFor(n)
  {
    assert (m + BSIZE - 1) / BSIZE <= (n + BSIZE - 1) / BSIZE;
  }

  /** The slots that block bn of a file still lacks. */
  ghost function Lacks(a: seq<nat>, blocks: map<nat, Bytes>, bn: nat): nat
    requires |a| == NDIRECT + 1 && bn < MAXFILE
  {
    (if bn >= NDIRECT && At(a, blocks, NDIRECT) == 0 then 1 else 0) + (if At(a, blocks, DataSlot(bn)) == 0 then 1 else 0)
  }

  /** If block bn lacks slots, the file ends where it begins, and grows by as many. */
  lemma LacksGrows(a: seq<nat>, blocks: map<nat, Bytes>, c: Bytes, bn: nat, n: nat)
    requires File(a, blocks, c) && bn < MAXFILE && bn * BSIZE <= |c| && Lacks(a, blocks, bn) > 0
    requires bn * BSIZE < n <= bn * BSIZE + BSIZE
    ensures SlotsFor(n) == SlotsFor(|c|) + Lacks(a, blocks, bn)
  {
    assert SlotDense(a, blocks, |c|, DataSlot(bn)) && SlotDense(a, blocks, |c|, NDIRECT);
    assert |c| == bn * BSIZE;
    assert (bn * BSIZE + BSIZE - 1) / BSIZE == bn;
    assert (n + BSIZE - 1) / BSIZE == bn + 1;
  }

  /** With fewer blocks free than block bn lacks, the files would not fit with it written. */
  lemma TooFew(addrs: seq<seq<nat>>, blocks: map<nat, Bytes>, bits: seq<bool>, owner: map<nat, Slot>, lo: nat,
               content: seq<Bytes>,
               i: nat, bn: nat, c: Bytes)
    requires Owned(addrs, blocks, bits, owner, lo) && Files(addrs, blocks, content) && i < |addrs| && bn < MAXFILE
    requires bn * BSIZE <= |content[i]| && bn * BSIZE < |c| <= bn * BSIZE + BSIZE
    requires |Clear(bits, lo)| < Lacks(addrs[i], blocks, bn)
    ensures Used(content[i := c], |content|) > |bits| - lo
  {
    Accounts(addrs, blocks, bits, owner, lo, content);
    LacksGrows(addrs[i], blocks, content[i], bn, |c|);
    UsedSet(content, i, c, |content|);
  }
}
