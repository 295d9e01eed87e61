/** The contents of disk blocks: bytes, and the words and bits stored in them. */
module Blocks {
  import opened Basics

  const BSIZE: nat := 512
  const NINDIRECT: nat := 128
  /** Bits in a bitmap block. */
  const BPB: nat := 4096

  type Bytes = seq<Byte>

  const ZERO: Bytes := seq(BSIZE, i => 0)

  // ---- An array of 32-bit words, little-endian ---------------------------------------------

  function Entry(b: Bytes, j: nat): (w: nat)
    requires |b| == BSIZE && j < NINDIRECT
    ensures w < 0x1_0000_0000
  {
    b[4 * j] as nat + 0x100 * b[4 * j + 1] as nat + 0x1_0000 * b[4 * j + 2] as nat + 0x100_0000 * b[4 * j + 3] as nat
  }

  function SetEntry(b: Bytes, j: nat, w: nat): (r: Bytes)
    requires |b| == BSIZE && j < NINDIRECT && w < 0x1_0000_0000
    ensures |r| == BSIZE
  {
    b[4 * j := w % 0x100][4 * j + 1 := w / 0x100 % 0x100][4 * j + 2 := w / 0x1_0000 % 0x100][4 * j + 3 := w / 0x100_0000]
  }

  /** Writing word j leaves the other words alone. */
  lemma EntrySet(b: Bytes, j: nat, w: nat, k: nat)
    requires |b| == BSIZE && j < NINDIRECT && w < 0x1_0000_0000 && k < NINDIRECT
    ensures Entry(SetEntry(b, j, w), k) == if k == j then w else Entry(b, k)
  {
    if k == j {
      var x, y := w / 0x100, w / 0x1_0000;
      assert w == w % 0x100 + 0x100 * x && x == x % 0x100 + 0x100 * y && y == y % 0x100 + 0x100 * (w / 0x100_0000);
    }
  }

  // ---- Bits in a byte ------------------------------------------------------------------------

  /** 1 << k */
  function Mask(k: nat): (m: nat)
    ensures m > 0
  {
    if k == 0 then 1 else 2 * Mask(k - 1)
  }

  /** Is (x & 1 << k) nonzero? */
  predicate Bit(x: nat, k: nat) {
    if k == 0 then x % 2 == 1 else Bit(x / 2, k - 1)
  }

  /** x | 1 << k and x & ~(1 << k) */
  function SetBit(x: Byte, k: nat, on: bool): Byte
    requires k < 8
  {
    BitRange(x, k, 8);
    assert Mask(8) == 256;
    if Bit(x, k) == on then x else if on then x + Mask(k) else x - Mask(k)
  }

  lemma {:induction false} BitRange(x: nat, k: nat, n: nat)
    requires k < n && x < Mask(n)
    ensures if Bit(x, k) then x >= Mask(k) else x + Mask(k) < Mask(n)
  {
    if k > 0 { BitRange(x / 2, k - 1, n - 1); }
  }

  /** Setting or clearing bit k leaves the other bits alone. */
  lemma BitSet(x: Byte, k: nat, on: bool, j: nat)
    requires k < 8 && j < 8
    ensures Bit(SetBit(x, k, on), j) == if j == k then on else Bit(x, j)
  {
    BitRange(x, k, 8);
    assert Mask(8) == 256;
    if Bit(x, k) && !on {
      Removed(x, k);
      Added(x - Mask(k), k, j);
    } else if !Bit(x, k) && on {
      Added(x, k, j);
    }
  }

  /** Adding 1 << k where bit k is clear sets it and no other. */
  lemma {:induction false} Added(x: nat, k: nat, j: nat)
    requires !Bit(x, k)
    ensures Bit(x + Mask(k), j) == (j == k || Bit(x, j))
    decreases k
  {
    if k == 0 {
      if j > 0 { assert (x + 1) / 2 == x / 2; }
    } else {
      var m := Mask(k - 1);
      assert (x + 2 * m) / 2 == x / 2 + m && (x + 2 * m) % 2 == x % 2;
      if j > 0 { Added(x / 2, k - 1, j - 1); }
    }
  }

  /** Taking 1 << k away where bit k is set clears it. */
  lemma {:induction false} Removed(x: nat, k: nat)
    requires Bit(x, k) && x >= Mask(k)
    ensures !Bit(x - Mask(k), k)
  {
    if k > 0 {
      var m := Mask(k - 1);
      assert (x - 2 * m) / 2 == x / 2 - m;
      Removed(x / 2, k - 1);
    }
  }

  // ---- Bits in a block ---------------------------------------------------------------------------

  lemma Divided(x: nat, q: nat, r: nat)
    requires x == 8 * q + r && r < 8
    ensures x / 8 == q && x % 8 == r
  {
  }

  /** Bit b is bit x of bitmap block u. */
  lemma BitPlace(b: nat, u: nat, x: nat)
    requires b == BPB * u + x && x < BPB
    ensures b / BPB == u && b % BPB == x && b % 8 == x % 8
  {
    assert b == 8 * (512 * u + x / 8) + x % 8;
    Divided(b, 512 * u + x / 8, x % 8);
  }
}
