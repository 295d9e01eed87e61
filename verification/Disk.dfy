/**
 * The disk: an array of blocks whose only operation is the write of one whole
 * block.  A crash can fall between any two writes, so a computation's effect on
 * the disk is kept as the sequence of the writes it issues.
 */
module Disk {

  /** BSIZE / sizeof(int): a block seen as an array of C ints. */
  const BWORDS: nat := 128

  type Block = b: seq<int> | |b| == BWORDS witness seq(BWORDS, i => 0)

  type Image = seq<Block>

  datatype Write = Write(blockno: nat, data: Block)

  ghost predicate Fits(d: Image, ws: seq<Write>) {
    forall i :: 0 <= i < |ws| ==> ws[i].blockno < |d|
  }

  /** The disk after the first k of the writes ws. */
  ghost function Apply(d: Image, ws: seq<Write>, k: nat): (r: Image)
    requires Fits(d, ws) && k <= |ws|
    ensures |r| == |d|
    decreases k
  {
    if k == 0 then d else Apply(d, ws, k - 1)[ws[k - 1].blockno := ws[k - 1].data]
  }

  lemma {:induction false} ApplyUntouched(d: Image, ws: seq<Write>, k: nat, b: nat)
    requires Fits(d, ws) && k <= |ws| && b < |d|
    requires forall i :: 0 <= i < k ==> ws[i].blockno != b
    ensures Apply(d, ws, k)[b] == d[b]
    decreases k
  {
    if k > 0 { ApplyUntouched(d, ws, k - 1, b); }
  }

  /** A block holds the data of the last write to it. */
  lemma {:induction false} ApplyLast(d: Image, ws: seq<Write>, k: nat, i: nat)
    requires Fits(d, ws) && i < k <= |ws|
    requires forall j :: i < j < k ==> ws[j].blockno != ws[i].blockno
    ensures Apply(d, ws, k)[ws[i].blockno] == ws[i].data
    decreases k
  {
    if i < k - 1 { ApplyLast(d, ws, k - 1, i); }
  }

  lemma {:induction false} ApplyAgree(d: Image, ws: seq<Write>, vs: seq<Write>, k: nat)
    requires Fits(d, ws) && Fits(d, vs) && k <= |ws| && k <= |vs|
    requires forall i :: 0 <= i < k ==> ws[i] == vs[i]
    ensures Apply(d, ws, k) == Apply(d, vs, k)
    decreases k
  {
    if k > 0 { ApplyAgree(d, ws, vs, k - 1); }
  }

  /** Some writes and then others. */
  lemma {:induction false} ApplyMore(d: Image, ws: seq<Write>, vs: seq<Write>, k: nat)
    requires Fits(d, ws) && Fits(d, vs) && k <= |vs|
    ensures Fits(d, ws + vs) && Apply(d, ws + vs, |ws| + k) == Apply(Apply(d, ws, |ws|), vs, k)
    decreases k
  {
    if k == 0 {
      ApplyAgree(d, ws + vs, ws, |ws|);
    } else {
      ApplyMore(d, ws, vs, k - 1);
    }
  }

  // ---- The disk behind its cache: the dirty (hence pinned) cached blocks ----------
  // BufferCache proves that the cache's own code behaves like this.

  type Pins = map<nat, Block>

  /** bread: the contents of block b. */
  function View(d: Image, p: Pins, b: nat): Block
    requires b < |d|
  {
    if b in p then p[b] else d[b]
  }

  /** A block written to disk is no longer dirty. */
  function Unpin(p: Pins, b: nat): Pins {
    if b in p then p - {b} else p
  }
}
