/**
 * Who owns the heap's units.  block gives, for each unit obtained from sbrk, the header
 * of the one block that contains it; that block is either free (on the list L) or live.
 */
module Tiling {
  import opened FreeList

  ghost predicate Tag(block: Words, u: nat, a: nat) {
    u in block && block[u] == a
  }

  ghost predicate Covers(block: Words, a: nat, n: nat) {
    forall u: nat :: a <= u < a + n ==> Tag(block, u, a)
  }

  /** Unit u lies in a block that is free or live. */
  ghost predicate Owned(size: Words, L: seq<nat>, live: Words, block: Words, u: nat)
    requires |L| > 0
  {
    u in block ==>
      && L[0] < block[u] && (block[u] in live || block[u] in L)
      && block[u] in size && block[u] <= u < block[u] + size[block[u]]
  }

  /** x heads a block of n units, free or live. */
  ghost predicate Heads(size: Words, L: seq<nat>, live: Words, x: nat, n: nat) {
    && x in size && size[x] == n > 0
    && ((x in live && live[x] == n && x !in L) || (x in L && x != L[0] && x !in live))
  }

  ghost predicate Headed(size: Words, L: seq<nat>, live: Words, block: Words, x: nat) {
    x in live || (x in L && |L| > 0 && x != L[0]) ==>
      x in size && Heads(size, L, live, x, size[x]) && Covers(block, x, size[x])
  }

  /** Free blocks other than base, and live blocks, partition the units. */
  ghost predicate Tiled(size: Words, L: seq<nat>, live: Words, block: Words) {
    && |L| > 0 && L[0] !in live
    && (forall u: nat :: Owned(size, L, live, block, u))
    && (forall x: nat :: Headed(size, L, live, block, x))
  }

  /** A block's header is its own first unit, above base. */
  lemma HeadTag(size: Words, L: seq<nat>, live: Words, block: Words, x: nat, n: nat)
    requires Tiled(size, L, live, block) && Heads(size, L, live, x, n)
    ensures Covers(block, x, n) && Tag(block, x, x) && L[0] < x
  {
    assert Headed(size, L, live, block, x);
    assert Tag(block, x, x) && Owned(size, L, live, block, x);
  }

  lemma LiveHeads(size: Words, L: seq<nat>, live: Words, block: Words)
    requires Tiled(size, L, live, block)
    ensures forall x :: x in live ==> x !in L && x in size && live[x] == size[x] > 0
  {
    forall x | x in live ensures x !in L && x in size && live[x] == size[x] > 0 {
      assert Headed(size, L, live, block, x);
    }
  }

  /** Two blocks that share a unit are one. */
  lemma Disjoint(size: Words, L: seq<nat>, live: Words, block: Words, x: nat, n: nat, y: nat, m: nat)
    requires Tiled(size, L, live, block) && Heads(size, L, live, x, n) && Heads(size, L, live, y, m) && x < y
    ensures x + n <= y
  {
    HeadTag(size, L, live, block, x, n);
    HeadTag(size, L, live, block, y, m);
    assert y < x + n ==> Tag(block, y, x);
  }

  /** Hand the units lo .. hi over to block a. */
  ghost function Retag(block: Words, lo: nat, hi: nat, a: nat): (r: Words)
    ensures r.Keys == block.Keys
    ensures forall u :: u in block ==> r[u] == if lo <= u < hi then a else block[u]
  {
    map u | u in block :: if lo <= u < hi then a else block[u]
  }

  lemma CoversKept(block: Words, lo: nat, hi: nat, a: nat, x: nat, n: nat)
    requires Covers(block, x, n) && (x + n <= lo || hi <= x)
    ensures Covers(Retag(block, lo, hi, a), x, n)
  {
    var r := Retag(block, lo, hi, a);
    forall u: nat | x <= u < x + n ensures Tag(r, u, x) { assert Tag(block, u, x); }
  }

  // ---- Moves ------------------------------------------------------------------------

  /** Block c, right behind block b, becomes part of it; b ends up live or free. */
  ghost predicate Joins(size: Words, L: seq<nat>, live: Words, b: nat, n: nat, c: nat, m: nat,
                        size': Words, L': seq<nat>, live': Words)
  {
    && Heads(size, L, live, b, n) && Heads(size, L, live, c, m) && b + n == c
    && size' == size[b := n + m]
    && |L'| > 0 && |L| > 0 && L'[0] == L[0]
    && (forall x :: x in L' <==> x in L && x != c)
    && (forall x :: x in live' <==> x in live && x != c)
    && (forall x :: x in live' ==> live'[x] == if x == b then n + m else live[x])
  }

  lemma JoinedUnit(size: Words, L: seq<nat>, live: Words, block: Words, b: nat, n: nat, c: nat, m: nat,
                   size': Words, L': seq<nat>, live': Words, u: nat)
    requires Tiled(size, L, live, block) && Joins(size, L, live, b, n, c, m, size', L', live')
    ensures Owned(size', L', live', Retag(block, c, c + m, b), u)
  {
    HeadTag(size, L, live, block, b, n);
    HeadTag(size, L, live, block, c, m);
    assert Owned(size, L, live, block, u);
    if c <= u < c + m { assert Tag(block, u, c); }
  }

  lemma JoinedHead(size: Words, L: seq<nat>, live: Words, block: Words, b: nat, n: nat, c: nat, m: nat,
                   size': Words, L': seq<nat>, live': Words, x: nat)
    requires Tiled(size, L, live, block) && Joins(size, L, live, b, n, c, m, size', L', live')
    ensures Headed(size', L', live', Retag(block, c, c + m, b), x)
  {
    var r := Retag(block, c, c + m, b);
    HeadTag(size, L, live, block, b, n);
    HeadTag(size, L, live, block, c, m);
    assert Headed(size, L, live, block, x);
    if x == b {
      forall u: nat | b <= u < b + (n + m) ensures Tag(r, u, b) { assert Tag(block, u, if u < c then b else c); }
    } else if x != c && x in size && Heads(size, L, live, x, size[x]) {
      if x < c { Disjoint(size, L, live, block, x, size[x], c, m); } else { Disjoint(size, L, live, block, c, m, x, size[x]); }
      CoversKept(block, c, c + m, b, x, size[x]);
    }
  }

  lemma Joined(size: Words, L: seq<nat>, live: Words, block: Words, b: nat, n: nat, c: nat, m: nat,
               size': Words, L': seq<nat>, live': Words)
    requires Tiled(size, L, live, block) && Joins(size, L, live, b, n, c, m, size', L', live')
    ensures Tiled(size', L', live', Retag(block, c, c + m, b))
  {
    var r := Retag(block, c, c + m, b);
    forall u: nat ensures Owned(size', L', live', r, u) {
      JoinedUnit(size, L, live, block, b, n, c, m, size', L', live', u);
    }
    forall x: nat ensures Headed(size', L', live', r, x) {
      JoinedHead(size, L, live, block, b, n, c, m, size', L', live', x);
    }
  }

  /** Blocks change between free and live; no unit changes block. */
  lemma Relabelled(size: Words, L: seq<nat>, live: Words, block: Words, L': seq<nat>, live': Words)
    requires Tiled(size, L, live, block) && |L'| > 0 && L'[0] == L[0]
    requires forall x :: x in live || x in L <==> x in live' || x in L'
    requires forall x :: x in live' ==> x !in L' && x in size && live'[x] == size[x]
    ensures Tiled(size, L', live', block)
  {
    forall u: nat ensures Owned(size, L', live', block, u) { assert Owned(size, L, live, block, u); }
    forall x: nat ensures Headed(size, L', live', block, x) { assert Headed(size, L, live, block, x); }
  }

  /** The last n units of free block p become a live block. */
  lemma Split(size: Words, L: seq<nat>, live: Words, block: Words, p: nat, s: nat, n: nat)
    requires Tiled(size, L, live, block) && p in L && Heads(size, L, live, p, s) && 0 < n < s
    ensures var q := p + s - n;
            && q !in live && q !in L && q in block
            && Tiled(size[p := s - n][q := n], L, live[q := n], Retag(block, q, q + n, q))
  {
    var q := p + s - n;
    var size', live', r := size[p := s - n][q := n], live[q := n], Retag(block, q, q + n, q);
    HeadTag(size, L, live, block, p, s);
    assert Tag(block, q, p) && Headed(size, L, live, block, q);
    if q in live || q in L { HeadTag(size, L, live, block, q, size[q]); }
    forall u: nat ensures Owned(size', L, live', r, u) {
      assert Owned(size, L, live, block, u);
      if q <= u < q + n { assert Tag(block, u, p); }
    }
    forall x: nat ensures Headed(size', L, live', r, x) {
      SplitHead(size, L, live, block, p, s, n, x);
    }
  }

  lemma SplitHead(size: Words, L: seq<nat>, live: Words, block: Words, p: nat, s: nat, n: nat, x: nat)
    requires Tiled(size, L, live, block) && p in L && Heads(size, L, live, p, s) && 0 < n < s
    requires p + s - n !in live && p + s - n !in L
    ensures var q := p + s - n;
            Headed(size[p := s - n][q := n], L, live[q := n], Retag(block, q, q + n, q), x)
  {
    var q := p + s - n;
    var r := Retag(block, q, q + n, q);
    HeadTag(size, L, live, block, p, s);
    assert Headed(size, L, live, block, x);
    if x == q {
      forall u: nat | q <= u < q + n ensures Tag(r, u, q) { assert Tag(block, u, p); }
    } else if x == p {
      forall u: nat | p <= u < p + (s - n) ensures Tag(r, u, p) { assert Tag(block, u, p); }
    } else if x in size && Heads(size, L, live, x, size[x]) {
      if x < p { Disjoint(size, L, live, block, x, size[x], p, s); } else { Disjoint(size, L, live, block, p, s, x, size[x]); }
      CoversKept(block, q, q + n, q, x, size[x]);
    }
  }

  /** Units fresh from sbrk arrive as one live block. */
  lemma Grown(size: Words, L: seq<nat>, live: Words, block: Words, a: nat, n: nat, block': Words)
    requires Tiled(size, L, live, block) && L[0] < a && n > 0
    requires forall u :: a <= u < a + n ==> u !in block
    requires forall u :: u in block' <==> u in block || a <= u < a + n
    requires forall u :: u in block' ==> block'[u] == if a <= u < a + n then a else block[u]
    ensures a !in live && a !in L && Tiled(size[a := n], L, live[a := n], block')
  {
    assert a !in live && a !in L by {
      assert Headed(size, L, live, block, a);
      if a in live || a in L { HeadTag(size, L, live, block, a, size[a]); }
    }
    var size', live' := size[a := n], live[a := n];
    forall u: nat ensures Owned(size', L, live', block', u) { assert Owned(size, L, live, block, u); }
    forall x: nat ensures Headed(size', L, live', block', x) {
      assert Headed(size, L, live, block, x);
      if x == a {
        forall u: nat | a <= u < a + n ensures Tag(block', u, a) {}
      } else if x in size && Heads(size, L, live, x, size[x]) {
        forall u: nat | x <= u < x + size[x] ensures Tag(block', u, x) { assert Tag(block, u, x); }
      }
    }
  }
}
